/**
 The lazily built `raw` command: `peek` finds the group and the leaf on the command line,
 `raw_command` builds no more than those need, and layer 2 runs what was parsed.
 */
module LazyTree {
  import opened Wrappers
  import opened Lookup
  import opened Text

  // ------------------------------------------------------------------------------- peek

  /** The global options whose value is the next token. */
  const VALUE_FLAGS: seq<string> :=
    ["--host", "--hostname", "--login", "--repo", "-R", "--token", "--otp", "--sudo", "--config", "--jq", "-q",
     "--template", "-t", "--output"]

  predicate IsWord(token: string) {
    token == "-" || token == "" || token[0] != '-'
  }

  predicate TakesNext(token: string) {
    '=' !in token && token in VALUE_FLAGS
  }

  /** Every token that is neither a flag nor a flag's value. */
  function Words(argv: seq<string>, ended: bool): seq<string> {
    if argv == [] then []
    else if ended || IsWord(argv[0]) then [argv[0]] + Words(argv[1..], ended)
    else if argv[0] == "--" then Words(argv[1..], true)
    else if TakesNext(argv[0]) && |argv| > 1 then Words(argv[2..], ended)
    else Words(argv[1..], ended)
  }

  /** The token iterator, with the flag that `--` sets. */
  class Tokens {
    const argv: seq<string>
    var at: nat
    var ended: bool

    constructor (argv: seq<string>)
      ensures this.argv == argv && at == 0 && !ended
    {
      this.argv := argv;
      at, ended := 0, false;
    }

    ghost function Rest(): seq<string>
      requires at <= |argv|
      reads this
    {
      Words(argv[at..], ended)
    }

    method NextWord() returns (r: Option<string>)
      requires at <= |argv|
      modifies this
      ensures at <= |argv|
      ensures r == if old(Rest()) == [] then None else Some(old(Rest())[0])
      ensures Rest() == if r.None? then [] else old(Rest())[1..]
    {
      while at < |argv|
        invariant at <= |argv| && Rest() == old(Rest())
        decreases |argv| - at
      {
        var token := argv[at];
        assert argv[at..][0] == token && argv[at..][1..] == argv[at + 1..];
        assert at + 2 <= |argv| ==> argv[at..][2..] == argv[at + 2..];
        at := at + 1;
        if ended || IsWord(token) {
          return Some(token);
        }
        if token == "--" {
          ended := true;
        } else if TakesNext(token) && at < |argv| {
          at := at + 1;
        }
      }
      r := None;
    }
  }

  datatype Peeked = Peeked(group: Option<string>, leaf: Option<string>)

  function PeekedIn(words: seq<string>): Option<Peeked> {
    if words == [] || (words[0] != "raw" && words[0] != "x") then None
    else Some(Peeked(if |words| > 1 then Some(words[1]) else None, if |words| > 2 then Some(words[2]) else None))
  }

  /** What follows the program's own name. */
  function Arguments(argv: seq<string>): seq<string> {
    if argv == [] then [] else argv[1..]
  }

  method Peek(argv: seq<string>) returns (r: Option<Peeked>)
    ensures r == PeekedIn(Words(Arguments(argv), false))
  {
    hide Words;
    var it := new Tokens(Arguments(argv));
    assert it.argv[0..] == it.argv;
    var first := it.NextWord();
    if first.None? || (first.value != "raw" && first.value != "x") {
      return None;
    }
    var group := it.NextWord();
    var leaf: Option<string> := None;
    if group.Some? {
      leaf := it.NextWord();
    }
    r := Some(Peeked(group, leaf));
  }

  /**
   One part of a command line, as the argument parser reads it. An option with
   a separate value is `Valued` if it is in the list and `Unlisted` if it is not.
   */
  datatype Item = Word(text: string) | Switch(flag: string) | Inline(flag: string, value: string)
                | Valued(flag: string, value: string) | Unlisted(flag: string, value: string)

  predicate IsFlag(token: string) {
    !IsWord(token) && token != "--"
  }

  predicate WellFormed(item: Item) {
    match item
    case Word(text) => IsWord(text)
    case Switch(flag) => IsFlag(flag) && !TakesNext(flag)
    case Inline(flag, _) => !IsWord(flag)
    case Valued(flag, _) => TakesNext(flag)
    case Unlisted(flag, value) => IsFlag(flag) && !TakesNext(flag) && IsWord(value)
  }

  predicate AllWellFormed(items: seq<Item>) {
    forall item | item in items :: WellFormed(item)
  }

  function Written(item: Item): seq<string> {
    match item
    case Word(text) => [text]
    case Switch(flag) => [flag]
    case Inline(flag, value) => [flag + "=" + value]
    case Valued(flag, value) => [flag, value]
    case Unlisted(flag, value) => [flag, value]
  }

  function Line(items: seq<Item>): seq<string> {
    if items == [] then [] else Written(items[0]) + Line(items[1..])
  }

  /** The words of the command line: what is no option and no option's value. */
  function WordsOf(items: seq<Item>): seq<string> {
    if items == [] then []
    else (if items[0].Word? then [items[0].text] else []) + WordsOf(items[1..])
  }

  /** What peeking takes for a word of this part: an unlisted option's value is one. */
  function SeenOf(item: Item): seq<string> {
    if item.Word? then [item.text] else if item.Unlisted? then [item.value] else []
  }

  function Seen(items: seq<Item>): seq<string> {
    if items == [] then [] else SeenOf(items[0]) + Seen(items[1..])
  }

  function UnlistedCount(items: seq<Item>): nat {
    if items == [] then 0 else (if items[0].Unlisted? then 1 else 0) + UnlistedCount(items[1..])
  }

  lemma WordFirst(token: string, rest: seq<string>)
    ensures IsWord(token) ==> Words([token] + rest, false) == [token] + Words(rest, false)
    ensures IsFlag(token) && !TakesNext(token) ==> Words([token] + rest, false) == Words(rest, false)
  {
    var line := [token] + rest;
    assert line[1..] == rest && line[0] == token;
  }

  lemma ValueFirst(flag: string, value: string, rest: seq<string>)
    requires TakesNext(flag)
    ensures Words([flag, value] + rest, false) == Words(rest, false)
  {
    var line := [flag, value] + rest;
    assert line[2..] == rest && line[0] == flag;
    assert !IsWord(flag) && flag != "--";
  }

  lemma InlineIsFlag(flag: string, value: string)
    requires !IsWord(flag)
    ensures IsFlag(flag + "=" + value) && !TakesNext(flag + "=" + value)
  {
    var token := flag + "=" + value;
    assert token[0] == '-' && token[|flag|] == '=' && |token| >= 2;
  }

  lemma WordsAfter(item: Item, rest: seq<string>)
    requires WellFormed(item)
    ensures Words(Written(item) + rest, false) == SeenOf(item) + Words(rest, false)
  {
    hide Words, IsWord, IsFlag, TakesNext;
    match item
    case Word(text) =>
      WordFirst(text, rest);
    case Switch(flag) =>
      WordFirst(flag, rest);
    case Inline(flag, value) =>
      InlineIsFlag(flag, value);
      WordFirst(flag + "=" + value, rest);
    case Valued(flag, value) =>
      ValueFirst(flag, value, rest);
    case Unlisted(flag, value) =>
      WordFirst(flag, [value] + rest);
      WordFirst(value, rest);
      assert [flag, value] + rest == [flag] + ([value] + rest);
  }

  lemma {:induction false} SeenThen(items: seq<Item>, rest: seq<string>)
    requires AllWellFormed(items)
    ensures Words(Line(items) + rest, false) == Seen(items) + Words(rest, false)
  {
    if items == [] {
      assert Line(items) + rest == rest;
    } else {
      var item, more := items[0], items[1..];
      assert items == [item] + more && item in items;
      ItemInFront(item, more);
      hide Words, Written, WellFormed, Line, Seen, SeenOf;
      SeenThen(more, rest);
      WordsAfter(item, Line(more) + rest);
      Associate(Written(item), Line(more), rest);
      Associate(SeenOf(item), Seen(more), Words(rest, false));
    }
  }

  /** A command line: items, and perhaps `--` and anything at all behind it. */
  datatype Command = Command(items: seq<Item>, rest: Option<seq<string>>)

  predicate Fits(c: Command) {
    AllWellFormed(c.items)
  }

  function Tokenised(c: Command): seq<string> {
    match c.rest case None => Line(c.items) case Some(rest) => Line(c.items) + (["--"] + rest)
  }

  /** Everything behind `--` is a word. */
  function Behind(c: Command): seq<string> {
    match c.rest case None => [] case Some(rest) => rest
  }

  lemma {:induction false} AllAreWords(argv: seq<string>)
    ensures Words(argv, true) == argv
  {
    if argv != [] {
      AllAreWords(argv[1..]);
      assert argv == [argv[0]] + argv[1..];
    }
  }

  lemma WordsBehind(rest: seq<string>)
    ensures Words(["--"] + rest, false) == rest
  {
    var line := ["--"] + rest;
    assert line[1..] == rest && line[0] == "--" && !IsWord("--");
    AllAreWords(rest);
  }

  lemma SeenIsSeen(c: Command)
    requires Fits(c)
    ensures Words(Tokenised(c), false) == Seen(c.items) + Behind(c)
  {
    hide Seen, Line;
    if c.rest.Some? {
      SeenThen(c.items, ["--"] + c.rest.value);
      WordsBehind(c.rest.value);
    } else {
      SeenThen(c.items, []);
      assert Line(c.items) + [] == Line(c.items);
    }
  }

  /** With only options before it, an unlisted option's value is taken for the command, whatever follows. */
  lemma UnlistedOptionsHide(items: seq<Item>, flag: string, value: string, rest: seq<string>)
    requires AllWellFormed(items) && Seen(items) == []
    requires WellFormed(Unlisted(flag, value)) && value != "raw" && value != "x"
    ensures PeekedIn(Words(Line(items) + ([flag, value] + rest), false)) == None
  {
    hide Words;
    SeenThen(items, [flag, value] + rest);
    WordsAfter(Unlisted(flag, value), rest);
  }

  lemma {:induction false} SeenTooMany(items: seq<Item>)
    ensures |Seen(items)| == |WordsOf(items)| + UnlistedCount(items)
    ensures UnlistedCount(items) == 0 ==> Seen(items) == WordsOf(items)
  {
    if items != [] {
      SeenTooMany(items[1..]);
    }
  }

  lemma {:induction false} NoneUnlisted(items: seq<Item>)
    ensures UnlistedCount(items) == 0 <==> forall item | item in items :: !item.Unlisted?
  {
    if items != [] {
      NoneUnlisted(items[1..]);
      assert items == [items[0]] + items[1..];
    }
  }

  /**
   Peeking sees the words of a command line, wherever options stand among them, exactly when
   no option outside the list has its value in a token of its own.
   */
  lemma OptionsAreSkippedExactly(c: Command)
    requires Fits(c)
    ensures Words(Tokenised(c), false) == WordsOf(c.items) + Behind(c)
            <==> forall item | item in c.items :: !item.Unlisted?
  {
    hide Words, Tokenised, Behind;
    SeenIsSeen(c);
    SeenTooMany(c.items);
    NoneUnlisted(c.items);
    assert |Seen(c.items) + Behind(c)| == |Seen(c.items)| + |Behind(c)|;
    assert |WordsOf(c.items) + Behind(c)| == |WordsOf(c.items)| + |Behind(c)|;
  }

  /** The items up to the third word, which is as far as the peek looks. */
  function UpTo(items: seq<Item>, words: nat): seq<Item> {
    if items == [] || words == 0 then []
    else [items[0]] + UpTo(items[1..], if items[0].Word? then words - 1 else words)
  }

  function Take(words: seq<string>, n: nat): seq<string> {
    if |words| < n then words else words[..n]
  }

  lemma TakeCons(word: string, rest: seq<string>, n: nat)
    requires n > 0
    ensures Take([word] + rest, n) == [word] + Take(rest, n - 1)
  {
  }

  /** Options outside the list do no harm behind the third word. */
  lemma {:induction false} HarmlessBehind(items: seq<Item>, n: nat)
    requires UnlistedCount(UpTo(items, n)) == 0
    ensures Take(Seen(items), n) == Take(WordsOf(items), n)
  {
    if items != [] && n > 0 {
      var first, rest := items[0], items[1..];
      var m := if first.Word? then n - 1 else n;
      assert UpTo(items, n)[1..] == UpTo(rest, m) && UpTo(items, n)[0] == first;
      assert UnlistedCount(UpTo(rest, m)) == 0 && !first.Unlisted?;
      assert items == [first] + rest;
      ItemInFront(first, rest);
      hide UpTo, UnlistedCount, Seen, WordsOf, Line, Take;
      HarmlessBehind(rest, m);
      if first.Word? {
        TakeCons(first.text, Seen(rest), n);
        TakeCons(first.text, WordsOf(rest), n);
      } else {
        assert [] + Seen(rest) == Seen(rest) && [] + WordsOf(rest) == WordsOf(rest);
      }
    }
  }

  // -------------------------------------------------------------------------- the tree

  /** A leaf with all its arguments, or one that is only listed. */
  datatype Leaf = Full(op: Op) | Stub(op: Op)

  datatype Node = GroupNode(name: string, leaves: seq<Leaf>) | SearchNode

  function NodeName(n: Node): string {
    if n.SearchNode? then "search" else n.name
  }

  function Fulls(ops: seq<Op>): (r: seq<Leaf>)
  {
    if ops == [] then [] else [Full(ops[0])] + Fulls(ops[1..])
  }

  function Stubs(ops: seq<Op>): (r: seq<Leaf>)
    ensures |r| == |ops| && forall i | 0 <= i < |ops| :: r[i] == Stub(ops[i])
  {
    if ops == [] then [] else [Stub(ops[0])] + Stubs(ops[1..])
  }

  function EmptyGroups(groups: seq<Group>): seq<Node> {
    if groups == [] then [] else [GroupNode(groups[0].name, [])] + EmptyGroups(groups[1..])
  }

  function FullGroups(ops: seq<Op>, groups: seq<Group>): seq<Node> {
    if groups == [] then []
    else [GroupNode(groups[0].name, Fulls(OfGroup(ops, groups[0].name)))] + FullGroups(ops, groups[1..])
  }

  /** The tree nobody builds: every group with every operation. */
  function FullTree(ops: seq<Op>, groups: seq<Group>): seq<Node> {
    FullGroups(ops, groups) + [SearchNode]
  }

  predicate HasGroup(groups: seq<Group>, name: string) {
    exists g :: g in groups && g.name == name
  }

  /** What is built, said without binary searches and slices. */
  function Lazy(ops: seq<Op>, groups: seq<Group>, group: Option<string>, leaf: Option<string>): seq<Node> {
    if group.Some? && HasGroup(groups, group.value) then
      var op := if leaf.Some? then LinearOp(ops, group.value, leaf.value) else None;
      [GroupNode(group.value, if op.Some? then [Full(op.value)] else Stubs(OfGroup(ops, group.value)))]
    else EmptyGroups(groups) + [SearchNode]
  }

  lemma {:induction false} EmptyGroupsSnoc(groups: seq<Group>, g: Group)
    ensures EmptyGroups(groups + [g]) == EmptyGroups(groups) + [GroupNode(g.name, [])]
  {
    if groups == [] {
      assert [g][1..] == [];
    } else {
      assert (groups + [g])[1..] == groups[1..] + [g];
      EmptyGroupsSnoc(groups[1..], g);
    }
  }

  method RawCommand(ops: seq<Op>, groups: seq<Group>, group: Option<string>, leaf: Option<string>)
    returns (raw: seq<Node>)
    requires Tables(ops, groups)
    ensures raw == Lazy(ops, groups, group, leaf)
  {
    hide OfGroup, LinearOp, Stubs;
    var found: Option<Group> := None;
    if group.Some? {
      found := FindGroup(groups, group.value);
    }
    if found.None? {
      raw := [];
      for i := 0 to |groups|
        invariant raw == EmptyGroups(groups[..i])
      {
        assert groups[..i + 1] == groups[..i] + [groups[i]];
        EmptyGroupsSnoc(groups[..i], groups[i]);
        raw := raw + [GroupNode(groups[i].name, [])];
      }
      assert groups[..|groups|] == groups;
      raw := raw + [SearchNode];
    } else {
      var g := found.value;
      SliceIsTheGroup(ops, groups, g);
      var op: Option<Op> := None;
      if leaf.Some? {
        op := FindOp(ops, g.name, leaf.value);
      }
      var leaves: seq<Leaf> := [];
      if op.Some? {
        leaves := [Full(op.value)];
      } else {
        var slice := OpsIn(ops, g);
        for i := 0 to |slice|
          invariant leaves == Stubs(slice[..i])
        {
          leaves := leaves + [Stub(slice[i])];
        }
        assert slice[..|slice|] == slice;
      }
      raw := [GroupNode(g.name, leaves)];
    }
  }

  // --------------------------------------------------------------------------- dispatch

  datatype Outcome = NoSuchCommand | RunsSearch | Runs(op: Op, leaf: Leaf) | NotInTable

  function Child(raw: seq<Node>, name: string): Option<Node> {
    if raw == [] then None else if NodeName(raw[0]) == name then Some(raw[0]) else Child(raw[1..], name)
  }

  function LeafNamed(leaves: seq<Leaf>, name: string): Option<Leaf> {
    if leaves == [] then None
    else if leaves[0].op.command == name then Some(leaves[0]) else LeafNamed(leaves[1..], name)
  }

  /** Layer 2 given the words of a command line: what the tree parses, then the table lookup. */
  function Dispatch(ops: seq<Op>, raw: seq<Node>, group: string, command: string): Outcome {
    match Child(raw, group)
    case None => NoSuchCommand
    case Some(SearchNode) => RunsSearch
    case Some(GroupNode(_, leaves)) =>
      if group == "search" then RunsSearch
      else
        match LeafNamed(leaves, command)
        case None => NoSuchCommand
        case Some(leaf) =>
          match LinearOp(ops, group, command)
          case None => NotInTable
          case Some(op) => Runs(op, leaf)
  }

  lemma {:induction false} NoChild(groups: seq<Group>, name: string)
    requires NamesDiffer(groups, name)
    ensures Child(EmptyGroups(groups) + [SearchNode], name) == if name == "search" then Some(SearchNode) else None
  {
    var raw := EmptyGroups(groups) + [SearchNode];
    if groups == [] {
      assert raw == [SearchNode] && raw[1..] == [];
    } else {
      assert raw[1..] == EmptyGroups(groups[1..]) + [SearchNode];
      NoChild(groups[1..], name);
    }
  }

  lemma {:induction false} NoFullChild(ops: seq<Op>, groups: seq<Group>, name: string)
    requires NamesDiffer(groups, name)
    ensures Child(FullTree(ops, groups), name) == if name == "search" then Some(SearchNode) else None
    decreases |groups|
  {
    var raw := FullTree(ops, groups);
    if groups == [] {
      assert raw == [SearchNode] && raw[1..] == [];
    } else {
      assert raw[1..] == FullTree(ops, groups[1..]);
      NoFullChild(ops, groups[1..], name);
    }
  }

  lemma {:induction false} FullChild(ops: seq<Op>, groups: seq<Group>, name: string)
    requires HasGroup(groups, name)
    ensures Child(FullTree(ops, groups), name) == Some(GroupNode(name, Fulls(OfGroup(ops, name))))
    decreases |groups|
  {
    hide Fulls, OfGroup;
    var raw := FullTree(ops, groups);
    assert raw[0] == GroupNode(groups[0].name, Fulls(OfGroup(ops, groups[0].name)));
    assert raw[1..] == FullTree(ops, groups[1..]);
    if groups[0].name != name {
      FullChild(ops, groups[1..], name);
    }
  }

  function MapLeaf(full: bool, op: Option<Op>): Option<Leaf> {
    match op case None => None case Some(o) => Some(if full then Full(o) else Stub(o))
  }

  /** A group's leaves answer as the whole table does. */
  lemma {:induction false} LeavesAnswer(ops: seq<Op>, group: string, command: string)
    ensures LeafNamed(Fulls(OfGroup(ops, group)), command) == MapLeaf(true, LinearOp(ops, group, command))
    ensures LeafNamed(Stubs(OfGroup(ops, group)), command) == MapLeaf(false, LinearOp(ops, group, command))
  {
    if ops != [] {
      LeavesAnswer(ops[1..], group, command);
      var own := OfGroup(ops, group);
      if ops[0].group == group {
        assert own[1..] == OfGroup(ops[1..], group);
        assert Fulls(own)[1..] == Fulls(own[1..]) && Stubs(own)[1..] == Stubs(own[1..]);
      } else {
        assert own == OfGroup(ops[1..], group);
      }
    }
  }

  /** What layer 2 does with two words, said without any tree. */
  function Meaning(ops: seq<Op>, groups: seq<Group>, group: string, command: string): Outcome {
    if group == "search" then RunsSearch
    else if !HasGroup(groups, group) then NoSuchCommand
    else
      match LinearOp(ops, group, command)
      case None => NoSuchCommand
      case Some(op) => Runs(op, Full(op))
  }

  lemma FullTreeMeans(ops: seq<Op>, groups: seq<Group>, group: string, command: string)
    ensures Dispatch(ops, FullTree(ops, groups), group, command) == Meaning(ops, groups, group, command)
  {
    hide FullTree, LinearOp;
    if HasGroup(groups, group) {
      FullChild(ops, groups, group);
      LeavesAnswer(ops, group, command);
    } else {
      NoFullChild(ops, groups, group);
    }
  }

  lemma LazyTreeMeans(ops: seq<Op>, groups: seq<Group>, group: string, command: string)
    ensures Dispatch(ops, Lazy(ops, groups, Some(group), Some(command)), group, command)
            == Meaning(ops, groups, group, command)
  {
    hide LinearOp, OfGroup, Stubs;
    var raw := Lazy(ops, groups, Some(group), Some(command));
    if HasGroup(groups, group) {
      LeavesAnswer(ops, group, command);
      LinearOpIs(ops, group, command);
    } else {
      NoChild(groups, group);
    }
  }

  lemma {:induction false} LinearOpIs(ops: seq<Op>, group: string, command: string)
    ensures LinearOp(ops, group, command).Some? ==> Is(LinearOp(ops, group, command).value, group, command)
  {
    if ops != [] {
      LinearOpIs(ops[1..], group, command);
    }
  }

  /** The lazy tree built from what was peeked does with two words what the full tree does. */
  predicate DoesTheSame(ops: seq<Op>, groups: seq<Group>, peeked: Peeked, group: string, command: string) {
    Dispatch(ops, Lazy(ops, groups, peeked.group, peeked.leaf), group, command)
    == Dispatch(ops, FullTree(ops, groups), group, command)
  }

  /**
   Whatever was peeked: the lazy tree does the same exactly when the two words are no command
   at all, or are what was peeked, or ask for a search and no other group was peeked.
   */
  lemma SameExactly(ops: seq<Op>, groups: seq<Group>, peeked: Peeked, group: string, command: string)
    ensures DoesTheSame(ops, groups, peeked, group, command)
            <==> match Meaning(ops, groups, group, command)
                 case NoSuchCommand => true
                 case RunsSearch =>
                   peeked.group == Some(group) || peeked.group.None? || !HasGroup(groups, peeked.group.value)
                 case Runs(_, _) => peeked == Peeked(Some(group), Some(command))
                 case NotInTable => false
    ensures !Meaning(ops, groups, group, command).NotInTable?
  {
    hide FullTree, LinearOp, OfGroup, Stubs;
    FullTreeMeans(ops, groups, group, command);
    LinearOpIs(ops, group, command);
    var raw := Lazy(ops, groups, peeked.group, peeked.leaf);
    if peeked.group.Some? && HasGroup(groups, peeked.group.value) {
      var name := peeked.group.value;
      var op := if peeked.leaf.Some? then LinearOp(ops, name, peeked.leaf.value) else None;
      var leaves := if op.Some? then [Full(op.value)] else Stubs(OfGroup(ops, name));
      assert raw == [GroupNode(name, leaves)];
      DispatchOne(ops, name, leaves, group, command);
      LeavesAnswer(ops, group, command);
      if peeked.leaf.Some? {
        OneLeaf(ops, name, peeked.leaf.value, command);
      }
      hide Dispatch, LeafNamed;
    } else if HasGroup(groups, group) {
      EmptyChild(groups, group);
    } else {
      NoChild(groups, group);
    }
  }

  lemma DispatchOne(ops: seq<Op>, name: string, leaves: seq<Leaf>, group: string, command: string)
    ensures Dispatch(ops, [GroupNode(name, leaves)], group, command)
            == if name != group then NoSuchCommand
               else if group == "search" then RunsSearch
               else if LeafNamed(leaves, command).None? then NoSuchCommand
               else if LinearOp(ops, group, command).None? then NotInTable
               else Runs(LinearOp(ops, group, command).value, LeafNamed(leaves, command).value)
  {
    hide LeafNamed, LinearOp;
    var raw := [GroupNode(name, leaves)];
    assert raw[1..] == [] && Child(raw[1..], group) == None;
    assert Child(raw, group) == if name == group then Some(raw[0]) else None;
  }

  lemma OneLeaf(ops: seq<Op>, group: string, leaf: string, command: string)
    ensures LinearOp(ops, group, leaf).Some? ==>
              LeafNamed([Full(LinearOp(ops, group, leaf).value)], command)
              == if leaf == command then Some(Full(LinearOp(ops, group, leaf).value)) else None
  {
    hide LinearOp;
    LinearOpIs(ops, group, leaf);
    var op := LinearOp(ops, group, leaf);
    assert op.Some? ==> [Full(op.value)][1..] == [];
  }

  lemma {:induction false} EmptyChild(groups: seq<Group>, name: string)
    requires HasGroup(groups, name)
    ensures Child(EmptyGroups(groups) + [SearchNode], name) == Some(GroupNode(name, []))
  {
    var raw := EmptyGroups(groups) + [SearchNode];
    assert raw[1..] == EmptyGroups(groups[1..]) + [SearchNode];
    if groups[0].name != name {
      EmptyChild(groups[1..], name);
    }
  }

  /** What is peeked on a command line; a line that is not seen to be `raw` is parsed as if nothing more was. */
  function PeekedOn(argv: seq<string>): Peeked {
    match PeekedIn(Words(Arguments(argv), false)) case Some(p) => p case None => Peeked(None, None)
  }

  /** The words before `--` name an operation, or a search. */
  predicate Asks(c: Command) {
    var words := WordsOf(c.items);
    |words| >= 2 && words[0] in {"raw", "x"} && (|words| >= 3 || words[1] == "search")
  }

  function Asked(c: Command): (string, string)
    requires Asks(c)
  {
    var words := WordsOf(c.items);
    (words[1], if |words| >= 3 then words[2] else "")
  }

  /** The lazy tree for this command line does what the full one would. */
  predicate Agrees(ops: seq<Op>, groups: seq<Group>, program: string, c: Command)
    requires Asks(c)
  {
    DoesTheSame(ops, groups, PeekedOn([program] + Tokenised(c)), Asked(c).0, Asked(c).1)
  }

  ghost predicate AlwaysAgrees(program: string, c: Command)
    requires Asks(c)
  {
    forall ops, groups :: Agrees(ops, groups, program, c)
  }

  /** What `PeekedOn` makes of the words seen; there are no fewer than are there. */
  lemma PeekedIs(program: string, c: Command)
    requires Fits(c) && Asks(c)
    ensures |Seen(c.items)| >= |WordsOf(c.items)| && |Seen(c.items) + Behind(c)| >= |Seen(c.items)|
    ensures var seen, p := Seen(c.items) + Behind(c), PeekedOn([program] + Tokenised(c));
            p == if seen[0] !in ["raw", "x"] then Peeked(None, None)
                 else Peeked(Some(seen[1]), if |seen| > 2 then Some(seen[2]) else None)
  {
    hide Words, Tokenised, Behind, Seen;
    SeenIsSeen(c);
    SeenTooMany(c.items);
    var argv := [program] + Tokenised(c);
    assert argv[1..] == Tokenised(c);
    assert |Seen(c.items) + Behind(c)| == |Seen(c.items)| + |Behind(c)|;
  }

  /** A search agrees unless another group is peeked, an operation if it is what is peeked. */
  predicate PeekFits(seen: seq<string>, words: seq<string>)
    requires |seen| >= |words| >= 2
  {
    if words[1] == "search" then seen[0] in ["raw", "x"] ==> seen[1] == "search"
    else |words| >= 3 && seen[0] in ["raw", "x"] && seen[1] == words[1] && seen[2] == words[2]
  }

  lemma FullyPeeked(ops: seq<Op>, groups: seq<Group>, peeked: Peeked, g: string, c: string)
    requires if g == "search" then peeked.group in {None, Some(g)} else peeked == Peeked(Some(g), Some(c))
    ensures DoesTheSame(ops, groups, peeked, g, c)
  {
    hide DoesTheSame;
    SameExactly(ops, groups, peeked, g, c);
  }

  lemma Misled(peeked: Peeked, g: string, c: string) returns (ops: seq<Op>, groups: seq<Group>)
    requires if g == "search" then peeked.group !in {None, Some(g)} else peeked != Peeked(Some(g), Some(c))
    ensures !DoesTheSame(ops, groups, peeked, g, c)
  {
    hide DoesTheSame;
    if g == "search" {
      ops, groups := [], [Group(peeked.group.value, 0, 0)];
      assert groups[0] in groups;
    } else {
      ops, groups := [Op(g, c, "")], [Group(g, 0, 1)];
      OneOperation(g, c);
    }
    SameExactly(ops, groups, peeked, g, c);
  }

  /**
   On every command line that asks for an operation or a search, laziness keeps the meaning
   for all tables exactly when the words seen happen to begin as the peek must find them: an
   operation that exists fails for no other reason than where an option stood.
   */
  lemma LazinessExactly(program: string, c: Command)
    requires Fits(c) && Asks(c)
    ensures |Seen(c.items)| >= |WordsOf(c.items)|
    ensures AlwaysAgrees(program, c) <==> PeekFits(Seen(c.items), WordsOf(c.items))
  {
    hide DoesTheSame, PeekedOn, Tokenised, WordsOf, Seen;
    var peeked := PeekedOn([program] + Tokenised(c));
    var (g, cmd) := Asked(c);
    PeekedIs(program, c);
    var seen := Seen(c.items);
    assert forall i | 0 <= i < |seen| :: (seen + Behind(c))[i] == seen[i];
    if PeekFits(seen, WordsOf(c.items)) {
      forall ops, groups ensures Agrees(ops, groups, program, c) {
        FullyPeeked(ops, groups, peeked, g, cmd);
      }
    } else {
      var ops, groups := Misled(peeked, g, cmd);
      assert !Agrees(ops, groups, program, c);
    }
  }

  lemma SameInFront(items: seq<Item>, n: nat)
    requires UnlistedCount(UpTo(items, n)) == 0
    ensures |Seen(items)| >= |WordsOf(items)|
    ensures forall i | 0 <= i < n && i < |WordsOf(items)| :: Seen(items)[i] == WordsOf(items)[i]
  {
    hide Seen, WordsOf, UnlistedCount, UpTo;
    HarmlessBehind(items, n);
    SeenTooMany(items);
    var seen, words := Seen(items), WordsOf(items);
    assert forall i | 0 <= i < n && i < |words| :: Take(seen, n)[i] == seen[i] && Take(words, n)[i] == words[i];
  }

  /**
   Laziness keeps the meaning of every command line on which no option outside the list has a
   separate value before the third word, however all other options are spread over it: the
   tree built from the peek does what the full tree would, which is what the tables say.
   */
  lemma LazinessKeepsMeaning(ops: seq<Op>, groups: seq<Group>, program: string, c: Command)
    requires Fits(c) && Asks(c) && UnlistedCount(UpTo(c.items, 3)) == 0
    ensures var (g, cmd) := Asked(c);
            && PeekedOn([program] + Tokenised(c)).group == Some(g)
            && (|WordsOf(c.items)| >= 3 ==> PeekedOn([program] + Tokenised(c)).leaf == Some(cmd))
            && Agrees(ops, groups, program, c)
            && Dispatch(ops, FullTree(ops, groups), g, cmd) == Meaning(ops, groups, g, cmd)
  {
    hide DoesTheSame, Dispatch, FullTree, Meaning, Words, PeekedOn, Tokenised, Seen, WordsOf;
    var (g, cmd) := Asked(c);
    var seen := Seen(c.items);
    PeekedIs(program, c);
    SameInFront(c.items, 3);
    assert forall i | 0 <= i < |seen| :: (seen + Behind(c))[i] == seen[i];
    FullyPeeked(ops, groups, PeekedOn([program] + Tokenised(c)), g, cmd);
    FullTreeMeans(ops, groups, g, cmd);
  }

  lemma {:induction false} EarlyValueIsSeen(items: seq<Item>, n: nat) returns (item: Item)
    requires UnlistedCount(UpTo(items, n)) > 0
    ensures item in UpTo(items, n) && item.Unlisted? && item.value in Take(Seen(items), n)
  {
    var first, rest := items[0], items[1..];
    var m := if first.Word? then n - 1 else n;
    var early := UpTo(rest, m);
    assert UpTo(items, n) == [first] + early && UpTo(items, n)[1..] == early;
    assert UnlistedCount(UpTo(items, n)) == (if first.Unlisted? then 1 else 0) + UnlistedCount(early);
    ItemInFront(first, rest);
    assert [first] + rest == items && [] + Seen(rest) == Seen(rest);
    hide UpTo, UnlistedCount, Seen, Line, WordsOf, Take;
    if first.Unlisted? {
      item := first;
      TakeCons(first.value, Seen(rest), n);
      assert item in [first] + early;
    } else {
      item := EarlyValueIsSeen(rest, m);
      if first.Word? {
        TakeCons(first.text, Seen(rest), n);
      }
    }
  }

  lemma EarlyValueMisleads(items: seq<Item>, n: nat) returns (i: nat, item: Item)
    requires UnlistedCount(UpTo(items, n)) > 0
    ensures item in UpTo(items, n) && item.Unlisted?
    ensures i < n && i < |Seen(items)| && Seen(items)[i] == item.value
  {
    hide Seen, UnlistedCount, UpTo;
    item := EarlyValueIsSeen(items, n);
    i :| 0 <= i < |Take(Seen(items), n)| && Take(Seen(items), n)[i] == item.value;
  }

  /** No separate value before the n-th word is one of these. */
  predicate ValuesAvoid(items: seq<Item>, n: nat, words: seq<string>) {
    forall item | item in UpTo(items, n) && item.Unlisted? :: item.value !in words
  }

  /**
   So for an operation the guard is exact, values that are themselves one of the three words
   aside: laziness keeps the meaning for every pair of tables if and only if no option outside
   the list has a separate value before the third word.
   */
  lemma LazinessGuardIsExact(program: string, c: Command)
    requires Fits(c) && Asks(c) && Asked(c).0 != "search"
    requires ValuesAvoid(c.items, 3, ["raw", "x", Asked(c).0, Asked(c).1])
    ensures AlwaysAgrees(program, c) <==> UnlistedCount(UpTo(c.items, 3)) == 0
  {
    hide AlwaysAgrees, UpTo, Seen, WordsOf, UnlistedCount;
    LazinessExactly(program, c);
    if UnlistedCount(UpTo(c.items, 3)) == 0 {
      SameInFront(c.items, 3);
    } else {
      var i, item := EarlyValueMisleads(c.items, 3);
    }
  }

  /** A search is misled only by a value between its two words, or by none if one stands before both. */
  lemma SearchGuardIsExact(program: string, c: Command)
    requires Fits(c) && Asks(c) && Asked(c).0 == "search"
    requires ValuesAvoid(c.items, 2, ["raw", "x", "search"])
    ensures AlwaysAgrees(program, c)
            <==> (UnlistedCount(UpTo(c.items, 2)) == 0 || UnlistedCount(UpTo(c.items, 1)) > 0)
  {
    hide AlwaysAgrees, UpTo, Seen, WordsOf, UnlistedCount;
    LazinessExactly(program, c);
    if UnlistedCount(UpTo(c.items, 2)) == 0 {
      SameInFront(c.items, 2);
    } else if UnlistedCount(UpTo(c.items, 1)) > 0 {
      var i, item := EarlyValueMisleads(c.items, 1);
      UpToGrows(c.items, 1, 2);
    } else {
      var i, item := EarlyValueMisleads(c.items, 2);
      SameInFront(c.items, 1);
    }
  }

  lemma {:induction false} UpToGrows(items: seq<Item>, m: nat, n: nat)
    requires m <= n
    ensures forall item | item in UpTo(items, m) :: item in UpTo(items, n)
  {
    if items != [] && m > 0 {
      var less := if items[0].Word? then 1 else 0;
      UpToGrows(items[1..], m - less, n - less);
    }
  }

  lemma OneOperation(g: string, c: string)
    requires g != "search"
    ensures Meaning([Op(g, c, "")], [Group(g, 0, 1)], g, c) == Runs(Op(g, c, ""), Full(Op(g, c, "")))
  {
    assert Group(g, 0, 1) in [Group(g, 0, 1)];
  }

  const LIMITED := [Word("raw"), Unlisted("--limit", "5"), Word("repo"), Word("get")]

  /** `gea raw --limit 5 repo get` looks for a group `5`, and fails where `gea raw repo get --limit 5` runs. */
  lemma LimitHidesTheCommand(ops: seq<Op>, groups: seq<Group>)
    requires HasGroup(groups, "repo") && LinearOp(ops, "repo", "get").Some?
    ensures AllWellFormed(LIMITED) && Line(LIMITED) == ["raw", "--limit", "5", "repo", "get"]
    ensures WordsOf(LIMITED) == ["raw", "repo", "get"]
    ensures PeekedOn(["gea"] + Line(LIMITED)) == Peeked(Some("5"), Some("repo"))
    ensures !DoesTheSame(ops, groups, PeekedOn(["gea"] + Line(LIMITED)), "repo", "get")
  {
    LimitedIsWellFormed();
    FourItems("raw", "--limit", "5", "repo", "get");
    hide PeekedOn, DoesTheSame, LinearOp, Line, WordsOf, Seen;
    PeekedIs("gea", Command(LIMITED, None));
    assert Seen(LIMITED) + [] == Seen(LIMITED);
    SameExactly(ops, groups, Peeked(Some("5"), Some("repo")), "repo", "get");
  }

  lemma FourItems(a: string, flag: string, value: string, b: string, c: string)
    ensures var items := [Word(a), Unlisted(flag, value), Word(b), Word(c)];
            && Line(items) == [a, flag, value, b, c]
            && WordsOf(items) == [a, b, c] && Seen(items) == [a, value, b, c]
  {
    var items := [Word(a), Unlisted(flag, value), Word(b), Word(c)];
    ItemInFront(Word(c), []);
    ItemInFront(Word(b), [Word(c)]);
    ItemInFront(Unlisted(flag, value), [Word(b), Word(c)]);
    ItemInFront(Word(a), [Unlisted(flag, value), Word(b), Word(c)]);
    hide Line, WordsOf, Seen;
    assert [Word(c)] + [] == [Word(c)] && [Word(b)] + [Word(c)] == [Word(b), Word(c)];
    assert [Unlisted(flag, value)] + [Word(b), Word(c)] == [Unlisted(flag, value), Word(b), Word(c)];
    assert [Word(a)] + [Unlisted(flag, value), Word(b), Word(c)] == items;
  }

  lemma ItemInFront(item: Item, rest: seq<Item>)
    ensures Line([item] + rest) == Written(item) + Line(rest)
    ensures WordsOf([item] + rest) == (if item.Word? then [item.text] else []) + WordsOf(rest)
    ensures Seen([item] + rest) == SeenOf(item) + Seen(rest)
    ensures Line([]) == [] && WordsOf([]) == [] && Seen([]) == []
  {
    assert ([item] + rest)[1..] == rest;
  }

  lemma LimitedIsWellFormed()
    ensures AllWellFormed(LIMITED)
  {
    assert IsWord("raw") && IsWord("repo") && IsWord("get") && IsWord("5") && IsFlag("--limit");
    assert forall f | f in VALUE_FLAGS :: f != "--limit";
  }

  /** Help on a group lists exactly the commands the full tree has there. */
  lemma ListingIsComplete(ops: seq<Op>, groups: seq<Group>, group: string, command: string)
    requires HasGroup(groups, group)
    ensures Child(Lazy(ops, groups, Some(group), None), group).Some?
    ensures var stubs := Child(Lazy(ops, groups, Some(group), None), group).value;
            && stubs.GroupNode?
            && LeafNamed(stubs.leaves, command) == MapLeaf(false, LinearOp(ops, group, command))
  {
    hide LinearOp, OfGroup, Stubs;
    LeavesAnswer(ops, group, command);
  }

  // ------------------------------------------------------------------ what is peeked, by text

  /** The value of each of these options, whatever it is, is skipped with it. */
  lemma ListedOptionsAreSkipped(flag: string, value: string, rest: seq<string>)
    requires flag in {"--host", "--hostname", "--login", "--repo", "-R", "--token", "--otp", "--sudo", "--config", "--jq",
                      "-q", "--template", "-t", "--output"}
    ensures Words([flag, value] + rest, false) == Words(rest, false)
  {
    hide Words;
    ListedTakesNext(flag);
    ValueFirst(flag, value, rest);
  }

  lemma ListedTakesNext(flag: string)
    requires flag in {"--host", "--hostname", "--login", "--repo", "-R", "--token", "--otp", "--sudo", "--config", "--jq",
                      "-q", "--template", "-t", "--output"}
    ensures TakesNext(flag)
  {
  }

  /** Any other option is skipped alone, and so is one with its value behind `=`. */
  lemma OtherOptionsAreSkippedAlone(token: string, rest: seq<string>)
    requires |token| > 1 && token[0] == '-' && token != "--"
    requires '=' in token
             || token !in {"--host", "--hostname", "--login", "--repo", "-R", "--token", "--otp", "--sudo", "--config",
                           "--jq", "-q", "--template", "-t", "--output"}
    ensures Words([token] + rest, false) == Words(rest, false)
  {
    hide Words;
    assert IsFlag(token) && !TakesNext(token);
    WordFirst(token, rest);
  }

  /** A token that is no option is a word; so are `-`, the empty token and everything behind `--`. */
  lemma WordsMean(token: string, rest: seq<string>)
    ensures token == "" || token[0] != '-' || token == "-" ==> Words([token] + rest, false) == [token] + Words(rest, false)
    ensures Words(["--"] + rest, false) == rest
    ensures Words([], false) == []
  {
    WordsBehind(rest);
    WordFirst(token, rest);
  }

  /** `gea --host h raw repo get` is about group `repo`, operation `get`, and so is `gea x --repo=o/r repo get`. */
  lemma HostIsSkipped(host: string)
    ensures PeekedOn(["gea", "--host", host, "raw", "repo", "get"]) == Peeked(Some("repo"), Some("get"))
    ensures PeekedOn(["gea", "x", "--repo=o/r", "repo", "get"]) == Peeked(Some("repo"), Some("get"))
    ensures PeekedIn(Words(["pr", "list"], false)) == None
  {
    hide Words;
    TwoWordsLeft("repo", "get");
    TwoWordsLeft("pr", "list");
    WordsMean("raw", ["repo", "get"]);
    WordsMean("x", ["--repo=o/r", "repo", "get"]);
    OtherOptionsAreSkippedAlone("--repo=o/r", ["repo", "get"]);
    ListedOptionsAreSkipped("--host", host, ["raw", "repo", "get"]);
    assert ["--host", host] + ["raw", "repo", "get"] == ["gea", "--host", host, "raw", "repo", "get"][1..];
    assert ["raw"] + ["repo", "get"] == ["raw", "repo", "get"];
    assert ["x"] + ["--repo=o/r", "repo", "get"] == ["gea", "x", "--repo=o/r", "repo", "get"][1..];
    assert ["--repo=o/r"] + ["repo", "get"] == ["--repo=o/r", "repo", "get"];
  }

  lemma TwoWordsLeft(a: string, b: string)
    requires a != "" && a[0] != '-' && b != "" && b[0] != '-'
    ensures Words([a, b], false) == [a, b]
  {
    hide Words;
    WordsMean(b, []);
    WordsMean(a, [b]);
    assert [a] + [b] == [a, b] && [b] + [] == [b];
  }
}
