/**
 The stored alias table and the three commands that edit it: `set`, `delete` and `import`.

 `listed` is the list of command names the checks read, which is made from the tree completions
 are generated from. It is not the set of words `gea` answers to: `CommandWords` has both.
 What is assumed of it (`BuiltinsFit`) is what the source's own test of the built-ins checks.
 */
module AliasStore {
  import opened Wrappers
  import opened Text
  import opened Splitter
  import opened Substitution
  import opened Expansion
  import opened AliasGraph
  import opened ExpansionLaws

  type Aliases = map<string, string>

  const BUILTIN: seq<(string, string)> :=
    [("pull", "pr"), ("labels", "label"), ("ms", "milestone"), ("login", "auth login"), ("whoami", "auth status")]

  datatype Refusal =
    | UnusableName
    | RealCommand
    | Unreadable(cause: SplitError)
    | EmptyExpansionText
    | StartsWithFlag
    | UnknownHead
    | MakesLoop(chain: seq<string>)
    | NoSuchAlias
    | NotSaved

  // ---------------------------------------------------------------------- text helpers

  /** How many maximal runs of non-whitespace there are; `inside` says one is under way. */
  function WordCount(s: string, inside: bool): nat {
    if s == "" then 0
    else if IsSpace(s[0]) then WordCount(s[1..], false)
    else (if inside then 0 else 1) + WordCount(s[1..], true)
  }

  function StartsWithDash(s: string): bool {
    s != "" && s[0] == '-'
  }

  // ------------------------------------------------------------------------ built-ins

  /** The built-ins from index `from` on, as a map. */
  function BuiltinsFrom(from: nat): Aliases
    requires from <= |BUILTIN|
    decreases |BUILTIN| - from
  {
    if from == |BUILTIN| then map[] else BuiltinsFrom(from + 1)[BUILTIN[from].0 := BUILTIN[from].1]
  }

  /** The user's aliases with the built-ins underneath: a name the user defined is theirs. */
  function WithBuiltins(user: Aliases): Aliases {
    BuiltinsFrom(0) + user
  }

  function HeadOf(expansion: string): Option<string> {
    HeadWord(SplitWords(expansion))
  }

  /** The source's loop: `entry(..).or_insert(..)` for each built-in. */
  method AddBuiltins(user: Aliases) returns (all: Aliases)
    ensures all == WithBuiltins(user)
  {
    hide BuiltinsFrom;
    all := user;
    for i := 0 to |BUILTIN|
      invariant BuiltinsFrom(0) + user == BuiltinsFrom(i) + all
    {
      BuiltinsStep(i);
      var (name, expansion) := BUILTIN[i];
      if name !in all {
        UnderneathLast(BuiltinsFrom(i + 1), all, name, expansion);
        all := all[name := expansion];
      }
    }
    BuiltinsStep(|BUILTIN|);
  }

  lemma BuiltinsStep(i: nat)
    requires i <= |BUILTIN|
    ensures BuiltinsFrom(i) == if i == |BUILTIN| then map[] else BuiltinsFrom(i + 1)[BUILTIN[i].0 := BUILTIN[i].1]
  {
  }

  /** Putting an entry underneath a map that lacks it is putting it on top. */
  lemma UnderneathLast(below: Aliases, above: Aliases, name: string, expansion: string)
    requires name !in above
    ensures below[name := expansion] + above == below + above[name := expansion]
  {
  }

  /** No built-in is named like a command, and each one's first word is a command. */
  predicate BuiltinsFit(listed: set<string>) {
    && (forall i | 0 <= i < |BUILTIN| :: BUILTIN[i].0 !in listed)
    && {"pr", "label", "milestone", "auth"} <= listed
  }

  // ----------------------------------------------------------------------- find_cycle

  /** The walk `find_cycle` makes, from the last word of `chain`, with `fuel` lookups left. */
  function CycleFrom(g: map<string, string>, chain: seq<string>, fuel: nat): Option<seq<string>>
    requires chain != []
    decreases fuel
  {
    var head := chain[|chain| - 1];
    if fuel == 0 then Some(chain)
    else if head !in g then None
    else if g[head] in chain then Some(chain + [g[head]])
    else CycleFrom(g, chain + [g[head]], fuel - 1)
  }

  function Cycle(g: map<string, string>, start: string): Option<seq<string>> {
    CycleFrom(g, [start], MAX_DEPTH + 1)
  }

  method FindCycle(start: string, aliases: Aliases) returns (r: Option<seq<string>>)
    ensures r == Cycle(Graph(Read(aliases)), start)
  {
    hide SplitWords;
    ghost var g := Graph(Read(aliases));
    var chain, head := [start], start;
    for i := 0 to MAX_DEPTH + 1
      invariant chain != [] && head == chain[|chain| - 1]
      invariant Cycle(g, start) == CycleFrom(g, chain, MAX_DEPTH + 1 - i)
    {
      if head !in aliases {
        return None;
      }
      var words := Split(aliases[head]);
      if words.Err? || words.value == [] {
        return None;
      }
      var next := words.value[0];
      assert head in g && g[head] == next;
      chain := chain + [next];
      if next in chain[..|chain| - 1] {
        return Some(chain);
      }
      head := next;
    }
    return Some(chain);
  }

  lemma {:induction false} NoCycleExits(g: map<string, string>, chain: seq<string>, fuel: nat) returns (n: nat)
    requires chain != [] && CycleFrom(g, chain, fuel).None?
    ensures n < fuel && Exits(g, chain[|chain| - 1], n)
    decreases fuel
  {
    var head := chain[|chain| - 1];
    if head !in g {
      n := 0;
    } else {
      n := NoCycleExits(g, chain + [g[head]], fuel - 1);
      n := n + 1;
    }
  }

  /** Every exit from a word of the chain is at least `n` edges away. */
  ghost predicate FarFromExit(g: map<string, string>, chain: seq<string>, n: nat) {
    forall c, m: nat | c in chain && Exits(g, c, m) :: m >= n
  }

  lemma {:induction false} ExitsNoCycle(g: map<string, string>, chain: seq<string>, fuel: nat, n: nat)
    requires chain != [] && n < fuel && Exits(g, chain[|chain| - 1], n)
    requires FarFromExit(g, chain, n)
    ensures CycleFrom(g, chain, fuel).None?
    decreases fuel
  {
    if n > 0 {
      var next := g[chain[|chain| - 1]];
      assert next !in chain;
      forall c, m: nat | c in chain + [next] && Exits(g, c, m) ensures m >= n - 1 {
        if c == next {
          ExitsOnce(g, next, m, n - 1);
        }
      }
      ExitsNoCycle(g, chain + [next], fuel - 1, n - 1);
    }
  }

  /** Following edges from `h` ends after at most `bound` of them. */
  ghost predicate EndsWithin(g: map<string, string>, h: string, bound: nat) {
    exists n: nat :: n <= bound && Exits(g, h, n)
  }

  /**
   No cycle is found exactly when the walk leaves the table after at most ten aliases: one
   more than expansion will follow.
   */
  lemma CycleFoundExactly(g: map<string, string>, start: string)
    ensures Cycle(g, start).None? <==> EndsWithin(g, start, MAX_DEPTH)
  {
    if Cycle(g, start).None? {
      var n := NoCycleExits(g, [start], MAX_DEPTH + 1);
      assert Exits(g, start, n);
    }
    if EndsWithin(g, start, MAX_DEPTH) {
      var n: nat :| n <= MAX_DEPTH && Exits(g, start, n);
      forall c, m: nat | c in [start] && Exits(g, c, m) ensures m >= n {
        ExitsOnce(g, start, m, n);
      }
      assert FarFromExit(g, [start], n);
      ExitsNoCycle(g, [start], MAX_DEPTH + 1, n);
    }
  }

  // --------------------------------------------------------------------- the two checks

  function CheckName(name: string, listed: set<string>): Option<Refusal> {
    if name == "" || StartsWithDash(name) || WordCount(name, false) != 1 then Some(UnusableName)
    else if name in listed then Some(RealCommand)
    else None
  }

  function CheckExpansion(name: string, expansion: string, existing: Aliases, listed: set<string>): Option<Refusal> {
    match SplitWords(expansion)
    case Err(e) => Some(Unreadable(e))
    case Ok(words) =>
      if words == [] then Some(EmptyExpansionText)
      else if StartsWithDash(words[0]) then Some(StartsWithFlag)
      else if words[0] !in listed && words[0] !in existing && words[0] !in BuiltinsFrom(0) && words[0] != name then
        Some(UnknownHead)
      else
        match Cycle(Graph(Read(WithBuiltins(existing)[name := expansion])), name)
        case Some(chain) => Some(MakesLoop(chain))
        case None => None
  }

  method CheckedExpansion(name: string, expansion: string, existing: Aliases, listed: set<string>)
    returns (r: Option<Refusal>)
    ensures r == CheckExpansion(name, expansion, existing, listed)
  {
    var words := Split(expansion);
    if words.Err? {
      return Some(Unreadable(words.error));
    }
    if words.value == [] {
      return Some(EmptyExpansionText);
    }
    var head := words.value[0];
    if StartsWithDash(head) {
      return Some(StartsWithFlag);
    }
    if head !in listed && head !in existing && head !in BuiltinsFrom(0) && head != name {
      return Some(UnknownHead);
    }
    var table := AddBuiltins(existing);
    var chain := FindCycle(name, table[name := expansion]);
    return if chain.Some? then Some(MakesLoop(chain.value)) else None;
  }

  // -------------------------------------------------------------------------- the edits

  datatype Edit =
    | Set(name: string, expansion: string)
    | Delete(name: string)
    | Import(entries: seq<(string, string)>, clobber: bool)

  /** Whether one name and expansion may be added to the table. */
  function Check(name: string, expansion: string, existing: Aliases, listed: set<string>): Option<Refusal> {
    var byName := CheckName(name, listed);
    if byName.Some? then byName else CheckExpansion(name, expansion, existing, listed)
  }

  /** Whether an imported entry is taken. */
  predicate Taken(entry: (string, string), clobber: bool, existing: Aliases, listed: set<string>) {
    (entry.0 !in existing || clobber) && Check(entry.0, entry.1, existing, listed).None?
  }

  function Imported(entries: seq<(string, string)>, clobber: bool, existing: Aliases, listed: set<string>): Aliases {
    if entries == [] then existing
    else
      var first := entries[0];
      Imported(entries[1..], clobber,
               if Taken(first, clobber, existing, listed) then existing[first.0 := first.1] else existing, listed)
  }

  /** The names of the entries that are not taken. */
  function Skipped(entries: seq<(string, string)>, clobber: bool, existing: Aliases, listed: set<string>): seq<string> {
    if entries == [] then []
    else
      var first := entries[0];
      if Taken(first, clobber, existing, listed)
      then Skipped(entries[1..], clobber, existing[first.0 := first.1], listed)
      else [first.0] + Skipped(entries[1..], clobber, existing, listed)
  }

  /** The table after an edit that was checked and saved. */
  function Apply(edit: Edit, existing: Aliases, listed: set<string>): Aliases {
    match edit
    case Set(name, expansion) =>
      if Check(Trim(name), Trim(expansion), existing, listed).None?
      then existing[Trim(name) := Trim(expansion)] else existing
    case Delete(name) => existing - {Trim(name)}
    case Import(entries, clobber) => Imported(entries, clobber, existing, listed)
  }

  /** `config.toml`'s alias table. `saves` says whether the write at the end goes through. */
  class Config {
    var aliases: Aliases
    const listed: set<string>

    constructor (listed: set<string>)
      ensures this.listed == listed && aliases == map[]
    {
      this.listed := listed;
      aliases := map[];
    }

    method SetAlias(name: string, expansion: string, saves: bool) returns (refused: Option<Refusal>)
      modifies this`aliases
      ensures aliases == if saves then Apply(Set(name, expansion), old(aliases), listed) else old(aliases)
      ensures var bad := Check(Trim(name), Trim(expansion), old(aliases), listed);
              refused == if bad.Some? then bad else if saves then None else Some(NotSaved)
    {
      refused := CheckName(Trim(name), listed);
      if refused.Some? {
        return;
      }
      refused := CheckedExpansion(Trim(name), Trim(expansion), aliases, listed);
      if refused.Some? {
        return;
      }
      if !saves {
        return Some(NotSaved);
      }
      aliases := aliases[Trim(name) := Trim(expansion)];
    }

    method DeleteAlias(name: string, saves: bool) returns (refused: Option<Refusal>)
      modifies this`aliases
      ensures aliases == if saves then Apply(Delete(name), old(aliases), listed) else old(aliases)
      ensures refused == if Trim(name) !in old(aliases) then Some(NoSuchAlias) else if saves then None else Some(NotSaved)
    {
      if Trim(name) !in aliases {
        assert aliases - {Trim(name)} == aliases;
        return Some(NoSuchAlias);
      }
      if !saves {
        return Some(NotSaved);
      }
      aliases := aliases - {Trim(name)};
      return None;
    }

    method ImportAliases(entries: seq<(string, string)>, clobber: bool, saves: bool)
      returns (refused: Option<Refusal>, added: nat, skipped: seq<string>)
      modifies this`aliases
      ensures aliases == if saves then Apply(Import(entries, clobber), old(aliases), listed) else old(aliases)
      ensures added + |skipped| == |entries|
      ensures skipped == Skipped(entries, clobber, old(aliases), listed)
      ensures refused == if saves || added == 0 then None else Some(NotSaved)
    {
      hide Imported, Skipped, CheckName, CheckExpansion;
      var work := aliases;
      added, skipped := 0, [];
      var i := 0;
      ghost var all := Skipped(entries, clobber, aliases, listed);
      assert entries[0..] == entries && [] + all == all;
      while i < |entries|
        invariant 0 <= i <= |entries| && added + |skipped| == i
        invariant aliases == old(aliases)
        invariant Imported(entries, clobber, aliases, listed) == Imported(entries[i..], clobber, work, listed)
        invariant Skipped(entries, clobber, aliases, listed) == skipped + Skipped(entries[i..], clobber, work, listed)
        invariant added == 0 ==> work == aliases
      {
        var (name, expansion) := entries[i];
        ImportStep(entries, i, clobber, work, listed);
        ghost var later := Skipped(entries[i + 1..], clobber, work, listed);
        assert skipped + ([name] + later) == skipped + [name] + later;
        i := i + 1;
        if name in work && !clobber {
          skipped := skipped + [name];
          continue;
        }
        var bad := CheckName(name, listed);
        if bad.None? {
          bad := CheckedExpansion(name, expansion, work, listed);
        }
        if bad.Some? {
          skipped := skipped + [name];
          continue;
        }
        work := work[name := expansion];
        added := added + 1;
      }
      ImportEnds(entries[i..], clobber, work, listed);
      assert skipped + [] == skipped;
      if added > 0 {
        if !saves {
          return Some(NotSaved), added, skipped;
        }
        aliases := work;
      }
      return None, added, skipped;
    }
  }

  lemma ImportStep(entries: seq<(string, string)>, i: nat, clobber: bool, work: Aliases, listed: set<string>)
    requires i < |entries|
    ensures var (first, here, later) := (entries[i], entries[i..], entries[i + 1..]);
            var taken := Taken(first, clobber, work, listed);
            var next := if taken then work[first.0 := first.1] else work;
            && Imported(here, clobber, work, listed) == Imported(later, clobber, next, listed)
            && Skipped(here, clobber, work, listed)
               == (if taken then [] else [first.0]) + Skipped(later, clobber, next, listed)
  {
    hide Check;
    assert entries[i..][0] == entries[i] && entries[i..][1..] == entries[i + 1..];
  }

  lemma ImportEnds(entries: seq<(string, string)>, clobber: bool, work: Aliases, listed: set<string>)
    requires entries == []
    ensures Imported(entries, clobber, work, listed) == work && Skipped(entries, clobber, work, listed) == []
  {
  }

  // --------------------------------------------------------- what every history keeps

  /** The graph expansion walks: the user's aliases with the built-ins underneath. */
  function FullGraph(aliases: Aliases): map<string, string> {
    Graph(Read(WithBuiltins(aliases)))
  }

  /** No alias is named like a listed command, every expansion has a first word, and nothing goes in circles. */
  ghost predicate Safe(aliases: Aliases, listed: set<string>) {
    && (forall k | k in aliases :: k !in listed)
    && (forall k | k in aliases :: HeadOf(aliases[k]).Some?)
    && Acyclic(FullGraph(aliases))
  }

  predicate BareWord(s: string) {
    s != "" && forall c | c in s :: PieceOk(Bare(c))
  }

  /** A word of ordinary characters splits to itself. */
  lemma BareWordSplits(s: string)
    requires BareWord(s)
    ensures SplitWords(s) == Ok([s])
  {
    var pieces := seq(|s|, i requires 0 <= i < |s| => Bare(s[i]));
    forall p | p in pieces ensures PieceOk(p) {
      assert p.c in s;
    }
    OneWordReadsBack(pieces);
    PiecesOfBare(s, pieces);
  }

  lemma {:induction false} PiecesOfBare(s: string, pieces: seq<Piece>)
    requires |pieces| == |s| && forall i | 0 <= i < |s| :: pieces[i] == Bare(s[i])
    ensures WordValue(pieces) == s && TokensText(AsParts(pieces)) == s
  {
    if s != "" {
      assert AsParts(pieces)[1..] == AsParts(pieces[1..]);
      PiecesOfBare(s[1..], pieces[1..]);
      assert s == [s[0]] + s[1..];
    }
  }

  lemma LowerCaseWord(s: string)
    requires s != "" && forall i | 0 <= i < |s| :: 'a' <= s[i] <= 'z'
    ensures HeadOf(s) == Some(s) && SplitWords(s) == Ok([s])
  {
    BareWordSplits(s);
  }

  lemma TwoWords(a: string, b: string)
    requires SplitWords(a) == Ok([a]) && SplitWords(b) == Ok([b])
    ensures HeadOf(a + [' '] + b) == Some(a)
  {
    hide SplitWords;
    SplitJoins(a, ' ', b);
  }

  lemma BuiltinHeads()
    ensures HeadOf("pr") == Some("pr") && HeadOf("label") == Some("label") && HeadOf("milestone") == Some("milestone")
    ensures HeadOf("auth login") == Some("auth") && HeadOf("auth status") == Some("auth")
  {
    hide SplitWords, HeadOf;
    LowerCaseWord("pr");
    LowerCaseWord("label");
    LowerCaseWord("milestone");
    LowerCaseWord("auth");
    LowerCaseWord("login");
    LowerCaseWord("status");
    TwoWords("auth", "login");
    TwoWords("auth", "status");
    assert "auth" + [' '] + "login" == "auth login" && "auth" + [' '] + "status" == "auth status";
  }

  /** A built-in points at a command, which is never an alias. */
  lemma BuiltinsPointAtCommands(name: string, listed: set<string>)
    requires BuiltinsFit(listed) && name in BuiltinsFrom(0)
    ensures HeadOf(BuiltinsFrom(0)[name]).Some? && HeadOf(BuiltinsFrom(0)[name]).value in listed
    ensures name !in listed
  {
    hide HeadOf;
    BuiltinHeads();
    var b := BuiltinsFrom(0);
    assert b == map["pull" := "pr", "labels" := "label", "ms" := "milestone",
                    "login" := "auth login", "whoami" := "auth status"];
    assert BUILTIN[0].0 == "pull" && BUILTIN[1].0 == "labels" && BUILTIN[2].0 == "ms"
        && BUILTIN[3].0 == "login" && BUILTIN[4].0 == "whoami";
  }

  // ---- edges change only where the table does

  lemma SetChangesOneEdge(aliases: Aliases, name: string, expansion: string)
    requires HeadOf(expansion).Some?
    ensures WithBuiltins(aliases[name := expansion]) == WithBuiltins(aliases)[name := expansion]
    ensures FullGraph(aliases[name := expansion]) == FullGraph(aliases)[name := HeadOf(expansion).value]
  {
    hide SplitWords, HeadWord, BuiltinsFrom;
    var all := WithBuiltins(aliases);
    assert WithBuiltins(aliases[name := expansion]) == all[name := expansion];
    GraphOfChange(all, name, expansion);
  }

  lemma GraphOfChange(all: Aliases, name: string, expansion: string)
    requires HeadOf(expansion).Some?
    ensures Graph(Read(all[name := expansion])) == Graph(Read(all))[name := HeadOf(expansion).value]
  {
    hide SplitWords, HeadWord;
  }

  lemma SetKeepsSafe(aliases: Aliases, listed: set<string>, name: string, expansion: string)
    requires Safe(aliases, listed)
    requires Check(name, expansion, aliases, listed).None?
    ensures Safe(aliases[name := expansion], listed)
  {
    hide SplitWords, BuiltinsFrom, Cycle, WithBuiltins, Exits;
    SetChangesOneEdge(aliases, name, expansion);
    var g, g' := FullGraph(aliases), FullGraph(aliases[name := expansion]);
    hide FullGraph;
    CycleFoundExactly(g', name);
    var n: nat :| n <= MAX_DEPTH && Exits(g', name, n);
    AcyclicIffGrounded(g);
    GroundedAfterChange(g, g', name, n);
    AcyclicIffGrounded(g');
  }

  /** A built-in no user alias hides leads straight to a command, and so out of the table. */
  lemma BuiltinLeadsOut(aliases: Aliases, listed: set<string>, name: string)
    requires BuiltinsFit(listed) && forall k | k in aliases :: k !in listed
    requires name in BuiltinsFrom(0) && name !in aliases
    ensures Exits(FullGraph(aliases), name, 1)
  {
    hide SplitWords, BuiltinsFrom, HeadWord, BuiltinsFit;
    var g, all := FullGraph(aliases), WithBuiltins(aliases);
    BuiltinsPointAtCommands(name, listed);
    assert all[name] == BuiltinsFrom(0)[name];
    var c := HeadOf(all[name]).value;
    assert name in g && g[name] == c;
    if c in BuiltinsFrom(0) {
      BuiltinsPointAtCommands(c, listed);
    }
    assert c !in all;
    assert Exits(g, c, 0);
  }

  lemma DeleteKeepsSafe(aliases: Aliases, listed: set<string>, name: string)
    requires Safe(aliases, listed) && BuiltinsFit(listed)
    ensures Safe(aliases - {name}, listed)
  {
    hide SplitWords, BuiltinsFrom, HeadWord, HeadOf, BuiltinsFit;
    var g, g' := FullGraph(aliases), FullGraph(aliases - {name});
    var n := 0;
    if name in BuiltinsFrom(0) {
      BuiltinLeadsOut(aliases - {name}, listed, name);
      n := 1;
    }
    AcyclicIffGrounded(g);
    GroundedAfterChange(g, g', name, n);
    AcyclicIffGrounded(g');
  }

  lemma {:induction false} ImportKeepsSafe(entries: seq<(string, string)>, clobber: bool, aliases: Aliases,
                                           listed: set<string>)
    requires Safe(aliases, listed)
    ensures Safe(Imported(entries, clobber, aliases, listed), listed)
  {
    hide Check, Safe;
    if entries != [] {
      var first := entries[0];
      if Taken(first, clobber, aliases, listed) {
        SetKeepsSafe(aliases, listed, first.0, first.1);
        ImportKeepsSafe(entries[1..], clobber, aliases[first.0 := first.1], listed);
      } else {
        ImportKeepsSafe(entries[1..], clobber, aliases, listed);
      }
    }
  }

  lemma EditKeepsSafe(edit: Edit, aliases: Aliases, listed: set<string>)
    requires Safe(aliases, listed) && BuiltinsFit(listed)
    ensures Safe(Apply(edit, aliases, listed), listed)
  {
    hide Check, Safe, Trim, BuiltinsFit;
    match edit
    case Set(name, expansion) =>
      if Check(Trim(name), Trim(expansion), aliases, listed).None? {
        SetKeepsSafe(aliases, listed, Trim(name), Trim(expansion));
      }
    case Delete(name) => DeleteKeepsSafe(aliases, listed, Trim(name));
    case Import(entries, clobber) => ImportKeepsSafe(entries, clobber, aliases, listed);
  }

  /** The empty table: only the built-ins, each one hop from a command. */
  lemma EmptyIsSafe(listed: set<string>)
    requires BuiltinsFit(listed)
    ensures Safe(map[], listed)
  {
    hide SplitWords, BuiltinsFrom, HeadWord, BuiltinsFit;
    var g := FullGraph(map[]);
    forall h: string ensures Ends(g, h) {
      if h in g {
        BuiltinLeadsOut(map[], listed, h);
      } else {
        assert Exits(g, h, 0);
      }
    }
    AcyclicIffGrounded(g);
  }

  /** The table after a history of edits, each of which may also fail to be written. */
  function History(edits: seq<(Edit, bool)>, listed: set<string>): Aliases {
    if edits == [] then map[]
    else
      var before := History(edits[..|edits| - 1], listed);
      var (edit, saves) := edits[|edits| - 1];
      if saves then Apply(edit, before, listed) else before
  }

  /** Every history of edits leaves a safe table. */
  lemma {:induction false} HistoriesAreSafe(edits: seq<(Edit, bool)>, listed: set<string>)
    requires BuiltinsFit(listed)
    ensures Safe(History(edits, listed), listed)
  {
    hide Apply, Safe, BuiltinsFit;
    if edits == [] {
      EmptyIsSafe(listed);
    } else {
      HistoriesAreSafe(edits[..|edits| - 1], listed);
      EditKeepsSafe(edits[|edits| - 1].0, History(edits[..|edits| - 1], listed), listed);
    }
  }

  /**
   On a table any history leaves, a loop is reported only if the chain passes an alias whose
   head word holds a placeholder.
   */
  lemma HistoriesLoopOnlyThroughPlaceholders(edits: seq<(Edit, bool)>, listed: set<string>,
                                             name: string, args: seq<string>)
    requires BuiltinsFit(listed)
    requires var table := Read(WithBuiltins(History(edits, listed)));
             Expand(table, name, args).Err? && Expand(table, name, args).error.AliasLoop?
    ensures var table := Read(WithBuiltins(History(edits, listed)));
            exists i :: 0 <= i < MAX_DEPTH && After(table, State(name, args), i).Some?
                        && HeadAt(table, State(name, args), i) in table
                        && !PlainHead(table[HeadAt(table, State(name, args), i)])
  {
    hide Expand, History, Read, Graph;
    HistoriesAreSafe(edits, listed);
    LoopNeedsPlaceholderHead(Read(WithBuiltins(History(edits, listed))), name, args);
  }

  // -------------------------------------------------------- what the loop check refuses

  lemma {:induction false} EndsOrReaches(g: map<string, string>, g': map<string, string>, name: string,
                                         h: string, m: nat) returns (k: nat)
    requires forall x | x != name :: (x in g <==> x in g') && (x in g ==> g[x] == g'[x])
    requires Exits(g, h, m)
    ensures Walk(g', h, k) == Some(name) || Exits(g', h, m)
    decreases m
  {
    if h == name || m == 0 {
      k := 0;
    } else {
      k := EndsOrReaches(g, g', name, g[h], m - 1);
      k := k + 1;
    }
  }

  ghost predicate ReachesItself(g: map<string, string>, h: string) {
    exists n: nat :: n > 0 && Walk(g, h, n) == Some(h)
  }

  /** Following edges from `h` ends, but only after more than `bound` of them. */
  ghost predicate EndsLate(g: map<string, string>, h: string, bound: nat) {
    exists n: nat :: n > bound && Exits(g, h, n)
  }

  /**
   On a safe table the loop check refuses an expansion exactly when the alias would reach
   itself, or when its chain would be more than ten aliases long.
   */
  lemma LoopRefusedExactly(name: string, expansion: string, aliases: Aliases, listed: set<string>)
    requires Safe(aliases, listed) && HeadOf(expansion).Some?
    ensures var g := FullGraph(aliases[name := expansion]);
            Cycle(g, name).Some?
            <==> ReachesItself(g, name) || EndsLate(g, name, MAX_DEPTH)
  {
    hide SplitWords, BuiltinsFrom, HeadWord, Cycle;
    SetChangesOneEdge(aliases, name, expansion);
    var g, g' := FullGraph(aliases), FullGraph(aliases[name := expansion]);
    CycleFoundExactly(g', name);
    if EndsWithin(g', name, MAX_DEPTH) {
      var n: nat :| n <= MAX_DEPTH && Exits(g', name, n);
      forall m: nat | Exits(g', name, m) ensures m == n {
        ExitsOnce(g', name, n, m);
      }
      forall m: nat | m > 0 ensures Walk(g', name, m) != Some(name) {
        if Walk(g', name, m) == Some(name) {
          ExitsAlong(g', name, m, n);
          assert false;
        }
      }
    } else {
      AcyclicIffGrounded(g);
      assert Ends(g, g'[name]);
      var m: nat :| Exits(g, g'[name], m);
      var k := EndsOrReaches(g, g', name, g'[name], m);
      if Exits(g', g'[name], m) {
        assert Exits(g', name, m + 1);
        assert m + 1 > MAX_DEPTH;
      } else {
        assert Walk(g', name, k + 1) == Some(name);
      }
    }
  }

  /**
   The two bounds differ by one: a chain of exactly ten aliases passes the check made when it
   is set, and is refused when it is run, however many arguments it is given.
   */
  lemma TenAliasesPassTheCheckOnly(table: Table, name: string, args: seq<string>)
    requires Readable(table) && PlainHeads(table)
    requires Exits(Graph(table), name, MAX_DEPTH)
    ensures Cycle(Graph(table), name).None?
    ensures Expand(table, name, args).Err?
    ensures Expand(table, name, args) == Err(TooDeep) <==> Need(table, name, MAX_DEPTH) <= |args|
  {
    hide Expand, Cycle, Need, Graph;
    assert EndsWithin(Graph(table), name, MAX_DEPTH);
    CycleFoundExactly(Graph(table), name);
    TenAliasesAreTooDeep(table, name, args, MAX_DEPTH);
  }

  // ---------------------------------------------- head words with placeholders can loop

  const TRAP: seq<(Edit, bool)> := [(Set("$1", "pr"), true), (Set("y", "$1"), true)]

  lemma WordsCheck(name: string, listed: set<string>)
    requires name == "$1" || name == "y"
    requires name !in listed
    ensures Trim(name) == name && CheckName(name, listed).None? && SplitWords(name) == Ok([name])
  {
    BareWordSplits(name);
    if name == "$1" {
      assert name[1..] == "1" && "1"[1..] == "";
      assert WordCount("1", true) == 0;
      assert WordCount(name, false) == 1;
    } else {
      assert name[1..] == "";
      assert WordCount(name, false) == 1;
    }
  }

  lemma AcceptsWhenItEnds(name: string, expansion: string, head: string, existing: Aliases, listed: set<string>, n: nat)
    requires SplitWords(expansion) == Ok([head]) && !StartsWithDash(head)
    requires head in listed || head in existing
    requires n <= MAX_DEPTH && Exits(FullGraph(existing[name := expansion]), name, n)
    ensures CheckExpansion(name, expansion, existing, listed).None?
  {
    hide SplitWords, BuiltinsFrom, Cycle;
    SetChangesOneEdge(existing, name, expansion);
    var g := FullGraph(existing[name := expansion]);
    assert EndsWithin(g, name, MAX_DEPTH);
    CycleFoundExactly(g, name);
  }

  /** `gea alias set '$1' pr` and then `gea alias set y '$1'` are both accepted. */
  lemma TrapIsAccepted(listed: set<string>)
    requires BuiltinsFit(listed) && "$1" !in listed && "y" !in listed
    ensures History(TRAP, listed) == map["$1" := "pr", "y" := "$1"]
  {
    hide SplitWords, BuiltinsFrom, CheckExpansion, FullGraph, Trim, CheckName;
    WordsCheck("$1", listed);
    WordsCheck("y", listed);
    LowerCaseWord("pr");
    assert Trim("pr") == "pr" by { TrimPr(); }
    var one: Aliases := map["$1" := "pr"];
    var two: Aliases := map["$1" := "pr", "y" := "$1"];
    TrapGraph(listed);
    assert map[]["$1" := "pr"] == one && one["y" := "$1"] == two;
    AcceptsWhenItEnds("$1", "pr", "pr", map[], listed, 1);
    AcceptsWhenItEnds("y", "$1", "$1", one, listed, 2);
    assert TRAP[..2] == TRAP && TRAP[..1] == [TRAP[0]] && TRAP[..1][..0] == [];
    assert History([], listed) == map[];
    assert History(TRAP[..1], listed) == Apply(TRAP[0].0, map[], listed) == one;
    assert History(TRAP, listed) == Apply(TRAP[1].0, one, listed);
  }

  lemma TrimPr()
    ensures Trim("pr") == "pr"
  {
  }

  lemma TrapGraph(listed: set<string>)
    requires BuiltinsFit(listed) && "$1" !in listed && "y" !in listed
    ensures Exits(FullGraph(map["$1" := "pr"]), "$1", 1)
    ensures Exits(FullGraph(map["$1" := "pr", "y" := "$1"]), "y", 2)
  {
    hide SplitWords, BuiltinsFrom, FullGraph;
    LowerCaseWord("pr");
    WordsCheck("$1", listed);
    assert map[]["$1" := "pr"] == map["$1" := "pr"];
    assert map["$1" := "pr"]["y" := "$1"] == map["$1" := "pr", "y" := "$1"];
    SetChangesOneEdge(map[], "$1", "pr");
    SetChangesOneEdge(map["$1" := "pr"], "y", "$1");
    assert HeadOf("pr") == Some("pr");
    assert HeadOf("$1") == Some("$1");
    CommandsLeadNowhere(map[], listed);
    var g := FullGraph(map["$1" := "pr", "y" := "$1"]);
    assert g == FullGraph(map[])["$1" := "pr"]["y" := "$1"];
    assert Exits(g, "pr", 0) && Exits(g, "$1", 1);
  }

  lemma CommandsLeadNowhere(aliases: Aliases, listed: set<string>)
    requires BuiltinsFit(listed) && forall k | k in aliases :: k !in listed
    ensures "pr" !in FullGraph(aliases)
  {
    hide SplitWords, BuiltinsFrom, HeadWord;
    if "pr" in BuiltinsFrom(0) {
      BuiltinsPointAtCommands("pr", listed);
    }
  }

  /** And then `gea y y` loops, although the table has no cycle. */
  lemma PlaceholderHeadLoops(listed: set<string>)
    requires BuiltinsFit(listed) && "$1" !in listed && "y" !in listed
    ensures var aliases := History(TRAP, listed);
            && Safe(aliases, listed)
            && Expand(Read(WithBuiltins(aliases)), "y", ["y"]) == Err(AliasLoop(["y", "y"]))
  {
    hide SplitWords, BuiltinsFrom, Safe, History;
    HistoriesAreSafe(TRAP, listed);
    TrapIsAccepted(listed);
    WordsCheck("$1", listed);
    var table := Read(WithBuiltins(map["$1" := "pr", "y" := "$1"]));
    assert table["y"] == Ok(["$1"]);
    assert Hop(table, State("y", ["y"])) == Ok(State("y", [])) by { TrapHop(table); }
    assert Expanded(table, ["y"], State("y", []), 9) == Err(AliasLoop(["y"] + ["y"]));
    assert [] + ["y"] == ["y"] && ["y"] + ["y"] == ["y", "y"];
  }

  lemma TrapHop(table: Table)
    requires "y" in table && table["y"] == Ok(["$1"])
    ensures Hop(table, State("y", ["y"])) == Ok(State("y", []))
  {
    assert "$1"[2..] == "";
    assert Slots("$1") == [Arg(0)];
    assert Rendered([Arg(0)], ["y"]) == "y" + Rendered([Arg(0)][1..], ["y"]);
    assert ["$1"][1..] == [] && [Arg(0)][1..] == [];
    assert Rendered([Arg(0)], ["y"]) == "y";
    assert RenderedWords(["$1"], ["y"]) == ["y"];
    assert 0 in Named(Slots("$1"));
    assert Unnamed(["y"], NamedIn(["$1"]), 0) == [];
  }
}
