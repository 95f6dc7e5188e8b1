/**
 What alias expansion guarantees: when it succeeds, when it can loop, and that no user
 argument is lost or reordered on the way.
 */
module ExpansionLaws {
  import opened Wrappers
  import opened Substitution
  import opened Expansion
  import opened AliasGraph

  /** Every expansion can be read and has a first word. `set` and `import` see to it. */
  predicate Readable(table: Table) {
    forall h | h in table :: HeadWord(table[h]).Some?
  }

  /** The expansion's first word holds no placeholder. */
  predicate PlainHead(expansion: Reading) {
    var head := HeadWord(expansion);
    head.Some? ==> Named(Slots(head.value)) == {}
  }

  predicate PlainHeads(table: Table) {
    forall h | h in table :: PlainHead(table[h])
  }

  /** The words of an alias's expansion. */
  function WordsOf(table: Table, h: string): seq<string> {
    if h in table && table[h].Ok? then table[h].value else []
  }

  /** What one hop does to a state whose expansion has a placeholder-free head word. */
  lemma PlainHop(table: Table, st: State)
    requires st.head in table && Hop(table, st).Ok? && PlainHead(table[st.head])
    ensures var w, next := WordsOf(table, st.head), Hop(table, st).value;
            && w != []
            && st.head in Graph(table) && Graph(table)[st.head] == w[0] == next.head
            && FirstMissingIn(w, |st.args|).None?
            && NamedIn(w) == NamedIn(w[1..])
            && next.args == RenderedWords(w[1..], st.args) + Unnamed(st.args, NamedIn(w), 0)
  {
    var w := WordsOf(table, st.head);
    PlainRendersAsIs(w[0], st.args);
  }

  /** Whether a hop can be made, and how many arguments it leaves. */
  lemma PlainHopCounts(table: Table, st: State)
    requires st.head in table && PlainHead(table[st.head]) && HeadWord(table[st.head]).Some?
    ensures var w := WordsOf(table, st.head);
            && w != [] && st.head in Graph(table) && Graph(table)[st.head] == w[0]
            && (Hop(table, st).Ok? <==> Demand(w) <= |st.args|)
            && (Hop(table, st).Ok? ==>
                  && Hop(table, st).value.head == w[0]
                  && |Hop(table, st).value.args| == |w| - 1 + |st.args| - |NamedIn(w)|)
  {
    var w := WordsOf(table, st.head);
    DemandExact(w, |st.args|);
    if Demand(w) <= |st.args| {
      PlainHop(table, st);
      HopArgCount(w, st.args);
    }
  }

  // ----------------------------------------------------------------------------- loops

  lemma {:induction false} HeadsFollowGraph(table: Table, st: State, n: nat)
    requires After(table, st, n).Some?
    requires forall i | 0 <= i < n :: HeadAt(table, st, i) in table ==> PlainHead(table[HeadAt(table, st, i)])
    ensures Walk(Graph(table), st.head, n) == Some(HeadAt(table, st, n))
    decreases n
  {
    if n > 0 {
      assert HeadAt(table, st, 0) == st.head;
      PlainHop(table, st);
      var next := Hop(table, st).value;
      forall i | 0 <= i < n - 1
        ensures HeadAt(table, next, i) in table ==> PlainHead(table[HeadAt(table, next, i)])
      {
        assert HeadAt(table, next, i) == HeadAt(table, st, i + 1);
      }
      HeadsFollowGraph(table, next, n - 1);
    }
  }

  lemma RepeatIsCycle(table: Table, st: State, i: nat, j: nat)
    requires i < j && After(table, st, j).Some? && HeadAt(table, st, i) == HeadAt(table, st, j)
    requires forall k | 0 <= k < j :: HeadAt(table, st, k) in table ==> PlainHead(table[HeadAt(table, st, k)])
    ensures !Acyclic(Graph(table))
  {
    hide Graph, PlainHead;
    AfterEarlier(table, st, i, j);
    HeadsFollowGraph(table, st, i);
    HeadsFollowGraph(table, st, j);
    WalkAppend(Graph(table), st.head, i, j - i);
  }

  /**
   On a table whose head-word graph has no cycle, a reported loop is always the doing of an
   alias on the way whose head word holds a placeholder.
   */
  lemma LoopNeedsPlaceholderHead(table: Table, name: string, args: seq<string>)
    requires Acyclic(Graph(table))
    requires Expand(table, name, args).Err? && Expand(table, name, args).error.AliasLoop?
    ensures exists i :: 0 <= i < MAX_DEPTH && After(table, State(name, args), i).Some?
                        && HeadAt(table, State(name, args), i) in table
                        && !PlainHead(table[HeadAt(table, State(name, args), i)])
  {
    var st := State(name, args);
    var j := LoopWasMet(table, [], st, MAX_DEPTH);
    var i :| 0 <= i < j && HeadAt(table, st, i) == HeadAt(table, st, j);
    if forall k | 0 <= k < j :: HeadAt(table, st, k) in table ==> PlainHead(table[HeadAt(table, st, k)]) {
      RepeatIsCycle(table, st, i, j);
      assert false;
    }
    var k :| 0 <= k < j && HeadAt(table, st, k) in table && !PlainHead(table[HeadAt(table, st, k)]);
    AfterEarlier(table, st, k, j);
  }

  /** Without placeholders in head words, an acyclic table never loops, whatever the arguments. */
  lemma PlainTablesNeverLoop(table: Table, name: string, args: seq<string>)
    requires Acyclic(Graph(table)) && PlainHeads(table)
    ensures !(Expand(table, name, args).Err? && Expand(table, name, args).error.AliasLoop?)
  {
    if Expand(table, name, args).Err? && Expand(table, name, args).error.AliasLoop? {
      LoopNeedsPlaceholderHead(table, name, args);
      assert false;
    }
  }

  // -------------------------------------------------------------------------- success

  /** How many arguments `n` hops from `h` ask for. Each hop adds its tail and uses what it names. */
  function Need(table: Table, h: string, n: nat): nat
    decreases n
  {
    var w := WordsOf(table, h);
    if n == 0 || w == [] then 0
    else Max(Demand(w), Need(table, w[0], n - 1) - (|w| - 1) + |NamedIn(w)|)
  }

  lemma HopArgCount(words: seq<string>, args: seq<string>)
    requires Demand(words) <= |args|
    ensures |Unnamed(args, NamedIn(words), 0)| == |args| - |NamedIn(words)|
  {
    hide Demand, NamedIn, Unnamed, FirstMissingIn;
    DemandExact(words, |args|);
    UnnamedLength(args, NamedIn(words), 0);
    assert Between(NamedIn(words), 0, |args|) == NamedIn(words);
  }

  lemma {:induction false} HopsMade(table: Table, st: State, n: nat)
    requires Readable(table) && PlainHeads(table)
    ensures (After(table, st, n).Some? && HeadAt(table, st, n) !in table)
            <==> (Exits(Graph(table), st.head, n) && Need(table, st.head, n) <= |st.args|)
    decreases n
  {
    hide Hop, Graph, Demand, NamedIn, WordsOf, HeadWord, PlainHead;
    if st.head !in table {
      assert st.head !in Graph(table);
    } else {
      assert HeadWord(table[st.head]).Some? && PlainHead(table[st.head]);
      PlainHopCounts(table, st);
      if n > 0 && Hop(table, st).Ok? {
        HopsMade(table, Hop(table, st).value, n - 1);
      }
    }
  }

  /** The first `n` hops of a chain can be made exactly when the chain goes on that far and they get their arguments. */
  lemma {:induction false} HopsReached(table: Table, st: State, n: nat)
    requires Readable(table) && PlainHeads(table)
    ensures After(table, st, n).Some? <==> Walk(Graph(table), st.head, n).Some? && (Need(table, st.head, n) <= |st.args|)
    decreases n
  {
    hide Hop, Graph, Demand, NamedIn, WordsOf, HeadWord, PlainHead;
    if st.head !in table {
      assert st.head !in Graph(table);
      NoNeed(table, st.head, n);
    } else {
      assert HeadWord(table[st.head]).Some? && PlainHead(table[st.head]);
      PlainHopCounts(table, st);
      if n > 0 && Hop(table, st).Ok? {
        HopsReached(table, Hop(table, st).value, n - 1);
      }
    }
  }

  lemma NoNeed(table: Table, h: string, n: nat)
    requires h !in table
    ensures Need(table, h, n) == 0
  {
  }

  lemma ExitingNeverRepeats(table: Table, st: State, n: nat, m: nat)
    requires PlainHeads(table)
    requires Exits(Graph(table), st.head, n) && m <= n && After(table, st, m).Some?
    ensures NoRepeats(table, [], st, m + 1)
  {
    hide Graph, Exits, HeadAt, After, Walk, PlainHead;
    var g := Graph(table);
    forall j | 0 <= j < m + 1 ensures !Repeats(table, [], st, j) {
      forall i | 0 <= i < j ensures HeadAt(table, st, i) != HeadAt(table, st, j) {
        AfterEarlier(table, st, i, m);
        AfterEarlier(table, st, j, m);
        HeadsFollowGraph(table, st, i);
        HeadsFollowGraph(table, st, j);
        ExitsAlong(g, st.head, i, n);
        ExitsAlong(g, st.head, j, n);
        if HeadAt(table, st, i) == HeadAt(table, st, j) {
          ExitsOnce(g, HeadAt(table, st, i), n - i, n - j);
        }
      }
    }
  }

  /**
   With readable expansions and placeholder-free head words, expansion succeeds exactly when
   the chain leaves the table after at most nine aliases and enough arguments were given.
   */
  lemma ExpandSucceedsExactly(table: Table, name: string, args: seq<string>)
    requires Readable(table) && PlainHeads(table)
    ensures Expand(table, name, args).Ok?
            <==> exists n :: 0 <= n < 10 && Exits(Graph(table), name, n) && Need(table, name, n) <= |args|
  {
    var st := State(name, args);
    if Expand(table, name, args).Ok? {
      var n := LoopDelivered(table, [], st, MAX_DEPTH);
      HopsMade(table, st, n);
    }
    if n :| 0 <= n < MAX_DEPTH && Exits(Graph(table), name, n) && Need(table, name, n) <= |args| {
      HopsMade(table, st, n);
      ExitingNeverRepeats(table, st, n, n);
      LoopDelivers(table, [], st, MAX_DEPTH, n);
    }
  }

  /** On readable tables nothing else goes wrong. */
  lemma {:induction false} ReadableErrors(table: Table, seen: seq<string>, st: State, fuel: nat)
    requires Readable(table) && Expanded(table, seen, st, fuel).Err?
    ensures var e := Expanded(table, seen, st, fuel).error; e.MissingArgument? || e.AliasLoop? || e.TooDeep?
    decreases fuel
  {
    if fuel > 0 && st.head !in seen && st.head in table {
      assert HeadWord(table[st.head]).Some?;
      if Hop(table, st).Ok? {
        ReadableErrors(table, seen + [st.head], Hop(table, st).value, fuel - 1);
      }
    }
  }

  /**
   A chain of ten aliases, or more, is refused however many arguments it is given: as too deep
   if the first ten hops get theirs, and for the missing one if they do not.
   */
  lemma TenAliasesAreTooDeep(table: Table, name: string, args: seq<string>, n: nat)
    requires Readable(table) && PlainHeads(table)
    requires n >= 10 && Exits(Graph(table), name, n)
    ensures Expand(table, name, args).Err?
    ensures if Need(table, name, 10) <= |args| then Expand(table, name, args).error.TooDeep?
            else Expand(table, name, args).error.MissingArgument?
  {
    hide Need, Graph, Exits, HeadAt, After, Walk, Leaves, NoRepeats, Repeats;
    var st := State(name, args);
    if Expand(table, name, args).Ok? {
      var m := LoopDelivered(table, [], st, MAX_DEPTH);
      LeavesExits(table, st, m);
      ExitsOnce(Graph(table), name, n, m);
    }
    ReadableErrors(table, [], st, MAX_DEPTH);
    HopsReached(table, st, MAX_DEPTH);
    WalkPrefix(Graph(table), name, MAX_DEPTH, n);
    LoopGivesUp(table, [], st, MAX_DEPTH);
    if After(table, st, MAX_DEPTH).Some? {
      ExitingNeverRepeats(table, st, n, MAX_DEPTH);
      FewerNeverRepeat(table, st, MAX_DEPTH);
    }
    if Expand(table, name, args).error.AliasLoop? {
      var j := LoopWasMet(table, [], st, MAX_DEPTH);
      ExitingNeverRepeats(table, st, n, j);
      NoRepeatsAt(table, st, j);
    }
  }

  lemma LeavesExits(table: Table, st: State, m: nat)
    requires PlainHeads(table) && Leaves(table, [], st, m)
    ensures Exits(Graph(table), st.head, m)
  {
    EndsOutside(table, st, m);
  }

  lemma {:induction false} WalkPrefix(g: map<string, string>, h: string, m: nat, n: nat)
    requires m <= n && Exits(g, h, n)
    ensures Walk(g, h, m).Some?
    decreases m
  {
    if m > 0 {
      WalkPrefix(g, g[h], m - 1, n - 1);
    }
  }

  lemma FewerNeverRepeat(table: Table, st: State, n: nat)
    requires NoRepeats(table, [], st, n + 1)
    ensures NoRepeats(table, [], st, n)
  {
  }

  lemma NoRepeatsAt(table: Table, st: State, j: nat)
    requires NoRepeats(table, [], st, j + 1)
    ensures !Repeats(table, [], st, j)
  {
  }

  // ------------------------------------------------------------------ a single alias

  /**
   An alias for a command: its words, with the arguments in their places, then the arguments
   that were not asked for; or the one that is missing.
   */
  lemma OneAliasMeans(table: Table, name: string, words: seq<string>, args: seq<string>)
    requires name in table && table[name] == Ok(words) && words != []
    requires !HoldsPlaceholder(words[0]) && words[0] !in table
    ensures var r := Substituted(words, args);
            Expand(table, name, args)
            == if r.Err? then Err(MissingArgument(r.error)) else Ok(r.value.0 + r.value.1)
    ensures Substituted(words, args).Ok? ==> Substituted(words, args).value.0[0] == words[0]
  {
    hide HoldsPlaceholder, Slots, Unnamed, NamedIn, FirstMissing, Rendered;
    NoPlaceholderNoSlot(words[0]);
    PlainRendersAsIs(words[0], args);
    var r := Substituted(words, args);
    if r.Ok? {
      var (out, left) := r.value;
      assert out[0] == words[0];
      assert [out[0]] + (out[1..] + left) == out + left;
      hide Substituted;
      var next := State(out[0], out[1..] + left);
      assert Hop(table, State(name, args)) == Ok(next);
      assert Expanded(table, [name], next, 9) == Ok([out[0]] + (out[1..] + left));
      assert [] + [name] == [name];
    }
  }

  /** `co` for `pr checkout $1`: the first argument is the one checked out, and the rest follow. */
  lemma CheckoutMeans(table: Table, first: string, rest: seq<string>)
    requires "co" in table && table["co"] == Ok(["pr", "checkout", "$1"]) && "pr" !in table
    ensures Expand(table, "co", [first] + rest) == Ok(["pr", "checkout", first] + rest)
    ensures Expand(table, "co", []) == Err(MissingArgument(1))
  {
    var words := ["pr", "checkout", "$1"];
    CheckoutSubstituted([first] + rest);
    CheckoutSubstituted([]);
    OneAliasMeans(table, "co", words, [first] + rest);
    OneAliasMeans(table, "co", words, []);
    assert ([first] + rest)[1..] == rest;
    hide Substituted, Expand;
    assert ["pr", "checkout", first] + rest == ["pr", "checkout", first] + rest;
  }

  lemma CheckoutSubstituted(args: seq<string>)
    ensures !HoldsPlaceholder("pr")
    ensures Substituted(["pr", "checkout", "$1"], args)
            == if args == [] then Err(1) else Ok((["pr", "checkout", args[0]], args[1..]))
  {
    hide HoldsPlaceholder, Substituted, DIGITS;
    NothingToHold();
    FirstArgument(args);
    PlainWordInFront("checkout", ["$1"], args);
    PlainWordInFront("pr", ["checkout", "$1"], args);
    assert ["pr"] + ["checkout", "$1"] == ["pr", "checkout", "$1"] && ["checkout"] + ["$1"] == ["checkout", "$1"];
    if args != [] {
      assert ["checkout"] + [args[0]] == ["checkout", args[0]];
      assert ["pr"] + ["checkout", args[0]] == ["pr", "checkout", args[0]];
    }
  }

  lemma FirstArgument(args: seq<string>)
    ensures Substituted(["$1"], args) == if args == [] then Err(1) else Ok(([args[0]], args[1..]))
  {
    hide HoldsPlaceholder, Substituted;
    NothingToHold();
    OnePlaceholderMeans("", 0, "", args);
    assert "" + ['$', DIGITS[0]] + "" == "$1";
    assert args != [] ==> "" + args[0] + "" == args[0] && args[..0] + args[1..] == args[1..];
  }

  lemma NothingToHold()
    ensures !HoldsPlaceholder("") && !HoldsPlaceholder("pr") && !HoldsPlaceholder("checkout")
  {
  }

  /** What can go wrong at the first alias, in this order: its text, an argument, nothing left. */
  lemma FirstAliasFails(table: Table, name: string, args: seq<string>)
    requires name in table
    ensures table[name].Err? ==> Expand(table, name, args) == Err(BadExpansion(table[name].error))
    ensures table[name] == Ok([]) ==> Expand(table, name, args) == Err(EmptyExpansion(name))
    ensures table[name].Ok? && Substituted(table[name].value, args).Err? ==>
              Expand(table, name, args) == Err(MissingArgument(Substituted(table[name].value, args).error))
  {
    assert FirstMissingIn([], |args|) == None;
    assert RenderedWords([], args) == [];
  }

  // ------------------------------------------------- which placeholder heads come back

  /** An alias reports itself as a loop at once exactly when its head word is rendered as its own name. */
  lemma ComesBackExactly(table: Table, name: string, args: seq<string>)
    requires name in table && Hop(table, State(name, args)).Ok?
    ensures Expand(table, name, args) == Err(AliasLoop([name, name]))
            <==> Rendered(Slots(WordsOf(table, name)[0]), args) == name
  {
    hide Slots, Rendered, NamedIn, Unnamed, FirstMissingIn;
    var st := State(name, args);
    var next := Hop(table, st).value;
    assert [] + [name] == [name] && [name] + [name] == [name, name];
    assert next.head == Rendered(Slots(WordsOf(table, name)[0]), args);
    if next.head != name && Expand(table, name, args).Err? && Expand(table, name, args).error.AliasLoop? {
      LoopsAreLonger(table, [name], next, 9);
    }
  }

  lemma {:induction false} LoopsAreLonger(table: Table, seen: seq<string>, st: State, fuel: nat)
    requires st.head !in seen && Expanded(table, seen, st, fuel).Err? && Expanded(table, seen, st, fuel).error.AliasLoop?
    ensures |Expanded(table, seen, st, fuel).error.chain| > |seen| + 1
    decreases fuel
  {
    hide Substituted;
    var next := Hop(table, st).value;
    if next.head !in seen + [st.head] {
      LoopsAreLonger(table, seen + [st.head], next, fuel - 1);
    }
  }

  /** An alias whose head word is just a placeholder loops for some arguments, in every table. */
  lemma BarePlaceholderLoops(table: Table, name: string, tail: seq<string>, digit: char)
    requires '1' <= digit <= '9'
    requires name in table && table[name] == Ok([['$', digit]] + tail)
    ensures Expand(table, name, seq(PLACEHOLDERS, _ => name)) == Err(AliasLoop([name, name]))
  {
    var head, args := ['$', digit], seq(PLACEHOLDERS, _ => name);
    var words := [head] + tail;
    BarePlaceholderRenders(digit, args);
    NineAreEnough(words, args);
    hide Slots, Rendered, NamedIn, Unnamed, FirstMissingIn, PLACEHOLDERS;
    assert RenderedWords(words, args)[0] == name;
    ComesBackExactly(table, name, args);
  }

  lemma BarePlaceholderRenders(digit: char, args: seq<string>)
    requires '1' <= digit <= '9' && |args| == PLACEHOLDERS
    ensures Rendered(Slots(['$', digit]), args) == args[ArgIndex(digit)]
  {
    var word := ['$', digit];
    assert word[2..] == "" && Slots(word) == [Arg(ArgIndex(digit))];
    assert [Arg(ArgIndex(digit))][1..] == [] && args[ArgIndex(digit)] + "" == args[ArgIndex(digit)];
  }

  lemma {:induction false} SlotsAreFew(word: string)
    ensures SlotDemand(Slots(word)) <= PLACEHOLDERS
    decreases |word|
  {
    if word != "" {
      if IsPlaceholder(word, 0) {
        SlotsAreFew(word[2..]);
      } else {
        SlotsAreFew(word[1..]);
      }
    }
  }

  lemma {:induction false} NineAreEnough(words: seq<string>, args: seq<string>)
    requires |args| == PLACEHOLDERS
    ensures FirstMissingIn(words, |args|).None?
  {
    if words != [] {
      hide Slots;
      NineAreEnough(words[1..], args);
      SlotsAreFew(words[0]);
      SlotDemandExact(Slots(words[0]), |args|);
    }
  }

  // --------------------------------------------------------------------- conservation

  /** The user's arguments at these positions. */
  function Pick(args: seq<string>, positions: seq<nat>): (r: seq<string>)
    ensures |r| == |positions|
  {
    if positions == [] then []
    else [if positions[0] < |args| then args[positions[0]] else ""] + Pick(args, positions[1..])
  }

  /**
   Which user arguments no placeholder names within `n` hops from `h`. The arguments in play
   are `lead` words of expansion text followed by the user's arguments at `positions`.
   */
  function Untouched(table: Table, h: string, lead: nat, positions: seq<nat>, n: nat): seq<nat>
    decreases n
  {
    var w := WordsOf(table, h);
    if n == 0 || w == [] then positions
    else
      var lead' := |w| - 1 + |Unnamed(seq(lead, i => i), NamedIn(w), 0)|;
      Untouched(table, w[0], lead', Unnamed(positions, NamedIn(w), lead), n - 1)
  }

  predicate Ascending(positions: seq<nat>) {
    forall i, j | 0 <= i < j < |positions| :: positions[i] < positions[j]
  }

  lemma {:induction false} PickUnnamed(args: seq<string>, positions: seq<nat>, named: set<nat>, from: nat)
    ensures Unnamed(Pick(args, positions), named, from) == Pick(args, Unnamed(positions, named, from))
  {
    if positions != [] {
      PickUnnamed(args, positions[1..], named, from + 1);
      assert Pick(args, positions)[1..] == Pick(args, positions[1..]);
      var rest := Unnamed(positions[1..], named, from + 1);
      if from !in named {
        assert ([positions[0]] + rest)[1..] == rest;
      } else {
        assert [] + rest == rest && [] + Pick(args, rest) == Pick(args, rest);
      }
    }
  }

  lemma {:induction false} PickAt(args: seq<string>, positions: seq<nat>, k: nat)
    requires k < |positions| && positions[k] < |args|
    ensures Pick(args, positions)[k] == args[positions[k]]
  {
    if k > 0 {
      PickAt(args, positions[1..], k - 1);
    }
  }

  lemma {:induction false} UnnamedAscends(positions: seq<nat>, named: set<nat>, from: nat)
    requires Ascending(positions)
    ensures Ascending(Unnamed(positions, named, from))
    ensures forall p | p in Unnamed(positions, named, from) :: p in positions
  {
    if positions != [] {
      assert Ascending(positions[1..]);
      UnnamedAscends(positions[1..], named, from + 1);
      var rest := Unnamed(positions[1..], named, from + 1);
      assert forall k | 0 <= k < |rest| :: rest[k] in positions[1..];
    }
  }

  lemma {:induction false} UnnamedLengthOnly<S, T>(xs: seq<S>, ys: seq<T>, named: set<nat>, from: nat)
    requires |xs| == |ys|
    ensures |Unnamed(xs, named, from)| == |Unnamed(ys, named, from)|
  {
    if xs != [] {
      UnnamedLengthOnly(xs[1..], ys[1..], named, from + 1);
    }
  }

  /** Some word of `words` has `part` as a contiguous piece. */
  ghost predicate Holds(words: seq<string>, part: string) {
    exists j :: 0 <= j < |words| && Contains(words[j], part)
  }

  lemma HoldsEither(a: seq<string>, b: seq<string>, part: string)
    requires Holds(a, part) || Holds(b, part)
    ensures Holds(a + b, part)
  {
    if j :| 0 <= j < |a| && Contains(a[j], part) {
      assert (a + b)[j] == a[j];
    } else {
      var j :| 0 <= j < |b| && Contains(b[j], part);
      assert (a + b)[|a| + j] == b[j];
    }
  }

  /** An argument is carried through one hop: inside a rendered word, or among the leftovers. */
  lemma CarriedByHop(tail: seq<string>, args: seq<string>, k: nat, lead: nat, part: string)
    requires k < |args| && lead <= |args| && Contains(args[k], part)
    requires k < lead || k in NamedIn(tail)
    ensures Holds(RenderedWords(tail, args) + Unnamed(args[..lead], NamedIn(tail), 0), part)
  {
    var rendered, kept := RenderedWords(tail, args), Unnamed(args[..lead], NamedIn(tail), 0);
    if k in NamedIn(tail) {
      var j := SomeWordContains(tail, args, k);
      ContainsTransitive(rendered[j], args[k], part);
      assert Holds(rendered, part);
    } else {
      UnnamedKeeps(args[..lead], NamedIn(tail), 0, k);
      assert args[k] in kept;
      assert Holds(kept, part);
    }
    HoldsEither(rendered, kept, part);
  }

  /** The words of expansion text in front of the untouched arguments, after `n` hops. */
  ghost function Lead(table: Table, h: string, lead: seq<string>, args: seq<string>, positions: seq<nat>, n: nat): seq<string>
    decreases n
  {
    var w := WordsOf(table, h);
    if n == 0 || w == [] then lead
    else
      var all := lead + Pick(args, positions);
      var lead' := RenderedWords(w[1..], all) + Unnamed(lead, NamedIn(w), 0);
      Lead(table, w[0], lead', args, Unnamed(positions, NamedIn(w), |lead|), n - 1)
  }

  /** The state `lead + Pick(args, positions)` after one hop, in the same form. */
  lemma HopKeepsForm(table: Table, h: string, lead: seq<string>, args: seq<string>, positions: seq<nat>)
    requires var st := State(h, lead + Pick(args, positions));
             h in table && PlainHead(table[h]) && Hop(table, st).Ok?
    ensures var all, w := lead + Pick(args, positions), WordsOf(table, h);
            w != [] && Hop(table, State(h, all)).value
                       == State(w[0], RenderedWords(w[1..], all) + Unnamed(lead, NamedIn(w), 0)
                                      + Pick(args, Unnamed(positions, NamedIn(w), |lead|)))
  {
    hide Hop, NamedIn, RenderedWords, FirstMissingIn, Unnamed;
    var all, w := lead + Pick(args, positions), WordsOf(table, h);
    PlainHop(table, State(h, all));
    UnnamedAppend(lead, Pick(args, positions), NamedIn(w), 0);
    PickUnnamed(args, positions, NamedIn(w), |lead|);
  }

  /** What is in play before a hop is in play after it. */
  lemma HopCarries(table: Table, h: string, lead: seq<string>, args: seq<string>, positions: seq<nat>, part: string)
    requires h in table && WordsOf(table, h) != [] && NamedIn(WordsOf(table, h)[1..]) == NamedIn(WordsOf(table, h))
    requires forall p | p in positions :: p < |args|
    requires var named := NamedIn(WordsOf(table, h));
             || Holds(lead, part)
             || exists p :: p in positions && p !in Unnamed(positions, named, |lead|) && args[p] == part
    ensures var all, w := lead + Pick(args, positions), WordsOf(table, h);
            Holds(RenderedWords(w[1..], all) + Unnamed(lead, NamedIn(w), 0), part)
  {
    hide Hop, NamedIn, RenderedWords, WordsOf, Unnamed, Contains, Pick;
    var all, w := lead + Pick(args, positions), WordsOf(table, h);
    assert all[..|lead|] == lead;
    if Holds(lead, part) {
      var k :| 0 <= k < |lead| && Contains(lead[k], part);
      CarriedByHop(w[1..], all, k, |lead|, part);
    } else {
      var p :| p in positions && p !in Unnamed(positions, NamedIn(w), |lead|) && args[p] == part;
      var k :| 0 <= k < |positions| && positions[k] == p;
      if |lead| + k !in NamedIn(w) {
        UnnamedKeeps(positions, NamedIn(w), |lead|, k);
        assert false;
      }
      PickAt(args, positions, k);
      ContainsItself(part);
      CarriedByHop(w[1..], all, |lead| + k, |lead|, part);
    }
  }

  /** The invariant of the chain, stated about where it ends. */
  ghost predicate Conserved(table: Table, h: string, lead: seq<string>, args: seq<string>,
                            positions: seq<nat>, n: nat)
    requires forall p | p in positions :: p < |args|
  {
    var rest := Untouched(table, h, |lead|, positions, n);
    var end := Lead(table, h, lead, args, positions, n);
    && After(table, State(h, lead + Pick(args, positions)), n).Some?
    && After(table, State(h, lead + Pick(args, positions)), n).value.args == end + Pick(args, rest)
    && Ascending(rest)
    && (forall p | p in rest :: p in positions)
    && (forall part | Holds(lead, part) :: Holds(end, part))
    && (forall p | p in positions && p !in rest :: Holds(end, args[p]))
  }

  lemma {:induction false} HopsConserve(table: Table, h: string, lead: seq<string>, args: seq<string>,
                                        positions: seq<nat>, n: nat)
    requires PlainHeads(table)
    requires After(table, State(h, lead + Pick(args, positions)), n).Some?
    requires Ascending(positions) && forall p | p in positions :: p < |args|
    ensures Conserved(table, h, lead, args, positions, n)
    decreases n
  {
    hide Hop, NamedIn, RenderedWords, Unnamed, Holds, WordsOf, PlainHead, Pick, Ascending;
    if n > 0 {
      var all := lead + Pick(args, positions);
      var st := State(h, all);
      PlainHop(table, st);
      HopKeepsForm(table, h, lead, args, positions);
      var w := WordsOf(table, h);
      var positions' := Unnamed(positions, NamedIn(w), |lead|);
      var lead' := RenderedWords(w[1..], all) + Unnamed(lead, NamedIn(w), 0);
      UnnamedAscends(positions, NamedIn(w), |lead|);
      UnnamedLengthOnly(lead, seq(|lead|, i => i), NamedIn(w), 0);
      HopsConserve(table, w[0], lead', args, positions', n - 1);
      forall part | Holds(lead, part) ensures Holds(lead', part) {
        HopCarries(table, h, lead, args, positions, part);
      }
      forall p | p in positions && p !in positions' ensures Holds(lead', args[p]) {
        HopCarries(table, h, lead, args, positions, args[p]);
      }
    }
  }

  /** The positions from `lo` to `hi`, in order. */
  function Range(lo: nat, hi: nat): (r: seq<nat>)
    requires lo <= hi
    ensures forall p: nat :: p in r <==> lo <= p < hi
    ensures Ascending(r)
    decreases hi - lo
  {
    if lo == hi then []
    else
      var rest := Range(lo + 1, hi);
      assert forall k | 0 <= k < |rest| :: rest[k] in rest;
      [lo] + rest
  }

  lemma {:induction false} PickRange(args: seq<string>, lo: nat)
    requires lo <= |args|
    ensures Pick(args, Range(lo, |args|)) == args[lo..]
    decreases |args| - lo
  {
    if lo < |args| {
      var all, rest := Range(lo, |args|), Range(lo + 1, |args|);
      assert all[0] == lo && all[1..] == rest;
      hide Ascending, Range;
      PickRange(args, lo + 1);
      assert Pick(args, all) == [args[lo]] + Pick(args, rest);
    }
  }

  /** The untouched positions and the words in front of them, over a whole expansion. */
  function UntouchedArgs(table: Table, name: string, count: nat, n: nat): seq<nat> {
    Untouched(table, name, 0, Range(0, count), n)
  }

  ghost function ExpansionWords(table: Table, name: string, args: seq<string>, n: nat): seq<string> {
    Lead(table, name, [], args, Range(0, |args|), n)
  }

  /**
   Nothing the user typed is lost. When head words hold no placeholder, the result is the
   command, then expansion words, then the arguments no placeholder named, in the order they
   were given; and every other argument is a contiguous part of one of the words before them.
   */
  lemma ArgumentsAreConserved(table: Table, name: string, args: seq<string>) returns (n: nat)
    requires PlainHeads(table)
    requires Expand(table, name, args).Ok?
    ensures n < MAX_DEPTH && Exits(Graph(table), name, n) && Walk(Graph(table), name, n).Some?
    ensures var rest := UntouchedArgs(table, name, |args|, n);
            var lead := ExpansionWords(table, name, args, n);
            && Expand(table, name, args).value
               == [Walk(Graph(table), name, n).value] + (lead + Pick(args, rest))
            && Ascending(rest)
            && (forall p | p in rest :: p < |args|)
            && (forall p | 0 <= p < |args| && p !in rest :: Holds(lead, args[p]))
  {
    hide Graph, Exits, After, Lead, Untouched, Pick, Ascending, Holds, PlainHead, Expanded, Range;
    var st := State(name, args);
    n := LoopDelivered(table, [], st, MAX_DEPTH);
    LoopDelivers(table, [], st, MAX_DEPTH, n);
    HeadsFollowGraph(table, st, n);
    EndsOutside(table, st, n);
    PickRange(args, 0);
    assert args[0..] == args && [] + args == args;
    HopsConserve(table, name, [], args, Range(0, |args|), n);
  }

  lemma {:induction false} EndsOutside(table: Table, st: State, n: nat)
    requires PlainHeads(table)
    requires After(table, st, n).Some? && HeadAt(table, st, n) !in table
    ensures Exits(Graph(table), st.head, n)
    decreases n
  {
    if n > 0 {
      PlainHop(table, st);
      EndsOutside(table, Hop(table, st).value, n - 1);
    }
  }

  // ------------------------------------------------------- tables without placeholders

  predicate NoPlaceholders(table: Table) {
    forall h | h in table :: NamedIn(WordsOf(table, h)) == {}
  }

  /** The expansion tails along the chain, deepest first. */
  function Tails(table: Table, h: string, n: nat): seq<string>
    decreases n
  {
    var w := WordsOf(table, h);
    if n == 0 || w == [] then [] else Tails(table, w[0], n - 1) + w[1..]
  }

  lemma {:induction false} PlainWordsRenderAsIs(words: seq<string>, args: seq<string>)
    requires NamedIn(words) == {}
    ensures RenderedWords(words, args) == words
  {
    if words != [] {
      PlainRendersAsIs(words[0], args);
      PlainWordsRenderAsIs(words[1..], args);
    }
  }

  lemma HopWithoutPlaceholders(table: Table, st: State)
    requires NoPlaceholders(table) && st.head in table && Hop(table, st).Ok?
    ensures WordsOf(table, st.head) != [] && PlainHead(table[st.head])
    ensures var w := WordsOf(table, st.head);
            Hop(table, st).value == State(w[0], w[1..] + st.args)
  {
    var w := WordsOf(table, st.head);
    assert NamedIn(w) == {};
    PlainWordsRenderAsIs(w, st.args);
    UnnamedOfNothing(st.args, 0);
  }

  lemma {:induction false} PlainHops(table: Table, st: State, n: nat)
    requires NoPlaceholders(table) && After(table, st, n).Some?
    ensures After(table, st, n).value.args == Tails(table, st.head, n) + st.args
    decreases n
  {
    hide Hop, WordsOf, PlainHead;
    if n > 0 {
      HopWithoutPlaceholders(table, st);
      var w := WordsOf(table, st.head);
      PlainHops(table, Hop(table, st).value, n - 1);
      assert Tails(table, w[0], n - 1) + (w[1..] + st.args) == Tails(table, w[0], n - 1) + w[1..] + st.args;
    } else {
      assert [] + st.args == st.args;
    }
  }

  lemma NoPlaceholdersPlain(table: Table)
    requires NoPlaceholders(table)
    ensures PlainHeads(table)
  {
    forall h | h in table ensures PlainHead(table[h]) {
      assert NamedIn(WordsOf(table, h)) == {};
    }
  }

  /** Without placeholders: the command, the tails from deepest to outermost, the arguments. */
  lemma PlainExpansion(table: Table, name: string, args: seq<string>) returns (n: nat)
    requires NoPlaceholders(table)
    requires Expand(table, name, args).Ok?
    ensures n < MAX_DEPTH && Exits(Graph(table), name, n) && Walk(Graph(table), name, n).Some?
    ensures Expand(table, name, args).value
            == [Walk(Graph(table), name, n).value] + (Tails(table, name, n) + args)
  {
    hide Graph, Exits, After, PlainHead, Expanded, Tails;
    NoPlaceholdersPlain(table);
    var st := State(name, args);
    n := LoopDelivered(table, [], st, MAX_DEPTH);
    LoopDelivers(table, [], st, MAX_DEPTH, n);
    HeadsFollowGraph(table, st, n);
    EndsOutside(table, st, n);
    PlainHops(table, st, n);
  }
}
