/**
 Alias expansion: the bounded loop `expand_words` and what it means.

 `After` is the meaning without bound or loop check: the head word and arguments after a
 number of hops. `Expanded` is the source's loop, and the results below say exactly when
 the loop delivers the meaning, and what becomes of every user argument on the way.
 */
module Expansion {
  import opened Wrappers
  import opened Splitter
  import opened Substitution

  const MAX_DEPTH: nat := 10

  /** What splitting an expansion gives. */
  type Reading = Result<seq<string>, SplitError>

  /** An alias table with every expansion already split into words. */
  type Table = map<string, Reading>

  /** The stored table, read. */
  function Read(aliases: map<string, string>): Table {
    map h | h in aliases :: SplitWords(aliases[h])
  }

  datatype ExpandError =
    | BadExpansion(cause: SplitError)
    | MissingArgument(number: nat)
    | EmptyExpansion(alias: string)
    | AliasLoop(chain: seq<string>)
    | TooDeep

  /** The loop's `head` and `args`. */
  datatype State = State(head: string, args: seq<string>)

  /** One trip round the loop, for a head word that is an alias. */
  function Hop(table: Table, st: State): Result<State, ExpandError>
    requires st.head in table
  {
    match table[st.head]
    case Err(e) => Err(BadExpansion(e))
    case Ok(words) =>
      match Substituted(words, st.args)
      case Err(n) => Err(MissingArgument(n))
      case Ok((out, leftover)) =>
        if out == [] then Err(EmptyExpansion(st.head)) else Ok(State(out[0], out[1..] + leftover))
  }

  function Expanded(table: Table, seen: seq<string>, st: State, fuel: nat): Result<seq<string>, ExpandError>
    decreases fuel
  {
    if fuel == 0 then Err(TooDeep)
    else if st.head in seen then Err(AliasLoop(seen + [st.head]))
    else if st.head !in table then Ok([st.head] + st.args)
    else
      match Hop(table, st)
      case Err(e) => Err(e)
      case Ok(next) => Expanded(table, seen + [st.head], next, fuel - 1)
  }

  function Expand(table: Table, name: string, args: seq<string>): Result<seq<string>, ExpandError> {
    Expanded(table, [], State(name, args), MAX_DEPTH)
  }

  method ExpandWords(name: string, args: seq<string>, aliases: map<string, string>)
    returns (r: Result<seq<string>, ExpandError>)
    ensures r == Expand(Read(aliases), name, args)
  {
    ghost var table := Read(aliases);
    var seen: seq<string> := [];
    var head, rest := name, args;
    for i := 0 to MAX_DEPTH
      invariant Expand(table, name, args) == Expanded(table, seen, State(head, rest), MAX_DEPTH - i)
    {
      if head in seen {
        return Err(AliasLoop(seen + [head]));
      }
      if head !in aliases {
        return Ok([head] + rest);
      }
      var words := Split(aliases[head]);
      if words.Err? {
        return Err(BadExpansion(words.error));
      }
      var substituted := Substitute(words.value, rest);
      if substituted.Err? {
        return Err(MissingArgument(substituted.error));
      }
      var (out, leftover) := substituted.value;
      if out == [] {
        return Err(EmptyExpansion(head));
      }
      seen := seen + [head];
      head, rest := out[0], out[1..] + leftover;
    }
    return Err(TooDeep);
  }

  // ------------------------------------------------ the loop against the unbounded meaning

  /** Head and arguments after `n` hops; nothing if some hop before that cannot be made. */
  function After(table: Table, st: State, n: nat): Option<State>
    decreases n
  {
    if n == 0 then Some(st)
    else if st.head !in table then None
    else
      match Hop(table, st)
      case Err(_) => None
      case Ok(next) => After(table, next, n - 1)
  }

  function HeadAt(table: Table, st: State, n: nat): string {
    var a := After(table, st, n);
    if a.Some? then a.value.head else ""
  }

  /** The head word after `j` hops has been met before: in `seen`, or at an earlier hop. */
  ghost predicate Repeats(table: Table, seen: seq<string>, st: State, j: nat) {
    HeadAt(table, st, j) in seen || exists i :: 0 <= i < j && HeadAt(table, st, i) == HeadAt(table, st, j)
  }

  /** After `n` hops the head word is not an alias, and no head word came up twice. */
  ghost predicate Leaves(table: Table, seen: seq<string>, st: State, n: nat) {
    && After(table, st, n).Some?
    && HeadAt(table, st, n) !in table
    && forall j | 0 <= j <= n :: !Repeats(table, seen, st, j)
  }

  lemma {:induction false} AfterEarlier(table: Table, st: State, i: nat, n: nat)
    requires i <= n && After(table, st, n).Some?
    ensures After(table, st, i).Some?
    ensures i < n ==> HeadAt(table, st, i) in table
    decreases i
  {
    if 0 < i {
      AfterEarlier(table, Hop(table, st).value, i - 1, n - 1);
    }
  }

  /** Repetition seen from the state one hop on. */
  lemma RepeatsShift(table: Table, seen: seq<string>, st: State, j: nat)
    requires st.head in table && Hop(table, st).Ok?
    ensures Repeats(table, seen, st, j + 1) <==> Repeats(table, seen + [st.head], Hop(table, st).value, j)
  {
    var next := Hop(table, st).value;
    assert forall i: nat :: HeadAt(table, st, i + 1) == HeadAt(table, next, i);
    assert HeadAt(table, st, 0) == st.head;
    if Repeats(table, seen, st, j + 1) && HeadAt(table, st, j + 1) !in seen {
      var i :| 0 <= i < j + 1 && HeadAt(table, st, i) == HeadAt(table, st, j + 1);
      if i > 0 {
        assert HeadAt(table, next, i - 1) == HeadAt(table, next, j);
      }
    }
    if Repeats(table, seen + [st.head], next, j) && HeadAt(table, next, j) !in seen + [st.head] {
      var i :| 0 <= i < j && HeadAt(table, next, i) == HeadAt(table, next, j);
      assert HeadAt(table, st, i + 1) == HeadAt(table, st, j + 1);
    }
  }

  ghost predicate NoRepeats(table: Table, seen: seq<string>, st: State, n: nat) {
    forall j | 0 <= j < n :: !Repeats(table, seen, st, j)
  }

  lemma NoRepeatsShift(table: Table, seen: seq<string>, st: State, n: nat)
    requires st.head in table && Hop(table, st).Ok?
    ensures NoRepeats(table, seen, st, n + 1)
            <==> st.head !in seen && NoRepeats(table, seen + [st.head], Hop(table, st).value, n)
  {
    var next := Hop(table, st).value;
    forall j | 0 <= j < n
      ensures Repeats(table, seen, st, j + 1) <==> Repeats(table, seen + [st.head], next, j)
    {
      RepeatsShift(table, seen, st, j);
    }
    assert HeadAt(table, st, 0) == st.head;
    if NoRepeats(table, seen, st, n + 1) {
      assert !Repeats(table, seen, st, 0);
      forall j | 0 <= j < n ensures !Repeats(table, seen + [st.head], next, j) {
        assert !Repeats(table, seen, st, j + 1);
      }
    }
    if st.head !in seen && NoRepeats(table, seen + [st.head], next, n) {
      forall j | 0 <= j < n + 1 ensures !Repeats(table, seen, st, j) {
        if j > 0 {
          assert !Repeats(table, seen + [st.head], next, j - 1);
        }
      }
    }
  }

  /** Leaving the table within the bound, without a repeat, is what makes the loop succeed. */
  lemma {:induction false} LoopDelivers(table: Table, seen: seq<string>, st: State, fuel: nat, n: nat)
    requires n < fuel && Leaves(table, seen, st, n)
    ensures Expanded(table, seen, st, fuel) == Ok([HeadAt(table, st, n)] + After(table, st, n).value.args)
    decreases n
  {
    assert NoRepeats(table, seen, st, n + 1) && !Repeats(table, seen, st, 0);
    assert HeadAt(table, st, 0) == st.head;
    if n > 0 {
      var next := Hop(table, st).value;
      NoRepeatsShift(table, seen, st, n);
      LoopDelivers(table, seen + [st.head], next, fuel - 1, n - 1);
    }
  }

  lemma {:induction false} LoopDelivered(table: Table, seen: seq<string>, st: State, fuel: nat) returns (n: nat)
    requires Expanded(table, seen, st, fuel).Ok?
    ensures n < fuel && Leaves(table, seen, st, n)
    decreases fuel
  {
    assert HeadAt(table, st, 0) == st.head;
    if st.head !in table {
      n := 0;
    } else {
      var next := Hop(table, st).value;
      n := LoopDelivered(table, seen + [st.head], next, fuel - 1);
      assert NoRepeats(table, seen + [st.head], next, n + 1);
      NoRepeatsShift(table, seen, st, n + 1);
      n := n + 1;
    }
  }

  /** Meeting a head word twice within the bound is what makes the loop report one. */
  lemma {:induction false} LoopReported(table: Table, seen: seq<string>, st: State, fuel: nat, j: nat)
    requires j < fuel && After(table, st, j).Some? && Repeats(table, seen, st, j)
    ensures Expanded(table, seen, st, fuel).Err? && Expanded(table, seen, st, fuel).error.AliasLoop?
    decreases fuel
  {
    assert HeadAt(table, st, 0) == st.head;
    if st.head !in seen {
      assert j > 0;
      RepeatsShift(table, seen, st, j - 1);
      LoopReported(table, seen + [st.head], Hop(table, st).value, fuel - 1, j - 1);
    }
  }

  lemma {:induction false} LoopWasMet(table: Table, seen: seq<string>, st: State, fuel: nat) returns (j: nat)
    requires Expanded(table, seen, st, fuel).Err? && Expanded(table, seen, st, fuel).error.AliasLoop?
    ensures j < fuel && After(table, st, j).Some? && Repeats(table, seen, st, j)
    decreases fuel
  {
    assert HeadAt(table, st, 0) == st.head;
    if st.head in seen {
      j := 0;
    } else {
      var next := Hop(table, st).value;
      j := LoopWasMet(table, seen + [st.head], next, fuel - 1);
      RepeatsShift(table, seen, st, j);
      j := j + 1;
    }
  }

  /** Making every hop the bound allows, without a repeat, is reported as too deep. */
  lemma {:induction false} LoopGivesUp(table: Table, seen: seq<string>, st: State, fuel: nat)
    ensures Expanded(table, seen, st, fuel) == Err(TooDeep)
            <==> After(table, st, fuel).Some? && NoRepeats(table, seen, st, fuel)
    decreases fuel
  {
    if fuel > 0 {
      assert HeadAt(table, st, 0) == st.head;
      if st.head in seen {
        assert Repeats(table, seen, st, 0);
      } else if st.head in table && Hop(table, st).Ok? {
        LoopGivesUp(table, seen + [st.head], Hop(table, st).value, fuel - 1);
        NoRepeatsShift(table, seen, st, fuel - 1);
      }
    }
  }

  /**
   For every table, hand-edited ones included: expansion succeeds with `ws` exactly when the
   unbounded meaning leaves the table after at most nine aliases, all different, and `ws` is
   the command word followed by the arguments it arrived with.
   */
  lemma ExpandMeaning(table: Table, name: string, args: seq<string>, ws: seq<string>)
    ensures Expand(table, name, args) == Ok(ws)
            <==> exists n :: (0 <= n < 10 && Leaves(table, [], State(name, args), n)
                              && ws == [HeadAt(table, State(name, args), n)] + After(table, State(name, args), n).value.args)
  {
    var st := State(name, args);
    if Expand(table, name, args) == Ok(ws) {
      var n := LoopDelivered(table, [], st, MAX_DEPTH);
      LoopDelivers(table, [], st, MAX_DEPTH, n);
    }
    forall n | 0 <= n < MAX_DEPTH && Leaves(table, [], st, n)
      ensures Expand(table, name, args) == Ok([HeadAt(table, st, n)] + After(table, st, n).value.args)
    {
      LoopDelivers(table, [], st, MAX_DEPTH, n);
    }
  }

  /** A successful expansion starts with a word that is not an alias. */
  lemma ExpandEndsOutsideTable(table: Table, name: string, args: seq<string>)
    requires Expand(table, name, args).Ok?
    ensures Expand(table, name, args).value != [] && Expand(table, name, args).value[0] !in table
  {
    var n := LoopDelivered(table, [], State(name, args), MAX_DEPTH);
    LoopDelivers(table, [], State(name, args), MAX_DEPTH, n);
  }

  /** A loop is reported exactly when a head word comes up twice within the first ten. */
  lemma LoopIsReportedExactly(table: Table, name: string, args: seq<string>)
    ensures (Expand(table, name, args).Err? && Expand(table, name, args).error.AliasLoop?)
            <==> exists j :: 0 <= j < 10 && After(table, State(name, args), j).Some?
                             && Repeats(table, [], State(name, args), j)
  {
    var st := State(name, args);
    if Expand(table, name, args).Err? && Expand(table, name, args).error.AliasLoop? {
      var j := LoopWasMet(table, [], st, MAX_DEPTH);
    }
    if j :| 0 <= j < MAX_DEPTH && After(table, st, j).Some? && Repeats(table, [], st, j) {
      LoopReported(table, [], st, MAX_DEPTH, j);
    }
  }
}
