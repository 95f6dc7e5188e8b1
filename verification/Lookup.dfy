/**
 Lookups over the generated tables, and the `raw` command built lazily from them.

 The tables are sorted by (group, command), and each group names its slice of the operations.
 `raw_command` builds one leaf, one group or the list of groups, depending on what a first
 look at the command line found; the point is that nobody can tell.
 */
module Lookup {
  import opened Wrappers
  import opened Text
  import opened Ordering

  datatype Op = Op(group: string, command: string, id: string)

  datatype Group = Group(name: string, first: nat, len: nat)

  // ---------------------------------------------------------------- searching the tables

  predicate KeyBelow(g: string, c: string, h: string, d: string) {
    Below(g, h) || (g == h && Below(c, d))
  }

  predicate OpBelow(a: Op, b: Op) {
    KeyBelow(a.group, a.command, b.group, b.command)
  }

  predicate Is(op: Op, g: string, c: string) {
    op.group == g && op.command == c
  }

  predicate SortedOps(ops: seq<Op>) {
    forall i, j | 0 <= i < j < |ops| :: !OpBelow(ops[j], ops[i])
  }

  predicate UniqueOps(ops: seq<Op>) {
    forall i, j | 0 <= i < j < |ops| :: !Is(ops[j], ops[i].group, ops[i].command)
  }

  predicate SortedGroups(groups: seq<Group>) {
    forall i, j | 0 <= i < j < |groups| :: Below(groups[i].name, groups[j].name)
  }

  lemma KeyBelowTransitive(g: string, c: string, h: string, d: string, k: string, e: string)
    requires KeyBelow(g, c, h, d) && KeyBelow(h, d, k, e)
    ensures KeyBelow(g, c, k, e)
  {
    if Below(g, h) && Below(h, k) {
      BelowTransitive(g, h, k);
    } else if g == h == k {
      BelowTransitive(c, d, e);
    }
  }

  lemma KeyBelowTotal(g: string, c: string, h: string, d: string)
    ensures KeyBelow(g, c, h, d) || (g == h && c == d) || KeyBelow(h, d, g, c)
  {
    BelowTotal(g, h);
    BelowTotal(c, d);
  }

  lemma KeyBelowIrreflexive(g: string, c: string)
    ensures !KeyBelow(g, c, g, c)
  {
    BelowIrreflexive(g);
    BelowIrreflexive(c);
  }

  /** In a sorted table, everything before a lesser entry is lesser too. */
  lemma BeforeLesser(ops: seq<Op>, mid: nat, g: string, c: string)
    requires SortedOps(ops) && mid < |ops| && KeyBelow(ops[mid].group, ops[mid].command, g, c)
    ensures forall i | 0 <= i <= mid :: !Is(ops[i], g, c)
  {
    forall i | 0 <= i <= mid ensures !Is(ops[i], g, c) {
      KeyBelowIrreflexive(g, c);
      assert i < mid ==> !OpBelow(ops[mid], ops[i]);
    }
  }

  lemma AfterGreater(ops: seq<Op>, mid: nat, g: string, c: string)
    requires SortedOps(ops) && mid < |ops| && KeyBelow(g, c, ops[mid].group, ops[mid].command)
    ensures forall i | mid <= i < |ops| :: !Is(ops[i], g, c)
  {
    forall i | mid <= i < |ops| ensures !Is(ops[i], g, c) {
      KeyBelowIrreflexive(g, c);
      assert mid < i ==> !OpBelow(ops[i], ops[mid]);
    }
  }

  /** The first entry for a pair, by looking at all of them. */
  function LinearOp(ops: seq<Op>, g: string, c: string): Option<Op> {
    if ops == [] then None else if Is(ops[0], g, c) then Some(ops[0]) else LinearOp(ops[1..], g, c)
  }

  lemma {:induction false} LinearFinds(ops: seq<Op>, g: string, c: string, i: nat)
    requires UniqueOps(ops) && i < |ops| && Is(ops[i], g, c)
    ensures LinearOp(ops, g, c) == Some(ops[i])
  {
    if i > 0 {
      assert !Is(ops[i], ops[0].group, ops[0].command);
      assert ops[1..][i - 1] == ops[i];
      TailIsUnique(ops);
      LinearFinds(ops[1..], g, c, i - 1);
    }
  }

  lemma TailIsUnique(ops: seq<Op>)
    requires UniqueOps(ops) && ops != []
    ensures UniqueOps(ops[1..])
  {
    var t := ops[1..];
    forall i, j | 0 <= i < j < |t| ensures !Is(t[j], t[i].group, t[i].command) {
      assert t[i] == ops[i + 1] && t[j] == ops[j + 1];
    }
  }

  lemma {:induction false} LinearFindsNone(ops: seq<Op>, g: string, c: string)
    requires forall i | 0 <= i < |ops| :: !Is(ops[i], g, c)
    ensures LinearOp(ops, g, c) == None
  {
    if ops != [] {
      assert forall i | 0 <= i < |ops| - 1 :: ops[1..][i] == ops[i + 1];
      LinearFindsNone(ops[1..], g, c);
    }
  }

  /** `lookup::op`: a binary search, which needs the table sorted and is then exact. */
  method FindOp(ops: seq<Op>, g: string, c: string) returns (r: Option<Op>)
    requires SortedOps(ops)
    ensures r.Some? ==> r.value in ops && Is(r.value, g, c)
    ensures r.None? ==> forall i | 0 <= i < |ops| :: !Is(ops[i], g, c)
    ensures UniqueOps(ops) ==> r == LinearOp(ops, g, c)
  {
    hide KeyBelow, UniqueOps, LinearOp;
    var lo, hi := 0, |ops|;
    while lo < hi
      invariant 0 <= lo <= hi <= |ops|
      invariant forall i | 0 <= i < |ops| && !(lo <= i < hi) :: !Is(ops[i], g, c)
    {
      var mid := lo + (hi - lo) / 2;
      if Is(ops[mid], g, c) {
        if UniqueOps(ops) {
          LinearFinds(ops, g, c, mid);
        }
        return Some(ops[mid]);
      } else if KeyBelow(ops[mid].group, ops[mid].command, g, c) {
        BeforeLesser(ops, mid, g, c);
        lo := mid + 1;
      } else {
        KeyBelowTotal(ops[mid].group, ops[mid].command, g, c);
        AfterGreater(ops, mid, g, c);
        hi := mid;
      }
    }
    LinearFindsNone(ops, g, c);
    r := None;
  }

  /** `lookup::group`. */
  method FindGroup(groups: seq<Group>, name: string) returns (r: Option<Group>)
    requires SortedGroups(groups)
    ensures r.Some? ==> r.value in groups && r.value.name == name
    ensures r.None? ==> forall g | g in groups :: g.name != name
  {
    hide Below;
    var lo, hi := 0, |groups|;
    while lo < hi
      invariant 0 <= lo <= hi <= |groups|
      invariant forall i | 0 <= i < |groups| && !(lo <= i < hi) :: groups[i].name != name
    {
      var mid := lo + (hi - lo) / 2;
      if groups[mid].name == name {
        return Some(groups[mid]);
      } else if Below(groups[mid].name, name) {
        BelowAsymmetric(groups[mid].name, name);
        lo := mid + 1;
      } else {
        BelowTotal(groups[mid].name, name);
        hi := mid;
      }
    }
    r := None;
  }

  // ------------------------------------------------------------------------- the slices

  /** Where the slices of `groups` start, when they start at `at` and leave no gap. */
  predicate TilesFrom(ops: seq<Op>, groups: seq<Group>, at: nat) {
    if groups == [] then at == |ops|
    else
      var g := groups[0];
      && g.first == at && at + g.len <= |ops|
      && (forall i | at <= i < at + g.len :: ops[i].group == g.name)
      && TilesFrom(ops, groups[1..], at + g.len)
  }

  predicate Tables(ops: seq<Op>, groups: seq<Group>) {
    SortedOps(ops) && UniqueOps(ops) && SortedGroups(groups) && TilesFrom(ops, groups, 0)
  }

  /** The operations of a group, by looking at all of them. */
  function OfGroup(ops: seq<Op>, name: string): seq<Op> {
    if ops == [] then []
    else (if ops[0].group == name then [ops[0]] else []) + OfGroup(ops[1..], name)
  }

  /** `lookup::ops_in`. */
  function OpsIn(ops: seq<Op>, g: Group): seq<Op>
    requires g.first + g.len <= |ops|
  {
    ops[g.first..g.first + g.len]
  }

  lemma {:induction false} OfGroupAppend(a: seq<Op>, b: seq<Op>, name: string)
    ensures OfGroup(a + b, name) == OfGroup(a, name) + OfGroup(b, name)
  {
    if a == [] {
      assert a + b == b;
    } else {
      var rest := a[1..];
      OfGroupAppend(rest, b, name);
      assert (a + b)[0] == a[0] && (a + b)[1..] == rest + b;
      var first := if a[0].group == name then [a[0]] else [];
      assert OfGroup(a + b, name) == first + OfGroup(rest + b, name);
      assert OfGroup(a, name) == first + OfGroup(rest, name);
      hide OfGroup;
      Associate(first, OfGroup(rest, name), OfGroup(b, name));
    }
  }

  lemma {:induction false} OfGroupAll(ops: seq<Op>, name: string)
    requires forall op | op in ops :: op.group == name
    ensures OfGroup(ops, name) == ops
  {
    if ops != [] {
      OfGroupAll(ops[1..], name);
    }
  }

  lemma {:induction false} OfGroupNone(ops: seq<Op>, name: string)
    requires forall op | op in ops :: op.group != name
    ensures OfGroup(ops, name) == []
  {
    if ops != [] {
      OfGroupNone(ops[1..], name);
    }
  }

  predicate NamesDiffer(groups: seq<Group>, name: string) {
    forall g | g in groups :: g.name != name
  }

  lemma {:induction false} TileFits(ops: seq<Op>, groups: seq<Group>, at: nat, g: Group)
    requires TilesFrom(ops, groups, at) && g in groups
    ensures g.first + g.len <= |ops|
  {
    if g != groups[0] {
      TileFits(ops, groups[1..], at + groups[0].len, g);
    }
  }

  /** Slices that belong to other names hold nothing of this one. */
  lemma {:induction false} TilesOfOthers(ops: seq<Op>, groups: seq<Group>, at: nat, name: string)
    requires TilesFrom(ops, groups, at) && NamesDiffer(groups, name)
    ensures at <= |ops| && OfGroup(ops[at..], name) == []
    decreases |groups|
  {
    if groups == [] {
      assert ops[at..] == [];
    } else {
      var g := groups[0];
      TilesOfOthers(ops, groups[1..], at + g.len, name);
      assert ops[at..] == ops[at..at + g.len] + ops[at + g.len..];
      OfGroupAppend(ops[at..at + g.len], ops[at + g.len..], name);
      OfGroupNone(ops[at..at + g.len], name);
    }
  }

  lemma {:induction false} SliceIsTheRest(ops: seq<Op>, groups: seq<Group>, at: nat, g: Group)
    requires SortedGroups(groups) && TilesFrom(ops, groups, at) && g in groups
    ensures at <= |ops| && g.first + g.len <= |ops| && OpsIn(ops, g) == OfGroup(ops[at..], g.name)
    decreases |groups|
  {
    hide OfGroup, Below;
    var h, rest := groups[0], groups[1..];
    var here, there := ops[at..at + h.len], ops[at + h.len..];
    assert ops[at..] == here + there;
    OfGroupAppend(here, there, g.name);
    GroupsDiffer(groups);
    assert SortedGroups(rest);
    if g == h {
      OfGroupAll(here, g.name);
      TilesOfOthers(ops, rest, at + h.len, g.name);
    } else {
      assert g in rest;
      OfGroupNone(here, g.name);
      SliceIsTheRest(ops, rest, at + h.len, g);
    }
  }

  lemma GroupsDiffer(groups: seq<Group>)
    requires SortedGroups(groups) && groups != []
    ensures SortedGroups(groups[1..]) && NamesDiffer(groups[1..], groups[0].name)
  {
    forall g | g in groups[1..] ensures g.name != groups[0].name {
      BelowIrreflexive(g.name);
    }
  }

  /** A group's slice is exactly its operations, in table order. */
  lemma SliceIsTheGroup(ops: seq<Op>, groups: seq<Group>, g: Group)
    requires Tables(ops, groups) && g in groups
    ensures g.first + g.len <= |ops| && OpsIn(ops, g) == OfGroup(ops, g.name)
  {
    SliceIsTheRest(ops, groups, 0, g);
    assert ops[0..] == ops;
  }
}
