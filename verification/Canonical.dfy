/**
 The canonical form of a spec document: pinned version and base path, keys sorted at every
 depth.

 A `Document` keeps its keys in the order they were written, as the source's JSON maps do.
 What it means, with that order forgotten, is a `Json` value; a canonical form is one text
 for each meaning.
 */
module Canonical {
  import opened Wrappers
  import opened Ordering
  import opened Text
  import JsonTree

  datatype Document =
    | Null
    | Bool(b: bool)
    | Num(n: int)
    | Str(s: string)
    | Arr(items: seq<Document>)
    | Obj(members: seq<Member>)

  datatype Member = Member(key: string, value: Document)

  function Meaning(d: Document): JsonTree.Json {
    match d
    case Null => JsonTree.Null
    case Bool(b) => JsonTree.Bool(b)
    case Num(n) => JsonTree.Num(n)
    case Str(s) => JsonTree.Str(s)
    case Arr(items) => JsonTree.Arr(MeaningOfItems(items))
    case Obj(members) => JsonTree.Obj(MeaningOfMembers(members))
  }

  function MeaningOfItems(items: seq<Document>): (r: seq<JsonTree.Json>)
    ensures |r| == |items|
  {
    if items == [] then [] else [Meaning(items[0])] + MeaningOfItems(items[1..])
  }

  function MeaningOfMembers(members: seq<Member>): map<string, JsonTree.Json> {
    if members == [] then map[]
    else MeaningOfMembers(members[1..])[members[0].key := Meaning(members[0].value)]
  }

  /** No object names a key twice; the source's map type guarantees it. */
  predicate Unique(d: Document) {
    match d
    case Arr(items) => UniqueItems(items)
    case Obj(members) => UniqueMembers(members)
    case _ => true
  }

  predicate UniqueItems(items: seq<Document>) {
    items == [] || (Unique(items[0]) && UniqueItems(items[1..]))
  }

  predicate UniqueMembers(members: seq<Member>) {
    members == []
    || (members[0].key !in Keys(members[1..]) && Unique(members[0].value) && UniqueMembers(members[1..]))
  }

  function Keys(members: seq<Member>): set<string> {
    set m | m in members :: m.key
  }

  /** Keys strictly ascending, at every depth. */
  predicate Ascending(d: Document) {
    match d
    case Arr(items) => AscendingItems(items)
    case Obj(members) => AscendingMembers(members)
    case _ => true
  }

  predicate AscendingItems(items: seq<Document>) {
    items == [] || (Ascending(items[0]) && AscendingItems(items[1..]))
  }

  predicate AscendingMembers(members: seq<Member>)
    decreases members, 1
  {
    KeysAscend(members) && ValuesAscend(members)
  }

  predicate KeysAscend(members: seq<Member>) {
    members == [] || (BelowAll(members[0].key, members[1..]) && KeysAscend(members[1..]))
  }

  predicate ValuesAscend(members: seq<Member>)
    decreases members, 0
  {
    members == [] || (Ascending(members[0].value) && ValuesAscend(members[1..]))
  }

  predicate BelowAll(key: string, members: seq<Member>) {
    forall m | m in members :: Below(key, m.key)
  }

  // ------------------------------------------------------------------------ sort_keys

  /** A `BTreeMap` insertion: into place, or over the entry with that key. */
  function Placed(sorted: seq<Member>, m: Member): seq<Member> {
    if sorted == [] then [m]
    else if sorted[0].key == m.key then [m] + sorted[1..]
    else if Below(m.key, sorted[0].key) then [m] + sorted
    else [sorted[0]] + Placed(sorted[1..], m)
  }

  function SortKeys(d: Document): Document {
    match d
    case Arr(items) => Arr(SortItems(items))
    case Obj(members) => Obj(SortMembers(members))
    case _ => d
  }

  function SortItems(items: seq<Document>): (r: seq<Document>)
  {
    if items == [] then [] else [SortKeys(items[0])] + SortItems(items[1..])
  }

  /** The members with their values sorted inside, put in key order from the last to the first. */
  function SortMembers(members: seq<Member>): seq<Member> {
    if members == [] then []
    else Placed(SortMembers(members[1..]), Member(members[0].key, SortKeys(members[0].value)))
  }

  // ------------------------------------------------------------------ what sorting keeps

  lemma KeysCons(m: Member, rest: seq<Member>)
    ensures Keys([m] + rest) == Keys(rest) + {m.key}
  {
    assert forall x :: x in [m] + rest <==> x == m || x in rest;
  }

  lemma {:induction false} PlacedKeys(sorted: seq<Member>, m: Member)
    ensures Keys(Placed(sorted, m)) == Keys(sorted) + {m.key}
  {
    if sorted != [] {
      var s, rest := sorted[0], sorted[1..];
      assert sorted == [s] + rest;
      KeysCons(s, rest);
      KeysCons(m, rest);
      KeysCons(m, sorted);
      PlacedKeys(rest, m);
      KeysCons(s, Placed(rest, m));
    } else {
      KeysCons(m, []);
    }
  }

  lemma UpdatesSwap<K, V>(m: map<K, V>, a: K, x: V, b: K, y: V)
    requires a != b
    ensures m[a := x][b := y] == m[b := y][a := x]
  {
  }

  lemma {:induction false} PlacedMembers(sorted: seq<Member>, m: Member, x: Member)
    requires x in Placed(sorted, m)
    ensures x == m || x in sorted
  {
    if sorted != [] && sorted[0].key != m.key && !Below(m.key, sorted[0].key) && x != sorted[0] {
      PlacedMembers(sorted[1..], m, x);
    }
  }

  lemma {:induction false} PlacedMeaning(sorted: seq<Member>, m: Member)
    requires m.key !in Keys(sorted)
    ensures MeaningOfMembers(Placed(sorted, m)) == MeaningOfMembers(sorted)[m.key := Meaning(m.value)]
  {
    if sorted == [] {
      assert [m][1..] == [];
    } else {
      var s, rest := sorted[0], sorted[1..];
      assert sorted == [s] + rest;
      KeysCons(s, rest);
      if Below(m.key, s.key) {
        assert ([m] + sorted)[1..] == sorted;
      } else {
        PlacedMeaning(rest, m);
        assert ([s] + Placed(rest, m))[1..] == Placed(rest, m);
        UpdatesSwap(MeaningOfMembers(rest), m.key, Meaning(m.value), s.key, Meaning(s.value));
      }
    }
  }

  lemma {:induction false} SortedKeys(members: seq<Member>)
    ensures Keys(SortMembers(members)) == Keys(members)
  {
    if members != [] {
      var m, rest := members[0], members[1..];
      assert members == [m] + rest;
      hide Placed;
      SortedKeys(rest);
      KeysCons(m, rest);
      PlacedKeys(SortMembers(rest), Member(m.key, SortKeys(m.value)));
    }
  }

  /** Sorting changes nothing a reader of the document can see: lookups and array order. */
  lemma {:induction false} SortKeepsMeaning(d: Document)
    requires Unique(d)
    ensures Meaning(SortKeys(d)) == Meaning(d)
  {
    match d
    case Arr(items) => SortKeepsItems(items);
    case Obj(members) => SortKeepsMembers(members);
    case _ =>
  }

  lemma {:induction false} SortKeepsItems(items: seq<Document>)
    requires UniqueItems(items)
    ensures MeaningOfItems(SortItems(items)) == MeaningOfItems(items)
  {
    if items != [] {
      SortKeepsMeaning(items[0]);
      SortKeepsItems(items[1..]);
      assert SortItems(items)[1..] == SortItems(items[1..]);
    }
  }

  lemma {:induction false} SortKeepsMembers(members: seq<Member>)
    requires UniqueMembers(members)
    ensures MeaningOfMembers(SortMembers(members)) == MeaningOfMembers(members)
  {
    if members != [] {
      hide Placed, Keys;
      var m, rest := members[0], members[1..];
      SortKeepsMeaning(m.value);
      SortKeepsMembers(rest);
      SortedKeys(rest);
      PlacedMeaning(SortMembers(rest), Member(m.key, SortKeys(m.value)));
    }
  }

  // ------------------------------------------------------------------- ascending results

  lemma {:induction false} PlacedValuesAscend(sorted: seq<Member>, m: Member)
    requires ValuesAscend(sorted) && Ascending(m.value)
    ensures ValuesAscend(Placed(sorted, m))
  {
    if sorted == [] {
      assert [m][1..] == [];
    } else {
      assert ([m] + sorted[1..])[1..] == sorted[1..] && ([m] + sorted)[1..] == sorted;
      PlacedValuesAscend(sorted[1..], m);
      assert ([sorted[0]] + Placed(sorted[1..], m))[1..] == Placed(sorted[1..], m);
    }
  }

  lemma BelowAllOf(key: string, sorted: seq<Member>)
    requires sorted != [] && Below(key, sorted[0].key) && BelowAll(sorted[0].key, sorted[1..])
    ensures BelowAll(key, sorted)
  {
    hide Below;
    forall x | x in sorted ensures Below(key, x.key) {
      if x != sorted[0] {
        assert x in sorted[1..];
        BelowTransitive(key, sorted[0].key, x.key);
      }
    }
  }

  lemma BelowAllPlaced(key: string, rest: seq<Member>, m: Member)
    requires Below(key, m.key) && BelowAll(key, rest)
    ensures BelowAll(key, Placed(rest, m))
  {
    hide Below, Placed;
    forall x | x in Placed(rest, m) ensures Below(key, x.key) {
      PlacedMembers(rest, m, x);
    }
  }

  lemma {:induction false} PlacedKeysAscend(sorted: seq<Member>, m: Member)
    requires KeysAscend(sorted)
    ensures KeysAscend(Placed(sorted, m))
  {
    hide Below, BelowAll;
    if sorted == [] {
      assert [m][1..] == [];
      assert BelowAll(m.key, []) by { NothingIsBelow(m.key); }
    } else {
      var s, rest := sorted[0], sorted[1..];
      if s.key == m.key {
        assert ([m] + rest)[1..] == rest;
      } else if Below(m.key, s.key) {
        assert ([m] + sorted)[1..] == sorted;
        BelowAllOf(m.key, sorted);
      } else {
        BelowTotal(m.key, s.key);
        PlacedKeysAscend(rest, m);
        BelowAllPlaced(s.key, rest, m);
        assert ([s] + Placed(rest, m))[1..] == Placed(rest, m);
      }
    }
  }

  lemma NothingIsBelow(key: string)
    ensures BelowAll(key, [])
  {
  }

  lemma PlacedAscends(sorted: seq<Member>, m: Member)
    requires AscendingMembers(sorted) && Ascending(m.value)
    ensures AscendingMembers(Placed(sorted, m))
  {
    PlacedKeysAscend(sorted, m);
    PlacedValuesAscend(sorted, m);
  }

  /** The result is in ascending key order at every depth. */
  lemma {:induction false} SortAscends(d: Document)
    ensures Ascending(SortKeys(d))
  {
    match d
    case Arr(items) => SortItemsAscend(items);
    case Obj(members) => SortMembersAscend(members);
    case _ =>
  }

  lemma {:induction false} SortItemsAscend(items: seq<Document>)
    ensures AscendingItems(SortItems(items))
  {
    if items != [] {
      SortAscends(items[0]);
      SortItemsAscend(items[1..]);
      assert SortItems(items)[1..] == SortItems(items[1..]);
    }
  }

  lemma {:induction false} SortMembersAscend(members: seq<Member>)
    ensures AscendingMembers(SortMembers(members))
  {
    if members != [] {
      hide Placed, AscendingMembers;
      SortAscends(members[0].value);
      SortMembersAscend(members[1..]);
      PlacedAscends(SortMembers(members[1..]), Member(members[0].key, SortKeys(members[0].value)));
    } else {
      assert SortMembers(members) == [];
    }
  }

  // ----------------------------------------------------------- one form for each meaning

  lemma {:induction false} MeaningKeys(members: seq<Member>)
    ensures MeaningOfMembers(members).Keys == Keys(members)
  {
    if members != [] {
      assert members == [members[0]] + members[1..];
      KeysCons(members[0], members[1..]);
      MeaningKeys(members[1..]);
    }
  }

  /** Two documents in ascending key order with the same meaning are the same text. */
  lemma {:induction false} AscendingIsDetermined(a: Document, b: Document)
    requires Ascending(a) && Ascending(b) && Meaning(a) == Meaning(b)
    ensures a == b
  {
    match a
    case Arr(items) => ItemsDetermined(items, b.items);
    case Obj(members) => MembersDetermined(members, b.members);
    case _ =>
  }

  lemma {:induction false} ItemsDetermined(a: seq<Document>, b: seq<Document>)
    requires AscendingItems(a) && AscendingItems(b) && MeaningOfItems(a) == MeaningOfItems(b)
    ensures a == b
  {
    assert |a| == |MeaningOfItems(a)| == |b|;
    if a != [] {
      var ma, mb := MeaningOfItems(a), MeaningOfItems(b);
      assert ma[0] == Meaning(a[0]) && mb[0] == Meaning(b[0]);
      assert ma[1..] == MeaningOfItems(a[1..]) && mb[1..] == MeaningOfItems(b[1..]);
      AscendingIsDetermined(a[0], b[0]);
      ItemsDetermined(a[1..], b[1..]);
      assert a == [a[0]] + a[1..] && b == [b[0]] + b[1..];
    }
  }

  /** The first key of an ascending object is the least one. */
  lemma FirstKeyAgrees(a: seq<Member>, b: seq<Member>)
    requires AscendingMembers(a) && AscendingMembers(b) && Keys(a) == Keys(b)
    ensures a == [] <==> b == []
    ensures a != [] ==> a[0].key == b[0].key
  {
    if a != [] {
      assert a[0].key in Keys(b);
    }
    if b != [] {
      assert b[0].key in Keys(a);
    }
    if a != [] && a[0].key != b[0].key {
      var x :| x in a && x.key == b[0].key;
      var y :| y in b && y.key == a[0].key;
      assert x in a[1..] && y in b[1..];
      BelowAsymmetric(a[0].key, x.key);
    }
  }

  lemma {:induction false} MembersDetermined(a: seq<Member>, b: seq<Member>)
    requires AscendingMembers(a) && AscendingMembers(b) && MeaningOfMembers(a) == MeaningOfMembers(b)
    ensures a == b
  {
    MeaningKeys(a);
    MeaningKeys(b);
    FirstKeyAgrees(a, b);
    if a != [] {
      assert MeaningOfMembers(a)[a[0].key] == Meaning(a[0].value);
      assert MeaningOfMembers(b)[b[0].key] == Meaning(b[0].value);
      AscendingIsDetermined(a[0].value, b[0].value);
      RestDetermined(a);
      RestDetermined(b);
      MembersDetermined(a[1..], b[1..]);
      assert a == [a[0]] + a[1..] && b == [b[0]] + b[1..];
    }
  }

  lemma RestDetermined(members: seq<Member>)
    requires members != [] && AscendingMembers(members)
    ensures MeaningOfMembers(members[1..]) == MeaningOfMembers(members) - {members[0].key}
  {
    hide Meaning;
    var rest := members[1..];
    MeaningKeys(rest);
    FirstKeyIsNotAmong(members);
    var all, fewer := MeaningOfMembers(members), MeaningOfMembers(rest);
    assert all == fewer[members[0].key := Meaning(members[0].value)];
    hide MeaningOfMembers;
    assert all - {members[0].key} == fewer;
  }

  lemma FirstKeyIsNotAmong(members: seq<Member>)
    requires members != [] && AscendingMembers(members)
    ensures members[0].key !in Keys(members[1..])
  {
    BelowIrreflexive(members[0].key);
    assert BelowAll(members[0].key, members[1..]);
  }

  /** Sorting an ascending document leaves it alone; so sorting twice is sorting once. */
  lemma SortIsIdempotent(d: Document)
    requires Unique(d)
    ensures SortKeys(SortKeys(d)) == SortKeys(d)
  {
    SortAscends(d);
    AscendingIsUnique(SortKeys(d));
    SortAscends(SortKeys(d));
    SortKeepsMeaning(SortKeys(d));
    AscendingIsDetermined(SortKeys(SortKeys(d)), SortKeys(d));
  }

  lemma {:induction false} AscendingIsUnique(d: Document)
    requires Ascending(d)
    ensures Unique(d)
  {
    match d
    case Arr(items) => AscendingItemsUnique(items);
    case Obj(members) => AscendingMembersUnique(members);
    case _ =>
  }

  lemma {:induction false} AscendingItemsUnique(items: seq<Document>)
    requires AscendingItems(items)
    ensures UniqueItems(items)
  {
    if items != [] {
      AscendingIsUnique(items[0]);
      AscendingItemsUnique(items[1..]);
    }
  }

  lemma {:induction false} AscendingMembersUnique(members: seq<Member>)
    requires AscendingMembers(members)
    ensures UniqueMembers(members)
  {
    if members != [] {
      AscendingIsUnique(members[0].value);
      AscendingMembersUnique(members[1..]);
      BelowIrreflexive(members[0].key);
    }
  }

  /** Two documents sort to the same text exactly when they differ in key order at most. */
  lemma SortIsCanonical(a: Document, b: Document)
    requires Unique(a) && Unique(b)
    ensures SortKeys(a) == SortKeys(b) <==> Meaning(a) == Meaning(b)
  {
    SortKeepsMeaning(a);
    SortKeepsMeaning(b);
    if Meaning(a) == Meaning(b) {
      SortAscends(a);
      SortAscends(b);
      AscendingIsDetermined(SortKeys(a), SortKeys(b));
    }
  }

  // ------------------------------------------------------------------ the source's loops

  function SortEach(members: seq<Member>): seq<Member> {
    if members == [] then []
    else [Member(members[0].key, SortKeys(members[0].value))] + SortEach(members[1..])
  }

  lemma SortEachStep(tree: seq<Member>, k: nat)
    requires k < |tree| && UniqueMembers(tree[k..])
    ensures Unique(tree[k].value) && UniqueMembers(tree[k + 1..]) && tree[k] in tree
    ensures SortEach(tree[k..]) == [Member(tree[k].key, SortKeys(tree[k].value))] + SortEach(tree[k + 1..])
  {
    hide SortKeys;
    assert tree[k..][0] == tree[k] && tree[k..][1..] == tree[k + 1..];
  }

  lemma SortEachEnds(tree: seq<Member>)
    requires tree == []
    ensures SortEach(tree) == []
  {
  }

  lemma {:induction false} SortEachKeeps(members: seq<Member>)
    requires UniqueMembers(members)
    ensures MeaningOfMembers(SortEach(members)) == MeaningOfMembers(members)
    ensures ValuesAscend(SortEach(members)) && Keys(SortEach(members)) == Keys(members)
    ensures KeysAscend(members) ==> KeysAscend(SortEach(members))
  {
    if members != [] {
      var m, rest := members[0], members[1..];
      SortKeepsMeaning(m.value);
      SortAscends(m.value);
      SortEachKeeps(rest);
      var each := SortEach(rest);
      assert SortEach(members)[1..] == each && members == [m] + rest;
      KeysCons(m, rest);
      KeysCons(Member(m.key, SortKeys(m.value)), each);
      if KeysAscend(members) {
        forall x | x in each ensures Below(m.key, x.key) {
          assert x.key in Keys(rest);
          var y :| y in rest && y.key == x.key;
        }
      }
    }
  }

  lemma {:induction false} MeaningAppend(members: seq<Member>, m: Member)
    requires m.key !in Keys(members)
    ensures MeaningOfMembers(members + [m]) == MeaningOfMembers(members)[m.key := Meaning(m.value)]
  {
    if members == [] {
      assert [] + [m] == [m] && [m][1..] == [];
    } else {
      var s, rest := members[0], members[1..];
      assert members == [s] + rest && (members + [m])[1..] == rest + [m];
      KeysCons(s, rest);
      MeaningAppend(rest, m);
      UpdatesSwap(MeaningOfMembers(rest), m.key, Meaning(m.value), s.key, Meaning(s.value));
    }
  }

  lemma {:induction false} UniqueAt(members: seq<Member>, i: nat)
    requires UniqueMembers(members) && i < |members|
    ensures members[i].key !in Keys(members[..i]) && Unique(members[i].value)
    ensures Keys(members[..i + 1]) == Keys(members[..i]) + {members[i].key}
  {
    assert members[..i + 1] == members[..i] + [members[i]];
    assert forall x :: x in members[..i + 1] <==> x in members[..i] || x == members[i];
    if i > 0 {
      UniqueAt(members[1..], i - 1);
      assert members[..i] == [members[0]] + members[1..][..i - 1];
      KeysCons(members[0], members[1..][..i - 1]);
      assert members[i] in members[1..];
    }
  }

  lemma {:induction false} ValuesUnique(members: seq<Member>)
    requires KeysAscend(members) && forall m | m in members :: Unique(m.value)
    ensures UniqueMembers(members)
  {
    if members != [] {
      assert members[0] in members;
      ValuesUnique(members[1..]);
      BelowIrreflexive(members[0].key);
    }
  }

  /** Into a `BTreeMap`, entry by entry. */
  method Collect(members: seq<Member>) returns (tree: seq<Member>)
    requires UniqueMembers(members)
    ensures KeysAscend(tree) && UniqueMembers(tree)
    ensures forall m | m in tree :: m in members
    ensures MeaningOfMembers(tree) == MeaningOfMembers(members)
  {
    hide Placed, KeysAscend, MeaningOfMembers, UniqueMembers, Keys, Unique;
    assert KeysAscend([]) && MeaningOfMembers([]) == MeaningOfMembers(members[..0]) by { Nothing(members); }
    tree := [];
    var i := 0;
    while i < |members|
      invariant 0 <= i <= |members|
      invariant KeysAscend(tree) && Keys(tree) == Keys(members[..i])
      invariant forall m | m in tree :: m in members && Unique(m.value)
      invariant MeaningOfMembers(tree) == MeaningOfMembers(members[..i])
    {
      UniqueAt(members, i);
      ghost var m := members[i];
      forall x | x in Placed(tree, m) ensures x in members && Unique(x.value) {
        PlacedMembers(tree, m, x);
      }
      PlacedKeys(tree, m);
      PlacedKeysAscend(tree, m);
      PlacedMeaning(tree, m);
      MeaningAppend(members[..i], m);
      assert members[..i + 1] == members[..i] + [m];
      tree := Placed(tree, members[i]);
      i := i + 1;
    }
    assert members[..i] == members;
    ValuesUnique(tree);
  }

  lemma Nothing(members: seq<Member>)
    ensures KeysAscend([]) && MeaningOfMembers([]) == MeaningOfMembers(members[..0])
  {
    assert members[..0] == [];
  }

  lemma CollectedIsSorted(members: seq<Member>, tree: seq<Member>)
    requires UniqueMembers(members) && UniqueMembers(tree) && KeysAscend(tree)
    requires MeaningOfMembers(tree) == MeaningOfMembers(members)
    ensures Obj(SortEach(tree)) == SortKeys(Obj(members))
  {
    SortEachKeeps(tree);
    SortKeepsMeaning(Obj(members));
    SortAscends(Obj(members));
    AscendingIsDetermined(Obj(SortEach(tree)), SortKeys(Obj(members)));
  }

  /** Every object into a `BTreeMap` and out of it again in order, values sorted on the way. */
  method Sort(d: Document) returns (r: Document)
    requires Unique(d)
    ensures r == SortKeys(d)
    decreases d
  {
    match d
    case Arr(items) =>
      var out := SortArray(d);
      return Arr(out);
    case Obj(members) =>
      hide SortMembers, SortItems, MeaningOfMembers, KeysAscend, SortEach, UniqueMembers;
      var tree := Collect(members);
      var out: seq<Member> := [];
      var k := 0;
      while k < |tree|
        invariant 0 <= k <= |tree|
        invariant UniqueMembers(tree[k..])
        invariant out + SortEach(tree[k..]) == SortEach(tree)
      {
        SortEachStep(tree, k);
        var value := Sort(tree[k].value);
        ghost var later := SortEach(tree[k + 1..]);
        Associate(out, [Member(tree[k].key, value)], later);
        out := out + [Member(tree[k].key, value)];
        k := k + 1;
      }
      SortEachEnds(tree[k..]);
      assert out + [] == out;
      CollectedIsSorted(members, tree);
      return Obj(out);
    case _ =>
      return d;
  }

  method SortArray(d: Document) returns (out: seq<Document>)
    requires d.Arr? && UniqueItems(d.items)
    ensures out == SortItems(d.items)
    decreases d, 0
  {
    out := [];
    var i := 0;
    while i < |d.items|
      invariant 0 <= i <= |d.items|
      invariant UniqueItems(d.items[i..])
      invariant out + SortItems(d.items[i..]) == SortItems(d.items)
    {
      assert d.items[i..][0] == d.items[i] && d.items[i..][1..] == d.items[i + 1..];
      var item := Sort(d.items[i]);
      out := out + [item];
      i := i + 1;
    }
    assert d.items[i..] == [] && out + [] == out;
  }

  // ---------------------------------------------------------------------- canonicalize

  const BASE_PATH := "/api/v1"

  datatype CanonicalError = RootNotAnObject | NoInfo

  function Lookup(members: seq<Member>, key: string): Option<Document> {
    if members == [] then None
    else if members[0].key == key then Some(members[0].value)
    else Lookup(members[1..], key)
  }

  /** Insertion into an order-keeping map: over the entry with that key, or at the end. */
  function InsertMember(members: seq<Member>, key: string, value: Document): seq<Member> {
    if members == [] then [Member(key, value)]
    else if members[0].key == key then [Member(key, value)] + members[1..]
    else [members[0]] + InsertMember(members[1..], key, value)
  }

  /** The document with its two pinned values in place. */
  function Pinned(d: Document, version: string): Result<Document, CanonicalError> {
    if !d.Obj? then Err(RootNotAnObject)
    else
      match Lookup(d.members, "info")
      case Some(Obj(info)) =>
        var withVersion := InsertMember(d.members, "info", Obj(InsertMember(info, "version", Str(version))));
        Ok(Obj(InsertMember(withVersion, "basePath", Str(BASE_PATH))))
      case _ => Err(NoInfo)
  }

  /** `canonicalize` from the parsed document on. */
  method Canonicalize(d: Document, version: string) returns (r: Result<Document, CanonicalError>)
    requires Unique(d)
    ensures match Pinned(d, version)
            case Err(e) => r == Err(e)
            case Ok(pinned) => r == Ok(SortKeys(pinned))
  {
    if !d.Obj? {
      return Err(RootNotAnObject);
    }
    var info := Lookup(d.members, "info");
    if info.None? || !info.value.Obj? {
      return Err(NoInfo);
    }
    var members := InsertMember(d.members, "info", Obj(InsertMember(info.value.members, "version", Str(version))));
    members := InsertMember(members, "basePath", Str(BASE_PATH));
    PinnedIsUnique(d, version);
    var sorted := Sort(Obj(members));
    return Ok(sorted);
  }

  lemma {:induction false} InsertMeans(members: seq<Member>, key: string, value: Document)
    requires UniqueMembers(members) && Unique(value)
    ensures UniqueMembers(InsertMember(members, key, value))
    ensures Keys(InsertMember(members, key, value)) == Keys(members) + {key}
    ensures MeaningOfMembers(InsertMember(members, key, value)) == MeaningOfMembers(members)[key := Meaning(value)]
  {
    var m := Member(key, value);
    if members == [] {
      assert [m][1..] == [];
      KeysCons(m, []);
    } else {
      hide Keys;
      var s, rest := members[0], members[1..];
      assert members == [s] + rest;
      KeysCons(s, rest);
      if s.key == key {
        KeysCons(m, rest);
        assert ([m] + rest)[1..] == rest;
      } else {
        InsertMeans(rest, key, value);
        var inserted := InsertMember(rest, key, value);
        assert ([s] + inserted)[1..] == inserted;
        KeysCons(s, inserted);
        UpdatesSwap(MeaningOfMembers(rest), key, Meaning(value), s.key, Meaning(s.value));
      }
    }
  }

  lemma {:induction false} LookupMeans(members: seq<Member>, key: string)
    requires UniqueMembers(members)
    ensures Lookup(members, key).None? <==> key !in MeaningOfMembers(members)
    ensures Lookup(members, key).Some? ==>
              && MeaningOfMembers(members)[key] == Meaning(Lookup(members, key).value)
              && Unique(Lookup(members, key).value)
  {
    if members != [] {
      LookupMeans(members[1..], key);
    }
  }

  lemma PinnedIsUnique(d: Document, version: string)
    requires Unique(d) && Pinned(d, version).Ok?
    ensures Unique(Pinned(d, version).value)
    ensures d.Obj? && JsonTree.Obstacle(Meaning(d), ["info", "version"]).None?
    ensures Meaning(Pinned(d, version).value)
            == JsonTree.Obj(MeaningOfMembers(d.members)["info" := MeaningWithVersion(d, version)]
                                                      ["basePath" := JsonTree.Str(BASE_PATH)])
  {
    hide InsertMember, Lookup, MeaningOfMembers, UniqueMembers, Keys;
    LookupMeans(d.members, "info");
    var info := Lookup(d.members, "info").value.members;
    InsertMeans(info, "version", Str(version));
    var newInfo := Obj(InsertMember(info, "version", Str(version)));
    InsertMeans(d.members, "info", newInfo);
    InsertMeans(InsertMember(d.members, "info", newInfo), "basePath", Str(BASE_PATH));
    assert ["info", "version"][1..] == ["version"] && ["version"][1..] == [];
  }

  ghost function MeaningWithVersion(d: Document, version: string): JsonTree.Json
    requires Unique(d) && Pinned(d, version).Ok?
  {
    LookupMeans(d.members, "info");
    JsonTree.Obj(MeaningOfMembers(Lookup(d.members, "info").value.members)["version" := JsonTree.Str(version)])
  }

  /**
   Canonicalizing changes exactly two values of the document: `info.version` and `basePath`.
   */
  lemma CanonicalizePinsTwoValues(d: Document, version: string)
    requires Unique(d) && Pinned(d, version).Ok?
    ensures var v := Meaning(d);
            && JsonTree.Obstacle(v, ["info", "version"]).None?
            && JsonTree.Obstacle(JsonTree.Put(v, ["info", "version"], JsonTree.Str(version)), ["basePath"]).None?
            && Meaning(SortKeys(Pinned(d, version).value))
               == JsonTree.Put(JsonTree.Put(v, ["info", "version"], JsonTree.Str(version)),
                               ["basePath"], JsonTree.Str(BASE_PATH))
  {
    PinnedIsUnique(d, version);
    SortKeepsMeaning(Pinned(d, version).value);
    hide SortKeys, Lookup, InsertMember, Pinned;
    LookupMeans(d.members, "info");
    assert ["info", "version"][1..] == ["version"] && ["version"][1..] == [] && ["basePath"][1..] == [];
  }

  /** So documents that differ in key order, or in those two values, have one canonical form. */
  lemma CanonicalFormsAgree(a: Document, b: Document, version: string)
    requires Unique(a) && Unique(b) && Pinned(a, version).Ok? && Pinned(b, version).Ok?
    ensures SortKeys(Pinned(a, version).value) == SortKeys(Pinned(b, version).value)
            <==> Meaning(Pinned(a, version).value) == Meaning(Pinned(b, version).value)
    ensures Meaning(a) == Meaning(b) ==>
              SortKeys(Pinned(a, version).value) == SortKeys(Pinned(b, version).value)
  {
    PinnedIsUnique(a, version);
    PinnedIsUnique(b, version);
    SortIsCanonical(Pinned(a, version).value, Pinned(b, version).value);
    if Meaning(a) == Meaning(b) {
      CanonicalizePinsTwoValues(a, version);
      CanonicalizePinsTwoValues(b, version);
      SortKeepsMeaning(Pinned(a, version).value);
      SortKeepsMeaning(Pinned(b, version).value);
    }
  }

  /** Canonicalizing fails of a root that is no object, and of one without an object `info`; and of nothing else. */
  lemma CanonicalErrors(d: Document, version: string)
    requires Unique(d)
    ensures !d.Obj? ==> Pinned(d, version) == Err(RootNotAnObject)
    ensures var info := JsonTree.Get(Meaning(d), ["info"]);
            d.Obj? ==> if info.Some? && info.value.Obj? then Pinned(d, version).Ok? else Pinned(d, version) == Err(NoInfo)
  {
    if d.Obj? {
      hide InsertMember, Lookup, MeaningOfMembers;
      LookupMeans(d.members, "info");
      assert ["info"][1..] == [];
    }
  }
}
