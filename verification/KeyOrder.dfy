/** The order in which a sorted map or set is walked: ascending, each key once. */
module KeyOrder {
  import opened Ordering
  import opened Text

  predicate Ascending(keys: seq<string>) {
    forall i, j | 0 <= i < j < |keys| :: Below(keys[i], keys[j])
  }

  predicate IsLeast(s: set<string>, k: string) {
    k in s && forall x | x in s :: x == k || Below(k, x)
  }

  lemma {:induction false} LeastExists(s: set<string>)
    requires s != {}
    ensures exists k :: IsLeast(s, k)
    decreases |s|
  {
    var k :| k in s;
    if s == {k} {
      assert IsLeast(s, k);
    } else {
      LeastExists(s - {k});
      var least :| IsLeast(s - {k}, least);
      BelowTotal(k, least);
      if Below(k, least) {
        forall x | x in s && x != k ensures Below(k, x) {
          if x != least {
            BelowTransitive(k, least, x);
          }
        }
        assert IsLeast(s, k);
      } else {
        assert IsLeast(s, least);
      }
    }
  }

  lemma LeastIsUnique(s: set<string>)
    ensures forall a, b | IsLeast(s, a) && IsLeast(s, b) :: a == b
  {
    forall a, b | IsLeast(s, a) && IsLeast(s, b) ensures a == b {
      if a != b {
        BelowAsymmetric(a, b);
      }
    }
  }

  function Least(s: set<string>): (k: string)
    requires s != {}
    ensures IsLeast(s, k)
  {
    LeastExists(s);
    LeastIsUnique(s);
    var k :| k in s && IsLeast(s, k);
    k
  }

  /** The members of a set in the order a sorted map gives its keys. */
  function Sorted(s: set<string>): (keys: seq<string>)
    ensures |keys| == |s| && forall k :: k in keys <==> k in s
    decreases |s|
  {
    if s == {} then [] else [Least(s)] + Sorted(s - {Least(s)})
  }

  lemma AscendingCons(k: string, rest: seq<string>)
    requires Ascending(rest) && forall x | x in ToSet(rest) :: Below(k, x)
    ensures Ascending([k] + rest) && ToSet([k] + rest) == {k} + ToSet(rest)
  {
    hide Below;
    var keys := [k] + rest;
    forall i, j | 0 <= i < j < |keys| ensures Below(keys[i], keys[j]) {
      assert keys[j] == rest[j - 1] && rest[j - 1] in ToSet(rest);
      if i > 0 {
        assert keys[i] == rest[i - 1];
      }
    }
  }

  lemma {:induction false} SortedAscends(s: set<string>)
    ensures Ascending(Sorted(s)) && ToSet(Sorted(s)) == s
    decreases |s|
  {
    if s != {} {
      hide Below, Ascending;
      var k, rest := Least(s), s - {Least(s)};
      SortedAscends(rest);
      AscendingCons(k, Sorted(rest));
    }
  }

  lemma AscendingTail(keys: seq<string>)
    requires keys != [] && Ascending(keys)
    ensures Ascending(keys[1..]) && IsLeast(ToSet(keys), keys[0])
    ensures ToSet(keys[1..]) == ToSet(keys) - {keys[0]} && keys[0] in ToSet(keys)
  {
    hide Below;
    var k, rest := keys[0], keys[1..];
    assert forall i | 0 <= i < |rest| :: rest[i] == keys[i + 1];
    assert keys == [k] + rest;
    BelowIrreflexive(k);
    forall x | x in rest ensures Below(k, x) {
      var i :| 0 <= i < |rest| && rest[i] == x;
      assert Below(keys[0], keys[i + 1]);
    }
  }

  /** There is only one ascending sequence of the same keys. */
  lemma {:induction false} AscendingIsSorted(keys: seq<string>)
    requires Ascending(keys)
    ensures keys == Sorted(ToSet(keys))
    decreases |keys|
  {
    hide Ascending, IsLeast, ToSet;
    if keys != [] {
      AscendingTail(keys);
      LeastIsUnique(ToSet(keys));
      AscendingIsSorted(keys[1..]);
      assert ToSet(keys) != {} && Least(ToSet(keys)) == keys[0];
      assert keys == [keys[0]] + keys[1..];
    } else {
      NoKeys();
    }
  }

  lemma NoKeys()
    ensures ToSet([]) == {}
  {
  }

  /** Walking a map and keeping some keys gives those keys in order. */
  lemma KeptInOrder(keys: seq<string>, kept: seq<string>, k: string, i: nat)
    requires Ascending(keys) && i < |keys| && keys[i] == k
    requires Ascending(kept) && ToSet(kept) <= ToSet(keys[..i])
    ensures Ascending(kept + [k]) && ToSet(kept + [k]) == ToSet(kept) + {k}
    ensures ToSet(keys[..i + 1]) == ToSet(keys[..i]) + {k}
  {
    var more := kept + [k];
    forall a, b | 0 <= a < b < |more| ensures Below(more[a], more[b]) {
      if b == |kept| {
        assert kept[a] in ToSet(kept);
        var j :| 0 <= j < i && keys[..i][j] == kept[a];
      }
    }
    assert keys[..i + 1] == keys[..i] + [k];
  }
}
