/**
 JSON values, and writing one location inside an object.

 `Put` creates missing intermediate objects on the way, as both `set_pointer` and the
 bracket-path `insert` do. Objects are maps here: the order of keys is a matter for
 `Canonical`.
 */
module JsonTree {
  import opened Wrappers

  datatype Json =
    | Null
    | Bool(b: bool)
    | Num(n: int)
    | Str(s: string)
    | Arr(items: seq<Json>)
    | Obj(fields: map<string, Json>)

  /** A location inside nested objects: the keys to follow from the root. */
  type Path = seq<string>

  function Get(v: Json, p: Path): Option<Json>
    decreases |p|
  {
    if p == [] then Some(v)
    else if v.Obj? && p[0] in v.fields then Get(v.fields[p[0]], p[1..])
    else None
  }

  /** The member `k`, or the object that would be created for it. */
  function ChildOrNew(v: Json, k: string): Json
    requires v.Obj?
  {
    if k in v.fields then v.fields[k] else Obj(map[])
  }

  /** How far along `p` the first value that is in the way (exists, is not an object) lies. */
  function Obstacle(v: Json, p: Path): Option<nat>
    decreases |p|
  {
    if p == [] then None
    else if !v.Obj? then Some(0)
    else
      match Obstacle(ChildOrNew(v, p[0]), p[1..])
      case None => None
      case Some(i) => Some(i + 1)
  }

  /** `v` with `x` at `p`; absent intermediate objects are created. */
  function Put(v: Json, p: Path, x: Json): Json
    requires Obstacle(v, p).None?
    decreases |p|
  {
    if p == [] then x
    else Obj(v.fields[p[0] := Put(ChildOrNew(v, p[0]), p[1..], x)])
  }

  /** Neither path is the other or leads to it. */
  predicate Unrelated(p: Path, q: Path) {
    !(p <= q) && !(q <= p)
  }

  // ------------------------------------------------------------------ when it succeeds

  lemma {:induction false} NothingInNewObjects(p: Path)
    ensures Obstacle(Obj(map[]), p).None?
    decreases |p|
  {
    if p != [] {
      NothingInNewObjects(p[1..]);
    }
  }

  /** A value is in the way at depth `i` exactly when it is there and is not an object. */
  lemma {:induction false} ObstacleExactly(v: Json, p: Path, i: nat)
    ensures Obstacle(v, p) == Some(i)
            <==> i < |p| && Get(v, p[..i]).Some? && !Get(v, p[..i]).value.Obj?
    decreases |p|
  {
    if p != [] && v.Obj? {
      if p[0] in v.fields {
        if i > 0 {
          ObstacleExactly(v.fields[p[0]], p[1..], i - 1);
          if i <= |p| {
            assert p[..i][1..] == p[1..][..i - 1];
          }
        }
      } else {
        NothingInNewObjects(p[1..]);
      }
    }
  }

  // ----------------------------------------------------------------------- lens laws

  /** What is written is what is read, at the location and below it. */
  lemma {:induction false} PutGet(v: Json, p: Path, x: Json, q: Path)
    requires Obstacle(v, p).None?
    ensures Get(Put(v, p, x), p + q) == Get(x, q)
    decreases |p|
  {
    if p == [] {
      assert p + q == q;
    } else {
      assert (p + q)[1..] == p[1..] + q;
      PutGet(ChildOrNew(v, p[0]), p[1..], x, q);
    }
  }

  /** Unrelated locations are as they were. */
  lemma {:induction false} PutFrame(v: Json, p: Path, x: Json, q: Path)
    requires Obstacle(v, p).None? && Unrelated(p, q)
    ensures Get(Put(v, p, x), q) == Get(v, q)
    decreases |p|
  {
    if p[0] == q[0] {
      assert Unrelated(p[1..], q[1..]);
      PutFrame(ChildOrNew(v, p[0]), p[1..], x, q[1..]);
    }
  }

  /** A location above holds what it held, with the write carried out inside it. */
  lemma {:induction false} PutAbove(v: Json, p: Path, x: Json, q: Path)
    requires Obstacle(v, p + q).None?
    ensures var inside := if Get(v, p).Some? then Get(v, p).value else Obj(map[]);
            Obstacle(inside, q).None? && Get(Put(v, p + q, x), p) == Some(Put(inside, q, x))
    decreases |p|
  {
    if p == [] {
      assert p + q == q;
    } else {
      assert (p + q)[1..] == p[1..] + q;
      PutAbove(ChildOrNew(v, p[0]), p[1..], x, q);
    }
  }

  /** Writing what is already there changes nothing. */
  lemma {:induction false} PutWhatIsThere(v: Json, p: Path)
    requires Get(v, p).Some?
    ensures Obstacle(v, p).None? && Put(v, p, Get(v, p).value) == v
    decreases |p|
  {
    if p != [] {
      PutWhatIsThere(v.fields[p[0]], p[1..]);
      assert v.fields[p[0] := v.fields[p[0]]] == v.fields;
    }
  }

  /** A later write at or above a location makes the earlier one irrelevant. */
  lemma {:induction false} PutOver(v: Json, p: Path, q: Path, x: Json, y: Json)
    requires Obstacle(v, p + q).None?
    ensures Obstacle(v, p).None? && Obstacle(Put(v, p + q, x), p).None?
    ensures Put(Put(v, p + q, x), p, y) == Put(v, p, y)
    decreases |p|
  {
    if p == [] {
      assert p + q == q;
    } else {
      assert (p + q)[1..] == p[1..] + q;
      PutOver(ChildOrNew(v, p[0]), p[1..], q, x, y);
      var one := Put(v, p + q, x).fields;
      assert one == v.fields[p[0] := Put(ChildOrNew(v, p[0]), p[1..] + q, x)];
      assert one[p[0] := Put(ChildOrNew(v, p[0]), p[1..], y)] == v.fields[p[0] := Put(ChildOrNew(v, p[0]), p[1..], y)];
    }
  }

  /** Creating an absent object first makes no difference to a write below it. */
  lemma {:induction false} PutThrough(v: Json, p: Path, q: Path, x: Json)
    requires Obstacle(v, p).None? && Get(v, p).None?
    ensures Obstacle(Put(v, p, Obj(map[])), p + q) == Obstacle(v, p + q) == None
    ensures Put(Put(v, p, Obj(map[])), p + q, x) == Put(v, p + q, x)
    decreases |p|
  {
    assert p != [] && (p + q)[1..] == p[1..] + q && (p + q)[0] == p[0];
    var child := ChildOrNew(v, p[0]);
    if |p| == 1 {
      assert p[1..] + q == q;
      NothingInNewObjects(q);
      assert v.fields[p[0] := Obj(map[])][p[0] := Put(Obj(map[]), q, x)] == v.fields[p[0] := Put(Obj(map[]), q, x)];
    } else {
      PutThrough(child, p[1..], q, x);
      var inner := Put(child, p[1..], Obj(map[]));
      assert v.fields[p[0] := inner][p[0] := Put(inner, p[1..] + q, x)] == v.fields[p[0] := Put(inner, p[1..] + q, x)];
    }
  }

  /** Unrelated writes do not get in each other's way, nor out of it. */
  lemma {:induction false} PutKeepsObstacles(v: Json, p: Path, x: Json, q: Path)
    requires Obstacle(v, p).None? && Unrelated(p, q)
    ensures Obstacle(Put(v, p, x), q) == Obstacle(v, q)
    decreases |p|
  {
    if p[0] == q[0] {
      PutKeepsObstacles(ChildOrNew(v, p[0]), p[1..], x, q[1..]);
    }
  }

  lemma InnerPut(v: Json, k: string, p: Path, x: Json)
    requires v.Obj? && Obstacle(ChildOrNew(v, k), p).None?
    ensures Obstacle(v, [k] + p).None?
    ensures Put(v, [k] + p, x) == Obj(v.fields[k := Put(ChildOrNew(v, k), p, x)])
  {
    assert ([k] + p)[1..] == p;
  }

  /** Two writes under different keys of one object. */
  lemma SiblingPuts(v: Json, k: string, p: Path, x: Json, l: string, q: Path, y: Json)
    requires v.Obj? && k != l && Obstacle(ChildOrNew(v, k), p).None? && Obstacle(ChildOrNew(v, l), q).None?
    ensures Obstacle(v, [k] + p).None? && Obstacle(Put(v, [k] + p, x), [l] + q).None?
    ensures Put(Put(v, [k] + p, x), [l] + q, y)
            == Obj(v.fields[k := Put(ChildOrNew(v, k), p, x)][l := Put(ChildOrNew(v, l), q, y)])
  {
    hide Obstacle, Put;
    InnerPut(v, k, p, x);
    InnerPut(Put(v, [k] + p, x), l, q, y);
  }

  /** Two writes under the same key of one object. */
  lemma NestedPuts(v: Json, k: string, p: Path, x: Json, q: Path, y: Json)
    requires v.Obj? && Obstacle(ChildOrNew(v, k), p).None?
    requires Obstacle(Put(ChildOrNew(v, k), p, x), q).None?
    ensures Obstacle(v, [k] + p).None? && Obstacle(Put(v, [k] + p, x), [k] + q).None?
    ensures Put(Put(v, [k] + p, x), [k] + q, y)
            == Obj(v.fields[k := Put(Put(ChildOrNew(v, k), p, x), q, y)])
  {
    hide Obstacle, Put;
    InnerPut(v, k, p, x);
    InnerPut(Put(v, [k] + p, x), k, q, y);
    assert v.fields[k := Put(ChildOrNew(v, k), p, x)][k := Put(Put(ChildOrNew(v, k), p, x), q, y)]
        == v.fields[k := Put(Put(ChildOrNew(v, k), p, x), q, y)];
  }

  lemma ObstacleInside(v: Json, p: Path)
    requires p != [] && Obstacle(v, p).None?
    ensures v.Obj? && Obstacle(ChildOrNew(v, p[0]), p[1..]).None?
  {
  }

  /** Writes at unrelated locations can be made in either order. */
  lemma {:induction false} PutsCommute(v: Json, p: Path, x: Json, q: Path, y: Json)
    requires Obstacle(v, p).None? && Obstacle(v, q).None? && Unrelated(p, q)
    ensures Obstacle(Put(v, p, x), q).None? && Obstacle(Put(v, q, y), p).None?
    ensures Put(Put(v, p, x), q, y) == Put(Put(v, q, y), p, x)
    decreases |p|
  {
    hide Obstacle, Put, Get;
    var k, l := p[0], q[0];
    assert p == [k] + p[1..] && q == [l] + q[1..];
    ObstacleInside(v, p);
    ObstacleInside(v, q);
    if k != l {
      SiblingPuts(v, k, p[1..], x, l, q[1..], y);
      SiblingPuts(v, l, q[1..], y, k, p[1..], x);
      var px, qy := Put(ChildOrNew(v, k), p[1..], x), Put(ChildOrNew(v, l), q[1..], y);
      assert v.fields[k := px][l := qy] == v.fields[l := qy][k := px];
    } else {
      PutsCommute(ChildOrNew(v, k), p[1..], x, q[1..], y);
      NestedPuts(v, k, p[1..], x, q[1..], y);
      NestedPuts(v, k, q[1..], y, p[1..], x);
    }
  }
}
