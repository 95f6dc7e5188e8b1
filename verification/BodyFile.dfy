/**
 `--body-file` overrides: JSON pointers (RFC 6901) and the writes they address.
 */
module BodyFile {
  import opened Wrappers
  import opened Text
  import opened JsonTree

  // --------------------------------------------------------------------- pointer text

  /** The source's two global replacements, in its order: `~1` before `~0`. */
  function Unescape(token: string): string {
    Replace(Replace(token, "~1", "/"), "~0", "~")
  }

  /** Section 3 of RFC 6901: how a key is written as a token. */
  function Escape(key: string): string {
    if key == "" then ""
    else (if key[0] == '~' then "~0" else if key[0] == '/' then "~1" else [key[0]]) + Escape(key[1..])
  }

  /** Section 4 of RFC 6901, in one pass: what a token stands for. */
  function Decoded(token: string): string {
    if token == "" then ""
    else if |token| >= 2 && token[0] == '~' && token[1] == '0' then "~" + Decoded(token[2..])
    else if |token| >= 2 && token[0] == '~' && token[1] == '1' then "/" + Decoded(token[2..])
    else [token[0]] + Decoded(token[1..])
  }

  /** Every `~` begins an escape. */
  predicate WellEscaped(token: string) {
    token == ""
    || (token[0] != '~' && token[0] != '/' && WellEscaped(token[1..]))
    || (|token| >= 2 && token[0] == '~' && (token[1] == '0' || token[1] == '1') && WellEscaped(token[2..]))
  }

  function UnescapeAll(tokens: seq<string>): (r: seq<string>)
  {
    if tokens == [] then [] else [Unescape(tokens[0])] + UnescapeAll(tokens[1..])
  }

  function EscapeAll(keys: seq<string>): (r: seq<string>)
  {
    if keys == [] then [] else [Escape(keys[0])] + EscapeAll(keys[1..])
  }

  /** The path a pointer addresses; nothing without the leading `/`. */
  function PointerPath(pointer: string): (p: Option<Path>)
  {
    if pointer == "" || pointer[0] != '/' then None
    else Some(UnescapeAll(SplitOn(pointer[1..], '/')))
  }

  function PathPointer(path: Path): string
    requires path != []
  {
    "/" + JoinWith(EscapeAll(path), '/')
  }

  /** Two successive replacements, for every token, are the one pass the standard describes. */
  lemma {:induction false} UnescapeIsDecoded(t: string)
    ensures Unescape(t) == Decoded(t)
    decreases |t|
  {
    if t != "" {
      if |t| >= 2 && t[0] == '~' && (t[1] == '0' || t[1] == '1') {
        UnescapeIsDecoded(t[2..]);
        EscapeIsReplaced(t);
      } else {
        UnescapeIsDecoded(t[1..]);
        OtherIsReplaced(t);
      }
    }
  }

  lemma EscapeIsReplaced(t: string)
    requires |t| >= 2 && t[0] == '~' && (t[1] == '0' || t[1] == '1')
    ensures Unescape(t) == (if t[1] == '0' then "~" else "/") + Unescape(t[2..])
  {
    var r := t[2..];
    var a := Replace(r, "~1", "/");
    if t[1] == '1' {
      assert t[..2] == "~1";
      EscapePasses("/", a);
    } else {
      assert t[..2] == "~0";
      NoPatternThere(t, "~1", "/");
      assert t[1..] == ['0'] + r;
      NoPatternThere(t[1..], "~1", "/");
      assert ['~'] + (['0'] + a) == "~0" + a && ("~0" + a)[..2] == "~0" && ("~0" + a)[2..] == a;
    }
  }

  lemma OtherIsReplaced(t: string)
    requires t != "" && !(|t| >= 2 && t[0] == '~' && (t[1] == '0' || t[1] == '1'))
    ensures Unescape(t) == [t[0]] + Unescape(t[1..])
  {
    var r := t[1..];
    var a := Replace(r, "~1", "/");
    NoPatternThere(t, "~1", "/");
    FirstAfterReplace(r);
    OneCharPasses(t[0], a);
  }

  /** Replacing `~1` makes no text begin with `0`. */
  lemma FirstAfterReplace(r: string)
    ensures var a := Replace(r, "~1", "/"); a != "" && a[0] == '0' ==> r != "" && r[0] == '0'
  {
  }

  lemma NoPatternThere(s: string, pat: string, rep: string)
    requires |pat| == 2 && s != "" && (s[0] != pat[0] || |s| == 1 || s[1] != pat[1])
    ensures Replace(s, pat, rep) == [s[0]] + Replace(s[1..], pat, rep)
  {
    if |s| >= 2 {
      assert s[..2] != pat by { assert s[..2][0] == s[0] && s[..2][1] == s[1]; }
    } else {
      assert s[1..] == "" && [s[0]] + "" == s;
    }
  }

  lemma EscapePasses(c: string, a: string)
    requires c == "/"
    ensures Replace(c + a, "~0", "~") == c + Replace(a, "~0", "~")
  {
    assert (c + a)[1..] == a && (c + a)[0] == '/';
  }

  lemma OneCharPasses(c: char, a: string)
    requires c != '~' || a == "" || a[0] != '0'
    ensures Replace([c] + a, "~0", "~") == [c] + Replace(a, "~0", "~")
  {
    var s := [c] + a;
    assert s[1..] == a;
    assert |s| >= 2 ==> s[..2] == [c, a[0]];
  }

  lemma {:induction false} DecodedEscape(key: string)
    ensures Decoded(Escape(key)) == key && '/' !in Escape(key) && WellEscaped(Escape(key))
  {
    if key != "" {
      DecodedEscape(key[1..]);
      var e, rest := Escape(key), Escape(key[1..]);
      if key[0] == '~' || key[0] == '/' {
        assert e[2..] == rest;
      } else {
        assert e[1..] == rest;
      }
      assert key == [key[0]] + key[1..];
    }
  }

  lemma {:induction false} EscapeDecoded(token: string)
    requires WellEscaped(token)
    ensures Escape(Decoded(token)) == token
    decreases |token|
  {
    if token != "" {
      if token[0] == '~' {
        EscapeDecoded(token[2..]);
        assert token == [token[0], token[1]] + token[2..];
      } else {
        EscapeDecoded(token[1..]);
        assert token == [token[0]] + token[1..];
      }
    }
  }

  lemma {:induction false} UnescapeEscapeAll(keys: seq<string>)
    ensures UnescapeAll(EscapeAll(keys)) == keys
    ensures forall w | w in EscapeAll(keys) :: '/' !in w
  {
    if keys != [] {
      UnescapeIsDecoded(Escape(keys[0]));
      DecodedEscape(keys[0]);
      UnescapeEscapeAll(keys[1..]);
      assert EscapeAll(keys)[1..] == EscapeAll(keys[1..]);
    }
  }

  /** For every non-empty path: written as a pointer and read back, it is the same path. */
  lemma PointerRoundTrip(path: Path)
    requires path != []
    ensures PointerPath(PathPointer(path)) == Some(path)
  {
    UnescapeEscapeAll(path);
    SplitJoined(EscapeAll(path), '/');
    assert PathPointer(path)[1..] == JoinWith(EscapeAll(path), '/');
  }

  predicate AllWellEscaped(tokens: seq<string>) {
    forall t | t in tokens :: WellEscaped(t)
  }

  lemma {:induction false} EscapeUnescapeAll(tokens: seq<string>)
    requires AllWellEscaped(tokens)
    ensures EscapeAll(UnescapeAll(tokens)) == tokens
  {
    if tokens != [] {
      assert tokens[0] in tokens;
      UnescapeIsDecoded(tokens[0]);
      EscapeDecoded(tokens[0]);
      EscapeUnescapeAll(tokens[1..]);
      assert UnescapeAll(tokens)[1..] == UnescapeAll(tokens[1..]);
    }
  }

  /** And every pointer the standard allows is the text of the path it is read as. */
  lemma PointerTextRoundTrip(pointer: string)
    requires pointer != "" && pointer[0] == '/' && AllWellEscaped(SplitOn(pointer[1..], '/'))
    ensures PathPointer(PointerPath(pointer).value) == pointer
  {
    EscapeUnescapeAll(SplitOn(pointer[1..], '/'));
    JoinSplit(pointer[1..], '/');
  }

  // ----------------------------------------------------------------------- set_pointer

  datatype PointerError =
    | NotAPointer
    | NotAnObject(depth: nat)   // how many tokens lead to the value in the way
    | BaseNotAnObject

  function SetAt(root: Json, pointer: string, value: Json): Result<Json, PointerError> {
    match PointerPath(pointer)
    case None => Err(NotAPointer)
    case Some(p) =>
      match Obstacle(root, p)
      case Some(i) => Err(NotAnObject(i))
      case None => Ok(Put(root, p, value))
  }

  /** A request body being edited in place. */
  class Body {
    var root: Json

    constructor (root: Json)
      ensures this.root == root
    {
      this.root := root;
    }

    /**
     Set one location, creating missing objects on the way. The cursor of the source is
     `path[..i]`: everything before it is known to be an object. On an error the body is
     as it was.
     */
    method SetPointer(pointer: string, value: Json) returns (r: Result<(), PointerError>)
      modifies this
      ensures match SetAt(old(root), pointer, value)
              case Ok(v) => r == Ok(()) && root == v
              case Err(e) => r == Err(e) && root == old(root)
    {
      var parsed := PointerPath(pointer);
      if parsed.None? {
        return Err(NotAPointer);
      }
      var path := parsed.value;
      var i := 0;
      assert path[..0] == [] && Get(root, []) == Some(root);
      while i < |path| - 1
        invariant 0 <= i <= |path| - 1
        invariant Get(root, path[..i]).Some?
        invariant Obstacle(root, path) == Obstacle(old(root), path)
        invariant root == old(root) || Obstacle(old(root), path).None?
        invariant Obstacle(root, path).None? ==> Put(root, path, value) == Put(old(root), path, value)
      {
        var cur := Get(root, path[..i]).value;
        ObstacleExactly(root, path, i);
        if !cur.Obj? {
          return Err(NotAnObject(i));
        }
        StepDown(root, path, i);
        if path[i] !in cur.fields {
          EnterNew(root, path, i, value);
          root := Put(root, path[..i + 1], Obj(map[]));
        }
        i := i + 1;
      }
      var cur := Get(root, path[..i]).value;
      ObstacleExactly(root, path, i);
      if !cur.Obj? {
        return Err(NotAnObject(i));
      }
      ObjectsAllTheWay(root, path);
      root := Put(root, path, value);
      return Ok(());
    }
  }

  /** One token further than an object: the member, or nothing. */
  lemma {:induction false} StepDown(v: Json, path: Path, i: nat)
    requires i < |path| && Get(v, path[..i]).Some? && Get(v, path[..i]).value.Obj?
    ensures var cur := Get(v, path[..i]).value;
            Get(v, path[..i + 1]) == if path[i] in cur.fields then Some(cur.fields[path[i]]) else None
    decreases i
  {
    if i == 0 {
      assert path[..1][1..] == [] && path[..0] == [];
    } else {
      assert path[..i][1..] == path[1..][..i - 1] && path[..i + 1][1..] == path[1..][..i];
      StepDown(v.fields[path[0]], path[1..], i - 1);
    }
  }

  /** Values along the way to something that is there are objects. */
  lemma {:induction false} GetEarlier(v: Json, p: Path, i: nat)
    requires i < |p| && Get(v, p).Some?
    ensures Get(v, p[..i]).Some? && Get(v, p[..i]).value.Obj?
    decreases i
  {
    if i > 0 {
      assert p[..i][1..] == p[1..][..i - 1];
      GetEarlier(v.fields[p[0]], p[1..], i - 1);
    }
  }

  /** If the parent is there and is an object, nothing is in the way. */
  lemma ObjectsAllTheWay(v: Json, path: Path)
    requires path != []
    requires Get(v, path[..|path| - 1]).Some? && Get(v, path[..|path| - 1]).value.Obj?
    ensures Obstacle(v, path).None?
  {
    var parent := path[..|path| - 1];
    assert parent[..|parent|] == parent;
    if Obstacle(v, path).Some? {
      var i := Obstacle(v, path).value;
      ObstacleExactly(v, path, i);
      assert path[..i] == parent[..i];
      if i < |parent| {
        GetEarlier(v, parent, i);
      }
      assert false;
    }
  }

  /** Creating the absent object at the cursor leaves the outcome of the whole write alone. */
  lemma EnterNew(v: Json, path: Path, i: nat, value: Json)
    requires i + 1 < |path| && Get(v, path[..i]).Some? && Get(v, path[..i]).value.Obj?
    requires path[i] !in Get(v, path[..i]).value.fields
    ensures Obstacle(v, path[..i + 1]).None?
    ensures var v' := Put(v, path[..i + 1], Obj(map[]));
            && Get(v', path[..i + 1]) == Some(Obj(map[]))
            && Obstacle(v', path) == Obstacle(v, path) == None
            && Put(v', path, value) == Put(v, path, value)
  {
    var p, q := path[..i + 1], path[i + 1..];
    assert p[..|p| - 1] == path[..i] && path == p + q && p + [] == p;
    ObjectsAllTheWay(v, p);
    StepDown(v, path, i);
    PutGet(v, p, Obj(map[]), []);
    PutThrough(v, p, q, value);
  }

  /**
   An error leaves nothing behind and has exactly two causes: no leading `/`, or a value
   strictly above the location that is there and is not an object.
   */
  lemma SetFailsExactly(root: Json, pointer: string, value: Json)
    ensures SetAt(root, pointer, value).Err?
            <==> PointerPath(pointer).None?
                 || exists i: nat :: i < |PointerPath(pointer).value| && Blocks(root, PointerPath(pointer).value[..i])
    ensures PointerPath(pointer).None? ==> SetAt(root, pointer, value) == Err(NotAPointer)
    ensures PointerPath(pointer).Some? ==>
              forall i: nat | i < |PointerPath(pointer).value| ::
                SetAt(root, pointer, value) == Err(NotAnObject(i)) <==> Blocks(root, PointerPath(pointer).value[..i])
  {
    if PointerPath(pointer).Some? {
      var p := PointerPath(pointer).value;
      forall i: nat | i < |p| ensures Obstacle(root, p) == Some(i) <==> Blocks(root, p[..i]) {
        ObstacleExactly(root, p, i);
      }
      if Obstacle(root, p).Some? {
        ObstacleExactly(root, p, Obstacle(root, p).value);
      }
    }
  }

  predicate Blocks(v: Json, p: Path) {
    Get(v, p).Some? && !Get(v, p).value.Obj?
  }

  /** After a successful write: the value reads back, unrelated locations are as they were. */
  lemma SetIsALens(root: Json, pointer: string, value: Json, q: Path)
    requires SetAt(root, pointer, value).Ok?
    ensures var p, after := PointerPath(pointer).value, SetAt(root, pointer, value).value;
            && Get(after, p) == Some(value)
            && Get(after, p + q) == Get(value, q)
            && (Unrelated(p, q) ==> Get(after, q) == Get(root, q))
            && SetAt(after, pointer, value) == Ok(after)
  {
    var p := PointerPath(pointer).value;
    assert p + [] == p;
    PutGet(root, p, value, []);
    PutGet(root, p, value, q);
    PutWhatIsThere(Put(root, p, value), p);
    if Unrelated(p, q) {
      PutFrame(root, p, value, q);
    }
  }

  /** The last of two writes to one location is the one that counts. */
  lemma SetTwice(root: Json, pointer: string, first: Json, second: Json)
    requires SetAt(root, pointer, first).Ok?
    ensures SetAt(SetAt(root, pointer, first).value, pointer, second) == SetAt(root, pointer, second)
  {
    var p := PointerPath(pointer).value;
    assert p + [] == p;
    PutOver(root, p, [], first, second);
  }

  // ----------------------------------------------------------------------------- merge

  type Override = (string, Json)

  function Written(root: Json, overrides: seq<Override>): Result<Json, PointerError>
    decreases |overrides|
  {
    if overrides == [] then Ok(root)
    else
      match SetAt(root, overrides[0].0, overrides[0].1)
      case Err(e) => Err(e)
      case Ok(next) => Written(next, overrides[1..])
  }

  function Merged(base: Json, overrides: seq<Override>): Result<Json, PointerError> {
    if overrides == [] then Ok(base)
    else if !base.Obj? then Err(BaseNotAnObject)
    else Written(base, overrides)
  }

  method Merge(base: Json, overrides: seq<Override>) returns (r: Result<Json, PointerError>)
    ensures r == Merged(base, overrides)
  {
    if overrides == [] {
      return Ok(base);
    }
    if !base.Obj? {
      return Err(BaseNotAnObject);
    }
    var body := new Body(base);
    var i := 0;
    while i < |overrides|
      invariant 0 <= i <= |overrides|
      invariant Written(base, overrides) == Written(body.root, overrides[i..])
    {
      assert overrides[i..][0] == overrides[i] && overrides[i..][1..] == overrides[i + 1..];
      var done := body.SetPointer(overrides[i].0, overrides[i].1);
      if done.Err? {
        return Err(done.error);
      }
      i := i + 1;
    }
    return Ok(body.root);
  }

  /** The overrides as paths; `[]` stands for text that is not a pointer. */
  function PathOf(o: Override): Path {
    var p := PointerPath(o.0);
    if p.Some? then p.value else []
  }

  /** Every override is a pointer, given once, and no pointer leads to another. */
  predicate Independent(m: multiset<Override>) {
    && (forall o | o in m :: m[o] == 1 && PathOf(o) != [])
    && (forall o, o' | o in m && o' in m && o != o' :: Unrelated(PathOf(o), PathOf(o')))
  }

  /** Each override could be written to `root` on its own. */
  predicate EachFits(root: Json, m: multiset<Override>) {
    forall o | o in m :: Obstacle(root, PathOf(o)).None?
  }

  lemma HeadAndTail(overrides: seq<Override>)
    requires overrides != []
    ensures multiset(overrides) == multiset{overrides[0]} + multiset(overrides[1..])
  {
    assert overrides == [overrides[0]] + overrides[1..];
  }

  lemma FirstIsUnrelated(o: Override, m: multiset<Override>)
    requires Independent(multiset{o} + m)
    ensures Independent(m) && o !in m
    ensures forall o' | o' in m :: Unrelated(PathOf(o), PathOf(o'))
  {
    var all := multiset{o} + m;
    assert all[o] == 1 + m[o];
    assert o in all;
    forall o' | o' in m ensures o' in all && all[o'] == 1 && m[o'] == 1 && o' != o {
      assert all[o'] == m[o'] + multiset{o}[o'];
    }
  }

  /** Writing an override changes nothing about which independent ones fit. */
  lemma FitsAfter(root: Json, o: Override, m: multiset<Override>)
    requires Independent(multiset{o} + m) && Obstacle(root, PathOf(o)).None?
    ensures EachFits(Put(root, PathOf(o), o.1), m) <==> EachFits(root, m)
    ensures EachFits(root, m) <==> EachFits(root, multiset{o} + m)
  {
    hide Put, Obstacle, PathOf, Independent, Unrelated;
    FirstIsUnrelated(o, m);
    var next := Put(root, PathOf(o), o.1);
    forall o' | o' in m ensures Obstacle(next, PathOf(o')) == Obstacle(root, PathOf(o')) {
      PutKeepsObstacles(root, PathOf(o), o.1, PathOf(o'));
    }
  }

  lemma WrittenFirst(root: Json, o: Override, rest: seq<Override>)
    requires PathOf(o) != []
    ensures Written(root, [o] + rest).Ok? ==> Obstacle(root, PathOf(o)).None?
    ensures Obstacle(root, PathOf(o)).None? ==>
              Written(root, [o] + rest) == Written(Put(root, PathOf(o), o.1), rest)
  {
    assert ([o] + rest)[1..] == rest;
  }

  /** Independent overrides succeed together exactly when each would succeed alone. */
  lemma {:induction false} WrittenWhenEachFits(root: Json, overrides: seq<Override>)
    requires Independent(multiset(overrides))
    ensures Written(root, overrides).Ok? <==> EachFits(root, multiset(overrides))
    decreases |overrides|
  {
    if overrides != [] {
      hide Put, Obstacle, PathOf, Unrelated;
      var o, rest := overrides[0], overrides[1..];
      HeadAndTail(overrides);
      assert o in multiset(overrides);
      assert overrides == [o] + rest;
      hide Written;
      WrittenFirst(root, o, rest);
      if Obstacle(root, PathOf(o)).None? {
        FitsAfter(root, o, multiset(rest));
        FirstIsUnrelated(o, multiset(rest));
        WrittenWhenEachFits(Put(root, PathOf(o), o.1), rest);
      }
    }
  }

  lemma SwapFirstTwo(root: Json, x: Override, y: Override, rest: seq<Override>)
    requires PathOf(x) != [] && PathOf(y) != [] && Unrelated(PathOf(x), PathOf(y))
    requires Obstacle(root, PathOf(x)).None? && Obstacle(root, PathOf(y)).None?
    ensures Written(root, [x] + ([y] + rest)) == Written(root, [y] + ([x] + rest))
  {
    hide Put, Obstacle, PathOf, Unrelated, Written;
    var p, q := PathOf(x), PathOf(y);
    PutsCommute(root, p, x.1, q, y.1);
    WrittenFirst(root, x, [y] + rest);
    WrittenFirst(root, y, [x] + rest);
    WrittenFirst(Put(root, p, x.1), y, rest);
    WrittenFirst(Put(root, q, y.1), x, rest);
  }

  /** What independence and fitting of a whole list say about its first element. */
  lemma PeelFirst(root: Json, b: Override, o: Override, rest: seq<Override>)
    requires Independent(multiset{o} + multiset([b] + rest))
    requires EachFits(root, multiset{o} + multiset([b] + rest))
    ensures PathOf(b) != [] && PathOf(o) != [] && Unrelated(PathOf(b), PathOf(o))
    ensures Obstacle(root, PathOf(b)).None? && Obstacle(root, PathOf(o)).None?
    ensures Independent(multiset{o} + multiset(rest))
    ensures EachFits(Put(root, PathOf(b), b.1), multiset{o} + multiset(rest))
  {
    hide Put, Obstacle, PathOf, Unrelated, Written, Independent, EachFits;
    var m := multiset{o} + multiset(rest);
    assert multiset{o} + multiset([b] + rest) == multiset{b} + m;
    FitsHere(root, multiset{b} + m, b);
    FitsHere(root, multiset{b} + m, o);
    FirstIsUnrelated(b, m);
    FitsAfter(root, b, m);
  }

  /** An override can be moved in front of independent ones. */
  lemma {:induction false} MoveToFront(root: Json, before: seq<Override>, o: Override, after: seq<Override>)
    requires Independent(multiset{o} + multiset(before + after))
    requires EachFits(root, multiset{o} + multiset(before + after))
    ensures Written(root, before + [o] + after) == Written(root, [o] + (before + after))
    decreases |before|
  {
    hide Put, Obstacle, PathOf, Unrelated, Written, Independent, EachFits;
    if before == [] {
      assert before + [o] + after == [o] + (before + after);
    } else {
      var b, rest := before[0], before[1..] + after;
      assert before + after == [b] + rest;
      PeelFirst(root, b, o, rest);
      MoveToFront(Put(root, PathOf(b), b.1), before[1..], o, after);
      assert before + [o] + after == [b] + (before[1..] + [o] + after);
      WrittenFirst(root, b, before[1..] + [o] + after);
      WrittenFirst(root, b, [o] + rest);
      SwapFirstTwo(root, b, o, rest);
    }
  }

  lemma FitsHere(root: Json, m: multiset<Override>, o: Override)
    requires Independent(m) && EachFits(root, m) && o in m
    ensures PathOf(o) != [] && Obstacle(root, PathOf(o)).None?
  {
  }

  lemma MultisetCancel<T>(x: T, m: multiset<T>, n: multiset<T>)
    requires multiset{x} + m == multiset{x} + n
    ensures m == n
  {
    assert m == multiset{x} + m - multiset{x};
    assert n == multiset{x} + n - multiset{x};
  }

  lemma AroundPosition<T>(b: seq<T>, k: nat)
    requires k < |b|
    ensures b == b[..k] + [b[k]] + b[k + 1..]
    ensures multiset(b) == multiset{b[k]} + multiset(b[..k] + b[k + 1..])
  {
    assert b == b[..k] + [b[k]] + b[k + 1..];
  }

  /** Where the first of one list stands in a permutation of it. */
  lemma FindFirst<T>(a: seq<T>, b: seq<T>) returns (before: seq<T>, after: seq<T>)
    requires a != [] && multiset(a) == multiset(b)
    ensures b == before + [a[0]] + after
    ensures multiset(a) == multiset{a[0]} + multiset(a[1..])
    ensures multiset(a[1..]) == multiset(before + after)
  {
    AroundPosition(a, 0);
    assert a[..0] + a[1..] == a[1..];
    assert a[0] in multiset(b);
    var k :| 0 <= k < |b| && b[k] == a[0];
    AroundPosition(b, k);
    before, after := b[..k], b[k + 1..];
    MultisetCancel(a[0], multiset(a[1..]), multiset(before + after));
  }

  lemma {:induction false} WrittenIgnoresOrder(root: Json, a: seq<Override>, b: seq<Override>)
    requires multiset(a) == multiset(b) && Independent(multiset(a)) && EachFits(root, multiset(a))
    ensures Written(root, a) == Written(root, b)
    decreases |a|
  {
    hide Put, Obstacle, PathOf, Unrelated, Written, Independent, EachFits;
    if a == [] {
      assert |multiset(b)| == 0;
    } else {
      var o, rest := a[0], a[1..];
      assert a == [o] + rest;
      var before, after := FindFirst(a, b);
      PermutedTail(root, o, rest, before, after);
      WrittenIgnoresOrder(Put(root, PathOf(o), o.1), rest, before + after);
      WrittenFirst(root, o, rest);
      WrittenFirst(root, o, before + after);
    }
  }

  lemma PermutedTail(root: Json, o: Override, rest: seq<Override>, before: seq<Override>, after: seq<Override>)
    requires multiset(rest) == multiset(before + after)
    requires Independent(multiset{o} + multiset(rest)) && EachFits(root, multiset{o} + multiset(rest))
    ensures PathOf(o) != [] && Obstacle(root, PathOf(o)).None?
    ensures Written(root, before + [o] + after) == Written(root, [o] + (before + after))
    ensures Independent(multiset(rest)) && EachFits(Put(root, PathOf(o), o.1), multiset(rest))
  {
    hide Put, Obstacle, PathOf, Unrelated, Written, Independent, EachFits;
    MoveToFront(root, before, o, after);
    FitsHere(root, multiset{o} + multiset(rest), o);
    FirstIsUnrelated(o, multiset(rest));
    FitsAfter(root, o, multiset(rest));
  }

  /**
   Overrides whose pointers do not lead to one another can be given in any order: they
   succeed together or not at all, with the same body.
   */
  lemma MergeIgnoresOrder(root: Json, a: seq<Override>, b: seq<Override>)
    requires multiset(a) == multiset(b) && Independent(multiset(a))
    ensures Merged(root, a).Ok? <==> Merged(root, b).Ok?
    ensures Merged(root, a).Ok? ==> Merged(root, a) == Merged(root, b)
  {
    hide Independent, EachFits, Written;
    assert |multiset(a)| == |a| && |multiset(b)| == |b|;
    WrittenWhenEachFits(root, a);
    WrittenWhenEachFits(root, b);
    if EachFits(root, multiset(a)) {
      WrittenIgnoresOrder(root, a, b);
    }
  }

  /** Every override reads back from the merged body, and nothing else has moved. */
  lemma {:induction false} MergeReadsBack(root: Json, overrides: seq<Override>, o: Override, q: Path)
    requires Independent(multiset(overrides)) && Written(root, overrides).Ok?
    ensures o in overrides ==> Get(Written(root, overrides).value, PathOf(o)) == Some(o.1)
    ensures (forall o' | o' in overrides :: Unrelated(PathOf(o'), q)) ==>
              Get(Written(root, overrides).value, q) == Get(root, q)
    decreases |overrides|
  {
    if overrides != [] {
      hide Put, Obstacle, PathOf, Unrelated, Get, Independent, Written;
      var first, rest := overrides[0], overrides[1..];
      OneAtATime(root, overrides);
      var p := PathOf(first);
      var next := Put(root, p, first.1);
      MergeReadsBack(next, rest, o, q);
      if o == first {
        assert p + [] == p;
        PutGet(root, p, first.1, []);
        MergeReadsBack(next, rest, first, p);
      }
      if forall o' | o' in overrides :: Unrelated(PathOf(o'), q) {
        assert Unrelated(p, q);
        PutFrame(root, p, first.1, q);
      }
    }
  }

  lemma OneAtATime(root: Json, overrides: seq<Override>)
    requires overrides != [] && Independent(multiset(overrides)) && Written(root, overrides).Ok?
    ensures var first, rest := overrides[0], overrides[1..];
            && PathOf(first) != [] && Obstacle(root, PathOf(first)).None?
            && Written(root, overrides) == Written(Put(root, PathOf(first), first.1), rest)
            && Independent(multiset(rest)) && overrides == [first] + rest
            && forall o' | o' in rest :: Unrelated(PathOf(first), PathOf(o')) && Unrelated(PathOf(o'), PathOf(first))
  {
    hide Put, Obstacle, PathOf, Get, Written;
    var first, rest := overrides[0], overrides[1..];
    HeadAndTail(overrides);
    assert first in multiset(overrides) && overrides == [first] + rest;
    WrittenFirst(root, first, rest);
    FirstIsUnrelated(first, multiset(rest));
    forall o' | o' in rest ensures Unrelated(PathOf(first), PathOf(o')) && Unrelated(PathOf(o'), PathOf(first)) {
      assert o' in multiset(rest);
    }
  }

  // ------------------------------------------------------------- the base under the merge

  lemma {:induction false} WrittenSnoc(root: Json, overrides: seq<Override>, o: Override)
    ensures Written(root, overrides + [o])
            == if Written(root, overrides).Err? then Written(root, overrides)
               else SetAt(Written(root, overrides).value, o.0, o.1)
    decreases |overrides|
  {
    hide SetAt;
    if overrides == [] {
      assert ([] + [o])[1..] == [];
    } else {
      assert (overrides + [o])[1..] == overrides[1..] + [o];
      var next := SetAt(root, overrides[0].0, overrides[0].1);
      if next.Ok? {
        WrittenSnoc(next.value, overrides[1..], o);
      }
    }
  }

  /**
   The merge in terms of its base, one override at a time: without overrides it is the base,
   whatever that is; a base that is no object takes none; on an object each override is
   written into what those before it made of the base.
   */
  lemma MergeGrows(base: Json, overrides: seq<Override>, o: Override)
    ensures Merged(base, []) == Ok(base)
    ensures !base.Obj? ==> Merged(base, overrides + [o]) == Err(BaseNotAnObject)
    ensures base.Obj? ==>
              Merged(base, overrides + [o])
              == if Merged(base, overrides).Err? then Merged(base, overrides)
                 else SetAt(Merged(base, overrides).value, o.0, o.1)
  {
    hide SetAt;
    WrittenSnoc(base, overrides, o);
  }

  /** Independent overrides go into an object together exactly if each could be written there alone. */
  lemma MergeSucceedsExactly(base: Json, overrides: seq<Override>)
    requires Independent(multiset(overrides)) && base.Obj?
    ensures Merged(base, overrides).Ok?
            <==> forall o | o in overrides :: !exists i: nat :: i < |PathOf(o)| && Blocks(base, PathOf(o)[..i])
  {
    hide Written, Independent, PathOf;
    WrittenWhenEachFits(base, overrides);
    assert forall o :: o in overrides <==> o in multiset(overrides);
    forall o | o in overrides
      ensures Obstacle(base, PathOf(o)).None? <==> !exists i: nat :: i < |PathOf(o)| && Blocks(base, PathOf(o)[..i])
    {
      FitsExactly(base, PathOf(o));
    }
  }

  lemma FitsExactly(v: Json, p: Path)
    ensures Obstacle(v, p).None? <==> !exists i: nat :: i < |p| && Blocks(v, p[..i])
  {
    forall i: nat | i < |p| ensures Obstacle(v, p) == Some(i) <==> Blocks(v, p[..i]) {
      ObstacleExactly(v, p, i);
    }
    if Obstacle(v, p).Some? {
      ObstacleExactly(v, p, Obstacle(v, p).value);
    }
  }

  /** What was merged reads back, and the rest of the body is the base's. */
  lemma MergeKeepsTheBase(base: Json, overrides: seq<Override>, o: Override, q: Path)
    requires Independent(multiset(overrides)) && Merged(base, overrides).Ok?
    ensures o in overrides ==> Get(Merged(base, overrides).value, PathOf(o)) == Some(o.1)
    ensures (forall o' | o' in overrides :: Unrelated(PathOf(o'), q)) ==>
              Get(Merged(base, overrides).value, q) == Get(base, q)
  {
    hide Get, PathOf, Unrelated, Independent;
    MergeReadsBack(base, overrides, o, q);
  }

  /** `--body-file` with `{"body": "x"}` and an override for `/title` sends both. */
  lemma TitleIsAdded(text: string, title: string)
    ensures Merged(Obj(map["body" := Str(text)]), [("/title", Str(title))])
            == Ok(Obj(map["body" := Str(text), "title" := Str(title)]))
  {
    var base, o := Obj(map["body" := Str(text)]), ("/title", Str(title));
    PointerRoundTrip(["title"]);
    TitlePointer();
    MergeGrows(base, [], o);
    assert [] + [o] == [o];
    assert ["title"][1..] == [];
    assert base.fields["title" := Str(title)] == map["body" := Str(text), "title" := Str(title)];
  }

  lemma TitlePointer()
    ensures PathPointer(["title"]) == "/title"
  {
    assert Escape("title") == "title" by {
      assert "title"[1..] == "itle" && "itle"[1..] == "tle" && "tle"[1..] == "le" && "le"[1..] == "e" && "e"[1..] == "";
      assert Escape("e") == "e" && Escape("le") == "le" && Escape("tle") == "tle";
    }
    assert ["title"][1..] == [];
    assert EscapeAll(["title"]) == ["title"];
  }
}
