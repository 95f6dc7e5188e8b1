/**
 `-f`/`-F` fields: the `head[repo]=v` and `labels[]=v` key syntax, and the JSON object a
 list of such fields folds into.
 */
module Fields {
  import opened Wrappers
  import opened JsonTree
  import opened Text

  // -------------------------------------------------------------------------- key text

  /** A bracket segment: a key, or `[]`, which appends to an array. */
  datatype Seg = Key(k: string) | Append

  datatype FieldError =
    | NoName
    | Unclosed
    | ExpectedBracket
    | Conflict(name: string)   // an earlier field gave this name a different shape
    | IndexesIntoArray         // `labels[][x]`

  /** The segments of a key from its first `[` on. */
  function Segments(rest: string): Result<seq<Seg>, FieldError>
    decreases |rest|
  {
    if rest == "" then Ok([])
    else
      match Find(rest, ']')
      case None => Err(Unclosed)
      case Some(close) =>
        if rest[0] != '[' then Err(ExpectedBracket)
        else
          var inner := rest[1..close];
          After([if inner == "" then Append else Key(inner)], Segments(rest[close + 1..]))
  }

  function KeyParts(key: string): Result<(string, seq<Seg>), FieldError> {
    match Find(key, '[')
    case None => Ok((key, []))
    case Some(open) =>
      if open == 0 then Err(NoName)
      else
        match Segments(key[open..])
        case Err(e) => Err(e)
        case Ok(segs) => Ok((key[..open], segs))
  }

  /** A parse of the rest, with the segments already read in front. */
  function After(segs: seq<Seg>, r: Result<seq<Seg>, FieldError>): Result<seq<Seg>, FieldError> {
    match r
    case Err(e) => Err(e)
    case Ok(more) => Ok(segs + more)
  }

  lemma AfterOne(segs: seq<Seg>, seg: Seg, r: Result<seq<Seg>, FieldError>)
    ensures After(segs, After([seg], r)) == After(segs + [seg], r)
  {
    if r.Ok? {
      assert segs + ([seg] + r.value) == segs + [seg] + r.value;
    }
  }

  lemma AfterNone(r: Result<seq<Seg>, FieldError>)
    ensures After([], r) == r
  {
    if r.Ok? {
      assert [] + r.value == r.value;
    }
  }

  method SplitKey(key: string) returns (r: Result<(string, seq<Seg>), FieldError>)
    ensures r == KeyParts(key)
  {
    var open := Find(key, '[');
    if open.None? {
      return Ok((key, []));
    }
    var name := key[..open.value];
    if name == "" {
      return Err(NoName);
    }
    var segs: seq<Seg> := [];
    var rest := key[open.value..];
    AfterNone(Segments(rest));
    while rest != ""
      invariant Segments(key[open.value..]) == After(segs, Segments(rest))
      decreases |rest|
    {
      var close := Find(rest, ']');
      if close.None? {
        return Err(Unclosed);
      }
      if rest[0] != '[' {
        return Err(ExpectedBracket);
      }
      var inner := rest[1..close.value];
      var seg := if inner == "" then Append else Key(inner);
      AfterOne(segs, seg, Segments(rest[close.value + 1..]));
      segs := segs + [seg];
      rest := rest[close.value + 1..];
    }
    assert segs + [] == segs;
    return Ok((name, segs));
  }

  function SegText(seg: Seg): string {
    if seg.Append? then "[]" else "[" + seg.k + "]"
  }

  function SegsText(segs: seq<Seg>): string {
    if segs == [] then "" else SegText(segs[0]) + SegsText(segs[1..])
  }

  /** How a name and its segments are written. */
  function KeyText(name: string, segs: seq<Seg>): string {
    name + SegsText(segs)
  }

  /** What can be written: no `[` in the name, no `]` in a key, and nothing empty that matters. */
  predicate Writable(name: string, segs: seq<Seg>) {
    && '[' !in name
    && (segs != [] ==> name != "")
    && SegsWritable(segs)
  }

  predicate SegsWritable(segs: seq<Seg>) {
    forall i | 0 <= i < |segs| :: segs[i].Key? ==> segs[i].k != "" && ']' !in segs[i].k
  }

  lemma Slices(a: string, b: string, c: string)
    ensures (a + b + c)[|a|..|a| + |b|] == b
    ensures (a + b + c)[|a| + |b|..] == c
    ensures (a + b + c)[..|a|] == a
  {
  }

  /** One bracket pair in front of a rest. */
  lemma SegmentsCons(key: string, rest: string)
    requires ']' !in key
    ensures Segments("[" + key + "]" + rest)
            == After([if key == "" then Append else Key(key)], Segments(rest))
  {
    hide Find, After;
    var text := "[" + key + "]" + rest;
    FindAfter("[" + key, ']', rest);
    Slices("[", key, "]" + rest);
    Slices("[" + key, "]", rest);
    assert text == "[" + key + ("]" + rest);
  }

  lemma {:induction false} SegmentsOfText(segs: seq<Seg>)
    requires SegsWritable(segs)
    ensures Segments(SegsText(segs)) == Ok(segs)
  {
    if segs != [] {
      var seg, rest := segs[0], SegsText(segs[1..]);
      var key := if seg.Append? then "" else seg.k;
      assert SegsWritable(segs[1..]);
      SegmentsOfText(segs[1..]);
      assert SegsText(segs) == SegText(seg) + rest && (seg.Key? ==> key != "" && ']' !in key);
      hide Segments, SegsText, SegsWritable;
      SegmentsCons(key, rest);
      assert SegText(seg) == "[" + key + "]";
      assert segs == [seg] + segs[1..];
    }
  }

  lemma SegsTextCons(seg: Seg, more: seq<Seg>)
    ensures SegsText([seg] + more) == SegText(seg) + SegsText(more)
    ensures SegsWritable([seg] + more)
            <==> (seg.Key? ==> seg.k != "" && ']' !in seg.k) && SegsWritable(more)
  {
    var segs := [seg] + more;
    assert segs[1..] == more;
    if SegsWritable(segs) {
      assert segs[0] == seg && forall i | 0 <= i < |more| :: segs[i + 1] == more[i];
    }
  }

  lemma CutAt(rest: string, close: nat)
    requires close < |rest| && rest[0] == '[' && rest[close] == ']' && ']' !in rest[..close]
    ensures ']' !in rest[1..close]
    ensures rest == "[" + rest[1..close] + "]" + rest[close + 1..]
  {
    assert forall i | 1 <= i < close :: rest[i] == rest[..close][i];
  }

  /** The first bracket pair of text that can be read, and the rest. */
  lemma SegmentsStep(rest: string) returns (seg: Seg, inner: string, more: string)
    requires rest != "" && Segments(rest).Ok?
    ensures |more| < |rest| && Segments(more).Ok? && Segments(rest) == Ok([seg] + Segments(more).value)
    ensures rest == "[" + inner + "]" + more && ']' !in inner
    ensures seg == if inner == "" then Append else Key(inner)
  {
    var close := Find(rest, ']').value;
    hide Find;
    CutAt(rest, close);
    inner, more := rest[1..close], rest[close + 1..];
    seg := if inner == "" then Append else Key(inner);
  }

  lemma {:induction false} TextOfSegments(rest: string)
    requires Segments(rest).Ok?
    ensures SegsWritable(Segments(rest).value) && SegsText(Segments(rest).value) == rest
    decreases |rest|
  {
    if rest == "" {
      assert SegsText([]) == "";
    } else {
      var seg, inner, more := SegmentsStep(rest);
      hide Segments, SegsText, SegsWritable;
      TextOfSegments(more);
      SegsTextCons(seg, Segments(more).value);
      assert SegText(seg) == "[" + inner + "]";
    }
  }

  lemma TextOfKey(key: string)
    requires KeyParts(key).Ok?
    ensures var (name, segs) := KeyParts(key).value; Writable(name, segs) && KeyText(name, segs) == key
  {
    hide Segments, SegsText, SegsWritable, Find;
    var open := Find(key, '[');
    if open.Some? {
      TextOfSegments(key[open.value..]);
      NoSegments();
      assert key == key[..open.value] + key[open.value..];
    } else {
      NoSegments();
      assert key + "" == key;
    }
  }

  lemma NoSegments()
    ensures SegsText([]) == "" && SegsWritable([])
  {
  }

  lemma KeyPartsAt(name: string, more: string)
    requires name != "" && '[' !in name
    ensures var text := "[" + more;
            KeyParts(name + text)
            == match Segments(text) case Err(e) => Err(e) case Ok(segs) => Ok((name, segs))
  {
    hide Segments, Find;
    FindAfter(name, '[', more);
    Slices(name, "[" + more, "");
    assert name + ("[" + more) == name + ['['] + more;
    assert name + ("[" + more) + "" == name + ("[" + more);
  }

  lemma TextStarts(segs: seq<Seg>)
    requires segs != []
    ensures SegsText(segs) != "" && SegsText(segs) == "[" + SegsText(segs)[1..]
  {
  }

  lemma KeyOfText(name: string, segs: seq<Seg>)
    requires Writable(name, segs)
    ensures KeyParts(KeyText(name, segs)) == Ok((name, segs))
  {
    if segs == [] {
      assert name + "" == name;
    } else {
      SegmentsOfText(segs);
      TextStarts(segs);
      hide Segments, SegsText, Find, KeyParts;
      KeyPartsAt(name, SegsText(segs)[1..]);
    }
  }

  /** Parsing and writing keys are inverse: a key parses to exactly what writes it. */
  lemma KeysRoundTrip(key: string, name: string, segs: seq<Seg>)
    ensures KeyParts(key) == Ok((name, segs)) <==> Writable(name, segs) && KeyText(name, segs) == key
  {
    hide KeyParts, KeyText, Writable;
    if KeyParts(key).Ok? {
      TextOfKey(key);
    }
    if Writable(name, segs) {
      KeyOfText(name, segs);
    }
  }

  // --------------------------------------------------------------------------- inserting

  datatype Ending = Plain | Pushing | Indexing

  /** Where a field writes: the keys up to the first `[]`, and what it does there. */
  datatype Target = Target(path: Path, ending: Ending)

  function TargetOf(name: string, segs: seq<Seg>): (t: Target)
    decreases |segs|
  {
    if segs == [] then Target([name], Plain)
    else if segs[0].Append? then Target([name], if |segs| == 1 then Pushing else Indexing)
    else
      var rest := TargetOf(segs[0].k, segs[1..]);
      Target([name] + rest.path, rest.ending)
  }

  /** What appending a value adds: its elements if it is itself an array. */
  function Appended(value: Json): seq<Json> {
    if value.Arr? then value.items else [value]
  }

  /** One insertion, as a write at the target. */
  function Inserted(root: Json, t: Target, value: Json): (r: Result<Json, FieldError>)
    requires t.path != []
    ensures r.Ok? ==> r.value.Obj?
  {
    match Obstacle(root, t.path)
    case Some(i) => Err(Conflict(if 0 < i <= |t.path| then t.path[i - 1] else ""))
    case None =>
      match t.ending
      case Plain => Ok(Put(root, t.path, value))
      case Indexing => Err(IndexesIntoArray)
      case Pushing =>
        match Get(root, t.path)
        case None => Ok(Put(root, t.path, Arr(Appended(value))))
        case Some(Arr(items)) => Ok(Put(root, t.path, Arr(items + Appended(value))))
        case Some(_) => Err(Conflict(t.path[|t.path| - 1]))
  }

  /** The object being built. The source's `&mut` into it is the path `cursor`. */
  class Building {
    var root: Json

    constructor ()
      ensures root == Obj(map[])
    {
      root := Obj(map[]);
    }

    /** On an error the tree may hold empty objects made on the way; the caller drops it. */
    method Insert(cursor: Path, name: string, segs: seq<Seg>, value: Json) returns (r: Result<(), FieldError>)
      requires Get(root, cursor).Some? && Get(root, cursor).value.Obj?
      modifies this
      ensures var t := TargetOf(name, segs);
              match Inserted(old(root), Target(cursor + t.path, t.ending), value)
              case Ok(v) => r == Ok(()) && root == v
              case Err(e) => r == Err(e)
      decreases |segs|
    {
      var slot := cursor + [name];
      var obj := Get(root, cursor).value.fields;
      SlotIsReachable(root, cursor, name);
      if segs == [] {
        root := Put(root, slot, value);
        return Ok(());
      }
      if segs[0].Append? {
        if |segs| > 1 {
          return Err(IndexesIntoArray);
        }
        if name !in obj {
          root := Put(root, slot, Arr(Appended(value)));
          return Ok(());
        }
        if !obj[name].Arr? {
          return Err(Conflict(name));
        }
        root := Put(root, slot, Arr(obj[name].items + Appended(value)));
        return Ok(());
      }
      ghost var rest := TargetOf(segs[0].k, segs[1..]).path;
      assert cursor + ([name] + rest) == slot + rest;
      ObstacleExactly(root, slot + rest, |slot|);
      assert (slot + rest)[..|slot|] == slot && slot + [] == slot;
      if name !in obj {
        PutThrough(root, slot, rest, value);
        InsertThrough(root, slot, rest, TargetOf(segs[0].k, segs[1..]).ending, value);
        PutGet(root, slot, Obj(map[]), []);
        root := Put(root, slot, Obj(map[]));
      } else if !obj[name].Obj? {
        return Err(Conflict(name));
      }
      r := Insert(slot, segs[0].k, segs[1..], value);
    }
  }

  /** The slot `name` of an object that is there. */
  lemma {:induction false} SlotIsReachable(v: Json, cursor: Path, name: string)
    requires Get(v, cursor).Some? && Get(v, cursor).value.Obj?
    ensures Obstacle(v, cursor + [name]).None?
    ensures Get(v, cursor + [name])
            == if name in Get(v, cursor).value.fields then Some(Get(v, cursor).value.fields[name]) else None
    decreases |cursor|
  {
    if cursor == [] {
      assert cursor + [name] == [name];
      assert [name][1..] == [];
    } else {
      assert (cursor + [name])[1..] == cursor[1..] + [name];
      SlotIsReachable(v.fields[cursor[0]], cursor[1..], name);
    }
  }

  /** Creating the absent object first makes no difference to the outcome below it. */
  lemma InsertThrough(v: Json, slot: Path, rest: Path, ending: Ending, value: Json)
    requires rest != [] && Obstacle(v, slot).None? && Get(v, slot).None?
    ensures Inserted(Put(v, slot, Obj(map[])), Target(slot + rest, ending), value)
            == Inserted(v, Target(slot + rest, ending), value)
  {
    PutGet(v, slot, Obj(map[]), rest);
    NothingBelowNothing(v, slot, rest);
    PutThrough(v, slot, rest, value);
    PutThrough(v, slot, rest, Arr(Appended(value)));
  }

  lemma {:induction false} NothingBelowNothing(v: Json, p: Path, q: Path)
    requires Get(v, p).None?
    ensures Get(v, p + q).None?
    decreases |p|
  {
    if p != [] {
      assert (p + q)[1..] == p[1..] + q;
      if v.Obj? && p[0] in v.fields {
        NothingBelowNothing(v.fields[p[0]], p[1..], q);
      }
    }
  }

  /** An insertion fails exactly when it meets another shape, or indexes into an array. */
  lemma InsertFailsExactly(root: Json, t: Target, value: Json)
    requires t.path != []
    ensures Inserted(root, t, value).Err?
            <==> (exists i: nat :: i < |t.path| && InTheWay(root, t.path[..i]))
                 || t.ending.Indexing?
                 || (t.ending.Pushing? && Get(root, t.path).Some? && !Get(root, t.path).value.Arr?)
  {
    forall i: nat | i < |t.path| ensures Obstacle(root, t.path) == Some(i) <==> InTheWay(root, t.path[..i]) {
      ObstacleExactly(root, t.path, i);
    }
    if Obstacle(root, t.path).Some? {
      ObstacleExactly(root, t.path, Obstacle(root, t.path).value);
    }
  }

  predicate InTheWay(v: Json, p: Path) {
    Get(v, p).Some? && !Get(v, p).value.Obj?
  }

  /** An insertion leaves every unrelated path as it was. */
  lemma InsertFrame(root: Json, t: Target, value: Json, q: Path)
    requires t.path != [] && Inserted(root, t, value).Ok? && Unrelated(t.path, q)
    ensures Get(Inserted(root, t, value).value, q) == Get(root, q)
  {
    hide Get, Put, Obstacle;
    var held := Get(root, t.path);
    var x := if t.ending.Plain? then value
             else if held.Some? && held.value.Arr? then Arr(held.value.items + Appended(value))
             else Arr(Appended(value));
    PutFrame(root, t.path, x, q);
  }

  // ----------------------------------------------------------------------------- to_body

  datatype Field = Field(key: string, value: Json)

  function Folded(root: Json, fields: seq<Field>): Result<Json, FieldError>
    decreases |fields|
  {
    if fields == [] then Ok(root)
    else
      match KeyParts(fields[0].key)
      case Err(e) => Err(e)
      case Ok((name, segs)) =>
        match Inserted(root, TargetOf(name, segs), fields[0].value)
        case Err(e) => Err(e)
        case Ok(next) => Folded(next, fields[1..])
  }

  method ToBody(fields: seq<Field>) returns (r: Result<Json, FieldError>)
    ensures r == Folded(Obj(map[]), fields)
  {
    hide Inserted, TargetOf, KeyParts;
    var body := new Building();
    var i := 0;
    while i < |fields|
      invariant 0 <= i <= |fields|
      invariant body.root.Obj?
      invariant Folded(Obj(map[]), fields) == Folded(body.root, fields[i..])
    {
      assert fields[i..][0] == fields[i] && fields[i..][1..] == fields[i + 1..];
      var parts := SplitKey(fields[i].key);
      if parts.Err? {
        return Err(parts.error);
      }
      ghost var t := TargetOf(parts.value.0, parts.value.1);
      assert [] + t.path == t.path && Get(body.root, []) == Some(body.root);
      ghost var before := body.root;
      var done := body.Insert([], parts.value.0, parts.value.1, fields[i].value);
      if done.Err? {
        return Err(done.error);
      }
      i := i + 1;
    }
    return Ok(body.root);
  }

  // ------------------------------------------------------------------ what the body holds

  /** A field as the write it makes. */
  datatype Write = Write(target: Target, value: Json)

  function WriteOf(f: Field): Write {
    match KeyParts(f.key)
    case Err(_) => Write(Target([""], Indexing), f.value)
    case Ok((name, segs)) => Write(TargetOf(name, segs), f.value)
  }

  function WritesOf(fields: seq<Field>): (ws: seq<Write>)
    ensures |ws| == |fields|
    ensures forall i | 0 <= i < |ws| :: ws[i].target.path != []
  {
    if fields == [] then [] else [WriteOf(fields[0])] + WritesOf(fields[1..])
  }

  /** None of these writes goes below `p`. */
  predicate IsLeaf(ws: seq<Write>, p: Path) {
    forall i | 0 <= i < |ws| :: !(p < ws[i].target.path)
  }

  function ItemsOf(v: Option<Json>): seq<Json> {
    if v.Some? && v.value.Arr? then v.value.items else []
  }

  /** What is at a path after a write at `below`, counted from that path. */
  function WithInside(v: Option<Json>, below: Target, value: Json): Option<Json>
    requires below.path != []
  {
    match Inserted(if v.Some? then v.value else Obj(map[]), below, value)
    case Ok(after) => Some(after)
    case Err(_) => v
  }

  /**
   What a path should hold, given the writes in order and what it held before them. A plain
   write at or above it replaces what is there, an append at it adds to the list there, and a
   write below it is an insertion into what is there.
   */
  function Expected(ws: seq<Write>, p: Path, before: Option<Json>): Option<Json> {
    if ws == [] then before
    else
      var w, rest := ws[0], ws[1..];
      var now :=
        if p < w.target.path then WithInside(before, Target(w.target.path[|p|..], w.target.ending), w.value)
        else if w.target.ending.Plain? && w.target.path <= p then Get(w.value, p[|w.target.path|..])
        else if w.target.ending.Pushing? && w.target.path == p then Some(Arr(ItemsOf(before) + Appended(w.value)))
        else if w.target.ending.Pushing? && w.target.path < p then None
        else before;
      Expected(rest, p, now)
  }

  /** Reading below a path is reading inside what is there. */
  lemma {:induction false} GetInside(v: Json, p: Path, q: Path)
    ensures Get(v, p + q) == if Get(v, p).Some? then Get(Get(v, p).value, q) else None
    decreases |p|
  {
    if p == [] {
      assert p + q == q;
    } else {
      assert (p + q)[1..] == p[1..] + q;
      if v.Obj? && p[0] in v.fields {
        GetInside(v.fields[p[0]], p[1..], q);
      }
    }
  }

  lemma InsertReadsInside(root: Json, w: Write, p: Path)
    requires p < w.target.path && Inserted(root, w.target, w.value).Ok?
    ensures Get(Inserted(root, w.target, w.value).value, p)
            == WithInside(Get(root, p), Target(w.target.path[|p|..], w.target.ending), w.value)
    ensures Get(Inserted(root, w.target, w.value).value, p).Some?
    ensures Get(Inserted(root, w.target, w.value).value, p).value.Obj?
  {
    var q := w.target.path[|p|..];
    assert w.target.path == p + q && q != [];
    hide Put, Obstacle;
    var held := Get(root, w.target.path);
    var x := if w.target.ending.Plain? then w.value
             else if held.Some? && held.value.Arr? then Arr(held.value.items + Appended(w.value))
             else Arr(Appended(w.value));
    PutAbove(root, p, x, q);
    GetInside(root, p, q);
    assert Get(root, p).None? ==> Get(Obj(map[]), q).None?;
  }

  lemma InsertReadsBack(root: Json, w: Write, p: Path)
    requires w.target.path != [] && Inserted(root, w.target, w.value).Ok?
    ensures Get(Inserted(root, w.target, w.value).value, p) == Expected([w], p, Get(root, p))
  {
    var q := w.target.path;
    assert [w][1..] == [];
    if p < q {
      InsertReadsInside(root, w, p);
    } else if q <= p {
      hide WithInside;
      assert p == q + p[|q|..] && q + [] == q;
      var held := Get(root, q);
      var x := if w.target.ending.Plain? then w.value
               else Arr(ItemsOf(held) + Appended(w.value));
      assert [] + Appended(w.value) == Appended(w.value);
      assert Inserted(root, w.target, w.value).value == Put(root, q, x);
      PutGet(root, q, x, p[|q|..]);
    } else {
      assert p <= q ==> p < q || p == q;
      InsertFrame(root, w.target, w.value, p);
    }
  }

  lemma ExpectedStep(w: Write, rest: seq<Write>, p: Path, before: Option<Json>)
    ensures Expected([w] + rest, p, before) == Expected(rest, p, Expected([w], p, before))
  {
    assert ([w] + rest)[1..] == rest && [w][1..] == [];
  }

  /** Every path of a body built successfully holds exactly what the fields say it should. */
  lemma {:induction false} BodyHoldsWhatWasWritten(root: Json, fields: seq<Field>, p: Path)
    requires Folded(root, fields).Ok?
    ensures Get(Folded(root, fields).value, p) == Expected(WritesOf(fields), p, Get(root, p))
    decreases |fields|
  {
    if fields != [] {
      hide Get, Inserted, KeyParts, TargetOf;
      var ws := WritesOf(fields);
      var w := WriteOf(fields[0]);
      assert ws[0] == w && ws[1..] == WritesOf(fields[1..]) && ws == [w] + ws[1..];
      var next := Inserted(root, w.target, w.value).value;
      BodyHoldsWhatWasWritten(next, fields[1..], p);
      InsertReadsBack(root, w, p);
      ExpectedStep(w, ws[1..], p, Get(root, p));
    }
  }

  /** The values appended at `p`, in order. */
  function AppendedAt(ws: seq<Write>, p: Path): seq<Json> {
    if ws == [] then []
    else (if ws[0].target == Target(p, Pushing) then Appended(ws[0].value) else []) + AppendedAt(ws[1..], p)
  }

  /** None of these writes replaces what is at `p`. */
  predicate OnlyAppends(ws: seq<Write>, p: Path) {
    forall i | 0 <= i < |ws| ::
      && !(ws[i].target.ending.Plain? && ws[i].target.path <= p)
      && !(ws[i].target.ending.Pushing? && ws[i].target.path < p)
  }

  predicate AnyAppend(ws: seq<Write>, p: Path) {
    exists i :: 0 <= i < |ws| && ws[i].target == Target(p, Pushing)
  }

  lemma AnyAppendCons(w: Write, rest: seq<Write>, p: Path)
    ensures AnyAppend([w] + rest, p) <==> w.target == Target(p, Pushing) || AnyAppend(rest, p)
    ensures AppendedAt([w] + rest, p)
            == (if w.target == Target(p, Pushing) then Appended(w.value) else []) + AppendedAt(rest, p)
    ensures OnlyAppends([w] + rest, p) ==> OnlyAppends(rest, p)
  {
    var ws := [w] + rest;
    assert ws[1..] == rest && forall i | 0 <= i < |rest| :: ws[i + 1] == rest[i];
    if w.target == Target(p, Pushing) {
      assert ws[0] == w;
    }
  }

  lemma ExpectedOfAppend(w: Write, p: Path, before: Option<Json>)
    requires OnlyAppends([w], p) && IsLeaf([w], p)
    ensures Expected([w], p, before)
            == if w.target == Target(p, Pushing) then Some(Arr(ItemsOf(before) + Appended(w.value))) else before
  {
    hide Get;
    assert [w][1..] == [] && [w][0] == w;
    assert w.target.path == p && w.target.ending.Pushing? ==> w.target == Target(p, Pushing);
  }

  /** What a path holds after writes that only append to it. */
  ghost function AppendedTo(ws: seq<Write>, p: Path, before: Option<Json>): Option<Json> {
    if AnyAppend(ws, p) then Some(Arr(ItemsOf(before) + AppendedAt(ws, p))) else before
  }

  lemma AppendedToStep(w: Write, rest: seq<Write>, p: Path, before: Option<Json>)
    requires OnlyAppends([w], p) && IsLeaf([w], p)
    ensures AppendedTo(rest, p, Expected([w], p, before)) == AppendedTo([w] + rest, p, before)
  {
    hide Expected, AppendedAt, OnlyAppends, AnyAppend, IsLeaf;
    AnyAppendCons(w, rest, p);
    ExpectedOfAppend(w, p, before);
    var more := AppendedAt(rest, p);
    assert [] + more == more;
    if w.target == Target(p, Pushing) {
      var added := Appended(w.value);
      assert ItemsOf(before) + added + more == ItemsOf(before) + (added + more);
      if !AnyAppend(rest, p) {
        NoneAppended(rest, p);
        assert added + [] == added;
      }
    }
  }

  lemma {:induction false} NoneAppended(ws: seq<Write>, p: Path)
    requires !AnyAppend(ws, p)
    ensures AppendedAt(ws, p) == []
  {
    if ws != [] {
      assert ws == [ws[0]] + ws[1..];
      AnyAppendCons(ws[0], ws[1..], p);
      NoneAppended(ws[1..], p);
    }
  }

  lemma {:induction false} ExpectedOfAppends(ws: seq<Write>, p: Path, before: Option<Json>)
    requires OnlyAppends(ws, p) && IsLeaf(ws, p)
    ensures Expected(ws, p, before) == AppendedTo(ws, p, before)
  {
    if ws != [] {
      var w, rest := ws[0], ws[1..];
      assert OnlyAppends([w], p) && IsLeaf([w], p) && IsLeaf(rest, p) && ws == [w] + rest;
      hide Expected, AppendedTo, OnlyAppends, AnyAppend, IsLeaf;
      AnyAppendCons(w, rest, p);
      ExpectedStep(w, rest, p, before);
      ExpectedOfAppends(rest, p, Expected([w], p, before));
      AppendedToStep(w, rest, p, before);
    }
  }

  lemma {:induction false} ExpectedAppend(a: seq<Write>, b: seq<Write>, p: Path, before: Option<Json>)
    ensures Expected(a + b, p, before) == Expected(b, p, Expected(a, p, before))
  {
    if a == [] {
      assert a + b == b;
    } else {
      hide Get;
      assert (a + b)[1..] == a[1..] + b;
      var w := a[0];
      var now := Expected([w], p, before);
      ExpectedStep(w, a[1..], p, before);
      ExpectedStep(w, a[1..] + b, p, before);
      assert a == [w] + a[1..] && a + b == [w] + (a[1..] + b);
      ExpectedAppend(a[1..], b, p, now);
    }
  }

  predicate IsList(v: Option<Json>) {
    v.Some? && v.value.Arr?
  }

  predicate IsObject(v: Option<Json>) {
    v.Some? && v.value.Obj?
  }

  /** What one successful write that does not replace `p` makes of it: lists stay lists, objects objects. */
  lemma KindKept(root: Json, w: Write, p: Path)
    requires w.target.path != [] && Inserted(root, w.target, w.value).Ok? && OnlyAppends([w], p)
    ensures var held := Get(Inserted(root, w.target, w.value).value, p);
            if p < w.target.path then !IsList(Get(root, p)) && IsObject(held)
            else if w.target == Target(p, Pushing) then !IsObject(Get(root, p)) && IsList(held)
            else held == Get(root, p)
  {
    assert [w][0] == w && [w][1..] == [];
    var q := w.target.path;
    if p < q {
      InsertReadsInside(root, w, p);
      if Get(root, p).Some? && !Get(root, p).value.Obj? {
        BlockedBelow(root, p, q);
      }
    } else {
      InsertReadsBack(root, w, p);
    }
  }

  lemma BlockedBelow(root: Json, p: Path, q: Path)
    requires p < q && Get(root, p).Some? && !Get(root, p).value.Obj?
    ensures Obstacle(root, q).Some?
  {
    assert q[..|p|] == p;
    ObstacleExactly(root, q, |p|);
  }

  /** A list takes no writes below it and an object no appends, so a path appended to has none below. */
  lemma {:induction false} AppendedPathsAreLeaves(root: Json, fields: seq<Field>, p: Path)
    requires Folded(root, fields).Ok? && OnlyAppends(WritesOf(fields), p)
    ensures IsList(Get(root, p)) || AnyAppend(WritesOf(fields), p) ==> IsLeaf(WritesOf(fields), p)
    ensures IsObject(Get(root, p)) ==> !AnyAppend(WritesOf(fields), p)
    decreases |fields|
  {
    if fields != [] {
      hide Get, Inserted, KeyParts, TargetOf;
      var ws, w := WritesOf(fields), WriteOf(fields[0]);
      assert ws[0] == w && ws[1..] == WritesOf(fields[1..]) && ws == [w] + ws[1..];
      assert OnlyAppends([w], p);
      AnyAppendCons(w, ws[1..], p);
      KindKept(root, w, p);
      AppendedPathsAreLeaves(Inserted(root, w.target, w.value).value, fields[1..], p);
      assert IsLeaf(ws[1..], p) && !(p < w.target.path) ==> IsLeaf(ws, p);
    }
  }

  lemma {:induction false} FoldedFrom(root: Json, fields: seq<Field>, k: nat) returns (middle: Json)
    requires k <= |fields| && Folded(root, fields).Ok?
    ensures Folded(root, fields) == Folded(middle, fields[k..])
    ensures WritesOf(fields[k..]) == WritesOf(fields)[k..]
    decreases k
  {
    if k == 0 {
      middle := root;
      assert fields[0..] == fields && WritesOf(fields)[0..] == WritesOf(fields);
    } else {
      var w := WriteOf(fields[0]);
      middle := FoldedFrom(Inserted(root, w.target, w.value).value, fields[1..], k - 1);
      assert fields[1..][k - 1..] == fields[k..];
      assert WritesOf(fields)[k..] == WritesOf(fields[1..])[k - 1..];
    }
  }

  /**
   In closed form. Let write `k` be the last plain one at or above `p`, with no append above
   `p` since; what came before `k` does not matter. If values were appended at `p` since, it
   holds the list that write left followed by those values in order. If nothing was written
   below it since either, it holds what that write left.
   */
  lemma LastWriteCounts(fields: seq<Field>, p: Path, k: nat)
    requires Folded(Obj(map[]), fields).Ok? && k < |fields|
    requires WritesOf(fields)[k].target.ending.Plain? && WritesOf(fields)[k].target.path <= p
    requires OnlyAppends(WritesOf(fields)[k + 1..], p)
    ensures var w, after := WritesOf(fields)[k], WritesOf(fields)[k + 1..];
            var left, held := Get(w.value, p[|w.target.path|..]), Get(Folded(Obj(map[]), fields).value, p);
            && (AnyAppend(after, p) ==> held == Some(Arr(ItemsOf(left) + AppendedAt(after, p))))
            && (!AnyAppend(after, p) && IsLeaf(after, p) ==> held == left)
  {
    var ws := WritesOf(fields);
    var middle := FoldedFrom(Obj(map[]), fields, k + 1);
    hide Get, Folded, AppendedTo, IsLeaf, OnlyAppends, AppendedAt;
    AppendedPathsAreLeaves(middle, fields[k + 1..], p);
    BodyHoldsWhatWasWritten(Obj(map[]), fields, p);
    var left := Get(ws[k].value, p[|ws[k].target.path|..]);
    LaterWritesCount(ws, p, k, Get(Obj(map[]), p));
    if IsLeaf(ws[k + 1..], p) {
      ExpectedOfAppends(ws[k + 1..], p, left);
      AppendedToIs(ws[k + 1..], p, left);
    }
  }

  lemma AppendedToIs(ws: seq<Write>, p: Path, before: Option<Json>)
    ensures AppendedTo(ws, p, before)
            == if AnyAppend(ws, p) then Some(Arr(ItemsOf(before) + AppendedAt(ws, p))) else before
  {
  }

  /** From a plain write at or above `p` on, what was written before it does not matter. */
  lemma LaterWritesCount(ws: seq<Write>, p: Path, k: nat, before: Option<Json>)
    requires k < |ws| && ws[k].target.ending.Plain? && ws[k].target.path <= p
    ensures Expected(ws, p, before) == Expected(ws[k + 1..], p, Get(ws[k].value, p[|ws[k].target.path|..]))
  {
    hide Get;
    var w, after := ws[k], ws[k + 1..];
    assert ws == ws[..k] + ([w] + after);
    ExpectedAppend(ws[..k], [w] + after, p, before);
    ExpectedStep(w, after, p, Expected(ws[..k], p, before));
    assert [w][1..] == [] && !(p < w.target.path);
  }

  /** And a path no plain write ever covered holds just the values appended there. */
  lemma OnlyAppendsCount(fields: seq<Field>, p: Path)
    requires Folded(Obj(map[]), fields).Ok? && p != [] && OnlyAppends(WritesOf(fields), p)
    requires AnyAppend(WritesOf(fields), p) || IsLeaf(WritesOf(fields), p)
    ensures Get(Folded(Obj(map[]), fields).value, p)
            == if AnyAppend(WritesOf(fields), p) then Some(Arr(AppendedAt(WritesOf(fields), p))) else None
  {
    AppendedPathsAreLeaves(Obj(map[]), fields, p);
    hide Folded;
    var ws := WritesOf(fields);
    BodyHoldsWhatWasWritten(Obj(map[]), fields, p);
    ExpectedOfAppends(ws, p, None);
    assert [] + AppendedAt(ws, p) == AppendedAt(ws, p);
  }

  // ------------------------------------------------------------------ one key, by its text

  function Brackets(keys: seq<string>): string {
    if keys == [] then "" else "[" + keys[0] + "]" + Brackets(keys[1..])
  }

  /** A name and keys that can be written: nothing that would be read as a bracket, and nothing empty. */
  predicate Spellable(name: string, keys: seq<string>) {
    name != "" && '[' !in name && forall i | 0 <= i < |keys| :: keys[i] != "" && ']' !in keys[i]
  }

  function KeySegs(keys: seq<string>): (segs: seq<Seg>)
    ensures |segs| == |keys| && forall i | 0 <= i < |keys| :: segs[i] == Key(keys[i])
  {
    if keys == [] then [] else [Key(keys[0])] + KeySegs(keys[1..])
  }

  lemma {:induction false} BracketsAreText(keys: seq<string>, more: seq<Seg>)
    ensures SegsText(KeySegs(keys) + more) == Brackets(keys) + SegsText(more)
  {
    if keys == [] {
      assert KeySegs(keys) + more == more;
      assert "" + SegsText(more) == SegsText(more);
    } else {
      var first, rest := Key(keys[0]), KeySegs(keys[1..]);
      assert KeySegs(keys) + more == [first] + (rest + more);
      assert SegText(first) == "[" + keys[0] + "]";
      BracketsAreText(keys[1..], more);
      SegsTextCons(first, rest + more);
      assert Brackets(keys) == SegText(first) + Brackets(keys[1..]);
      hide SegsText, SegText, Brackets, KeySegs;
      Associate(SegText(first), Brackets(keys[1..]), SegsText(more));
    }
  }

  lemma SpelledKey(name: string, keys: seq<string>, more: seq<Seg>)
    requires Spellable(name, keys) && SegsWritable(more)
    ensures KeyParts(name + Brackets(keys) + SegsText(more)) == Ok((name, KeySegs(keys) + more))
  {
    BracketsAreText(keys, more);
    KeysAreWritable(name, keys, more);
    hide SegsText, Brackets, KeySegs, Segments, KeyParts, SegsWritable;
    KeyOfText(name, KeySegs(keys) + more);
    Associate(name, Brackets(keys), SegsText(more));
  }

  lemma KeysAreWritable(name: string, keys: seq<string>, more: seq<Seg>)
    requires Spellable(name, keys) && SegsWritable(more)
    ensures SegsWritable(KeySegs(keys) + more)
  {
    hide KeySegs;
  }

  lemma {:induction false} TargetOfKeys(name: string, keys: seq<string>, more: seq<Seg>)
    requires more == [] || more[0].Append?
    ensures TargetOf(name, KeySegs(keys) + more)
            == Target([name] + keys, if more == [] then Plain else if |more| == 1 then Pushing else Indexing)
    decreases |keys|
  {
    var segs := KeySegs(keys) + more;
    if keys == [] {
      assert segs == more && [name] + keys == [name];
    } else {
      TargetOfKeys(keys[0], keys[1..], more);
      assert segs[0] == Key(keys[0]) && segs[1..] == KeySegs(keys[1..]) + more;
      hide KeySegs;
      assert TargetOf(name, segs).path == [name] + TargetOf(keys[0], segs[1..]).path;
      hide TargetOf;
      assert [keys[0]] + keys[1..] == keys;
    }
  }

  /** One field whose key is spelled so, on its own. */
  lemma OneField(root: Json, name: string, keys: seq<string>, more: seq<Seg>, value: Json)
    requires Spellable(name, keys) && SegsWritable(more) && (more == [] || more[0].Append?)
    ensures var t := Target([name] + keys, if more == [] then Plain else if |more| == 1 then Pushing else Indexing);
            Folded(root, [Field(name + Brackets(keys) + SegsText(more), value)]) == Inserted(root, t, value)
  {
    hide Inserted, KeyParts, TargetOf, Spellable, SegsWritable;
    SpelledKey(name, keys, more);
    TargetOfKeys(name, keys, more);
    var fields := [Field(name + Brackets(keys) + SegsText(more), value)];
    assert fields[1..] == [];
  }

  lemma AppendText()
    ensures SegsText([]) == "" && SegsText([Append]) == "[]"
    ensures SegsWritable([]) && SegsWritable([Append])
  {
    assert [Append][1..] == [];
  }

  /** Something on the way to `p` is there and no object. */
  ghost predicate Barred(v: Json, p: Path) {
    exists i: nat :: i < |p| && InTheWay(v, p[..i])
  }

  lemma BarredExactly(v: Json, p: Path)
    ensures Obstacle(v, p).Some? <==> Barred(v, p)
  {
    forall i: nat | i < |p| ensures Obstacle(v, p) == Some(i) <==> InTheWay(v, p[..i]) {
      ObstacleExactly(v, p, i);
    }
    if Obstacle(v, p).Some? {
      ObstacleExactly(v, p, Obstacle(v, p).value);
    }
  }

  /**
   `name[k1]..[kn]` writes at `name`, then `k1`, and so on down to `kn`: it succeeds unless
   something on that way is no object, and then the value is there and all else is as it was.
   */
  lemma PlainKeyMeans(root: Json, name: string, keys: seq<string>, value: Json, q: Path)
    requires Spellable(name, keys)
    ensures var (p, r) := ([name] + keys, Folded(root, [Field(name + Brackets(keys), value)]));
            && (r.Ok? <==> !Barred(root, p))
            && (r.Ok? ==> Get(r.value, p) == Some(value) && (Unrelated(p, q) ==> Get(r.value, q) == Get(root, q)))
  {
    hide Get, Put, Obstacle, Spellable, Unrelated;
    var p := [name] + keys;
    AppendText();
    OneField(root, name, keys, [], value);
    assert name + Brackets(keys) + "" == name + Brackets(keys);
    BarredExactly(root, p);
    if Obstacle(root, p).None? {
      assert p + [] == p;
      PutGet(root, p, value, []);
      GetHere(value);
      if Unrelated(p, q) {
        PutFrame(root, p, value, q);
      }
    }
  }

  lemma GetHere(v: Json)
    ensures Get(v, []) == Some(v)
  {
  }

  /**
   With `[]` at the end the value goes to the end of the list there, or begins one; a value that
   is a list is joined to it.
   */
  lemma AppendKeyMeans(root: Json, name: string, keys: seq<string>, value: Json, q: Path)
    requires Spellable(name, keys)
    ensures var (p, r) := ([name] + keys, Folded(root, [Field(name + Brackets(keys) + "[]", value)]));
            && (r.Ok? <==> !Barred(root, p) && (Get(root, p).None? || Get(root, p).value.Arr?))
            && (r.Ok? ==>
                  && Get(r.value, p) == Some(Arr((if Get(root, p).Some? then Get(root, p).value.items else [])
                                                 + if value.Arr? then value.items else [value]))
                  && (Unrelated(p, q) ==> Get(r.value, q) == Get(root, q)))
  {
    hide Get, Put, Obstacle, Spellable, Unrelated;
    var p := [name] + keys;
    AppendText();
    OneField(root, name, keys, [Append], value);
    BarredExactly(root, p);
    var held := Get(root, p);
    if Obstacle(root, p).None? && (held.None? || held.value.Arr?) {
      var list := Arr((if held.Some? then held.value.items else []) + if value.Arr? then value.items else [value]);
      assert p + [] == p && [] + Appended(value) == Appended(value);
      PutGet(root, p, list, []);
      GetHere(list);
      if Unrelated(p, q) {
        PutFrame(root, p, list, q);
      }
    }
  }

  /** A `[]` that is not the last is refused. */
  lemma IndexKeyIsRefused(root: Json, name: string, keys: seq<string>, more: seq<Seg>, value: Json)
    requires Spellable(name, keys) && more != [] && SegsWritable(more)
    ensures var r := Folded(root, [Field(name + Brackets(keys) + ("[]" + SegsText(more)), value)]);
            r.Err? && (!Barred(root, [name] + keys) ==> r == Err(IndexesIntoArray))
  {
    hide Obstacle, Spellable, SegsWritable;
    SegsTextCons(Append, more);
    OneField(root, name, keys, [Append] + more, value);
    BarredExactly(root, [name] + keys);
  }

  /** `head[repo]=x` makes an object `head` with a member `repo`. */
  lemma HeadRepo(value: Json)
    ensures Folded(Obj(map[]), [Field("head[repo]", value)]) == Ok(Obj(map["head" := Obj(map["repo" := value])]))
  {
    hide KeyParts, TargetOf;
    var keys, p := ["repo"], ["head", "repo"];
    assert keys[1..] == [] && Brackets(keys) == "[repo]" && "head" + "[repo]" + "" == "head[repo]";
    AppendText();
    OneField(Obj(map[]), "head", keys, [], value);
    assert ["head"] + keys == p && p[1..] == ["repo"] && ["repo"][1..] == [];
    assert Put(Obj(map[]), ["repo"], value) == Obj(map["repo" := value]);
  }

  /** The order of fields is the order of writing: one more field is inserted into what those before it made. */
  lemma {:induction false} FoldedGrows(root: Json, fields: seq<Field>, f: Field)
    ensures Folded(root, []) == Ok(root)
    ensures Folded(root, fields + [f])
            == if Folded(root, fields).Err? then Folded(root, fields) else Folded(Folded(root, fields).value, [f])
    decreases |fields|
  {
    hide Inserted, KeyParts;
    if fields == [] {
      assert [] + [f] == [f];
    } else {
      var all, rest := fields + [f], fields[1..];
      assert all[0] == fields[0] && all[1..] == rest + [f];
      if KeyParts(fields[0].key).Ok? {
        var (name, segs) := KeyParts(fields[0].key).value;
        var next := Inserted(root, TargetOf(name, segs), fields[0].value);
        if next.Ok? {
          FoldedGrows(next.value, rest, f);
        }
      }
    }
  }

  lemma {:induction false} SegmentsAfter(segs: seq<Seg>, rest: string)
    requires SegsWritable(segs)
    ensures Segments(SegsText(segs) + rest) == After(segs, Segments(rest))
  {
    if segs == [] {
      assert SegsText(segs) + rest == rest;
      AfterNone(Segments(rest));
    } else {
      var seg, more := segs[0], segs[1..];
      assert segs == [seg] + more;
      SegsTextCons(seg, more);
      hide Segments, SegsText, SegsWritable, After;
      SegmentsAfter(more, rest);
      var key := if seg.Append? then "" else seg.k;
      SegmentsCons(key, SegsText(more) + rest);
      assert SegText(seg) == "[" + key + "]";
      Associate(SegText(seg), SegsText(more), rest);
      AfterTwo(seg, more, Segments(rest));
    }
  }

  lemma AfterTwo(seg: Seg, more: seq<Seg>, r: Result<seq<Seg>, FieldError>)
    ensures After([seg], After(more, r)) == After([seg] + more, r)
  {
    if r.Ok? {
      assert [seg] + (more + r.value) == [seg] + more + r.value;
    }
  }

  /** The errors of a key, by its text: no name, a bracket left open, something else between brackets. */
  lemma KeyErrors(name: string, segs: seq<Seg>, rest: string)
    requires name != "" && '[' !in name && SegsWritable(segs)
    requires rest != "" && (segs != [] || rest[0] == '[')
    ensures KeyParts("[" + rest) == Err(NoName)
    ensures ']' !in rest ==> KeyParts(name + (SegsText(segs) + rest)) == Err(Unclosed)
    ensures ']' in rest && rest[0] != '[' ==> KeyParts(name + (SegsText(segs) + rest)) == Err(ExpectedBracket)
  {
    var text := SegsText(segs) + rest;
    SegmentsAfter(segs, rest);
    assert segs != [] ==> SegsText(segs)[0] == '[';
    assert text == "[" + text[1..];
    assert ("[" + rest)[0] == '[' && Find("[" + rest, '[') == Some(0);
    KeyPartsAt(name, text[1..]);
    hide SegsText, SegsWritable;
  }
}
