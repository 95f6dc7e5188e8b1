/**
 Rendering the path of an operation: placeholders in braces, each filled from a flag, a
 positional or the repository at hand, and percent-encoded.
 */
module PathTemplate {
  import opened Wrappers
  import opened Encoding
  import opened Text

  datatype Fill = Owner | Repo

  datatype Param = Param(wire: string, flag: string, pathLike: bool, fill: Option<Fill>)

  /** What the command line holds for one parameter. */
  datatype Given = Given(flag: Option<Bytes>, positional: Option<Bytes>)

  datatype Slug = Slug(owner: Bytes, name: Bytes)

  datatype Env = Env(params: seq<Param>, given: map<string, Given>, context: Option<Slug>)

  datatype Error = Malformed | Undeclared(wire: string) | GivenTwice(wire: string) | Missing(wire: string)

  function GivenFor(env: Env, p: Param): Given {
    if p.flag in env.given then env.given[p.flag] else Given(None, None)
  }

  function FromContext(p: Param, context: Option<Slug>): Option<Bytes> {
    match (p.fill, context)
    case (Some(Owner), Some(slug)) => Some(slug.owner)
    case (Some(Repo), Some(slug)) => Some(slug.name)
    case _ => None
  }

  /** A flag, else a positional, else the context; both flag and positional only if they agree. */
  function Resolve(env: Env, p: Param): Result<Bytes, Error> {
    match GivenFor(env, p)
    case Given(Some(f), Some(pos)) => if f != pos then Err(GivenTwice(p.wire)) else Ok(f)
    case Given(Some(f), None) => Ok(f)
    case Given(None, Some(pos)) => Ok(pos)
    case Given(None, None) =>
      match FromContext(p, env.context) case Some(v) => Ok(v) case None => Err(Missing(p.wire))
  }

  function Declared(params: seq<Param>, wire: string): Option<Param> {
    if params == [] then None
    else if params[0].wire == wire then Some(params[0]) else Declared(params[1..], wire)
  }

  /** What stands in place of a placeholder. */
  function Filled(env: Env, wire: string): Result<Bytes, Error> {
    match Declared(env.params, wire)
    case None => Err(Undeclared(wire))
    case Some(p) =>
      match Resolve(env, p) case Err(e) => Err(e) case Ok(v) => Ok(Encoded(v, p.pathLike))
  }

  // ------------------------------------------------------------------- templates as read

  datatype Piece = Lit(text: string) | Slot(wire: string)

  function Show(p: Piece): string {
    match p case Lit(text) => text case Slot(wire) => "{" + wire + "}"
  }

  function Print(pieces: seq<Piece>): string {
    if pieces == [] then "" else Show(pieces[0]) + Print(pieces[1..])
  }

  predicate ReadablePiece(p: Piece) {
    match p case Lit(text) => '{' !in text case Slot(wire) => '}' !in wire
  }

  predicate Readable(pieces: seq<Piece>) {
    forall p | p in pieces :: ReadablePiece(p)
  }

  function MeaningOf(env: Env, p: Piece): Result<string, Error> {
    match p case Lit(text) => Ok(text) case Slot(wire) => Filled(env, wire)
  }

  /** What a template's pieces come to, or the first error on the way. */
  function Meaning(env: Env, pieces: seq<Piece>): Result<string, Error> {
    if pieces == [] then Ok("") else Then(MeaningOf(env, pieces[0]), Meaning(env, pieces[1..]))
  }

  function Then(a: Result<string, Error>, b: Result<string, Error>): Result<string, Error> {
    match (a, b)
    case (Err(e), _) => Err(e)
    case (Ok(_), Err(e)) => Err(e)
    case (Ok(x), Ok(y)) => Ok(x + y)
  }

  /** Rendering as the source does it: one placeholder after another, up to the first error. */
  function Rendered(env: Env, t: string): Result<string, Error>
    decreases |t|
  {
    match Find(t, '{')
    case None => Ok(t)
    case Some(open) =>
      match Find(t[open..], '}')
      case None => Err(Malformed)
      case Some(k) =>
        Then(Then(Ok(t[..open]), Filled(env, t[open + 1..open + k])), Rendered(env, t[open + k + 1..]))
  }

  lemma ThenAssociates(a: Result<string, Error>, b: Result<string, Error>, c: Result<string, Error>)
    ensures Then(Then(a, b), c) == Then(a, Then(b, c))
  {
    if a.Ok? && b.Ok? && c.Ok? {
      assert (a.value + b.value) + c.value == a.value + (b.value + c.value);
    }
  }

  lemma RenderedStep(env: Env, t: string, open: nat, k: nat)
    requires Find(t, '{') == Some(open) && Find(t[open..], '}') == Some(k)
    ensures Rendered(env, t)
            == Then(Then(Ok(t[..open]), Filled(env, t[open + 1..open + k])), Rendered(env, t[open + k + 1..]))
  {
    hide Find, Filled, Then;
  }

  lemma ThenNothing(rest: Result<string, Error>)
    ensures Then(Ok(""), rest) == rest
  {
    assert rest.Ok? ==> "" + rest.value == rest.value;
  }

  /** `render_path`, with its closing assertion: no placeholder is ever left in the result. */
  method RenderPath(env: Env, template: string) returns (r: Result<string, Error>)
    ensures r == Rendered(env, template)
    ensures r.Ok? ==> '{' !in r.value
  {
    hide Filled, Find, Rendered;
    var out, rest := "", template;
    ThenNothing(Rendered(env, template));
    var at := Find(rest, '{');
    while at.Some?
      invariant at == Find(rest, '{') && '{' !in out
      invariant Then(Ok(out), Rendered(env, rest)) == Rendered(env, template)
      decreases |rest|
    {
      var open := at.value;
      var close := Find(rest[open..], '}');
      RenderedEnds(env, rest);
      if close.None? {
        return Err(Malformed);
      }
      var wire := rest[open + 1..open + close.value];
      RenderedStep(env, rest, open, close.value);
      var value := Filled(env, wire);
      if value.Err? {
        return Err(value.error);
      }
      FilledIsInert(env, wire);
      ThenAssociates(Ok(out), Then(Ok(rest[..open]), value), Rendered(env, rest[open + close.value + 1..]));
      assert out + (rest[..open] + value.value) == out + rest[..open] + value.value;
      out := out + rest[..open] + value.value;
      rest := rest[open + close.value + 1..];
      at := Find(rest, '{');
    }
    RenderedEnds(env, rest);
    r := Ok(out + rest);
  }

  lemma FilledIsInert(env: Env, wire: string)
    ensures Filled(env, wire).Ok? ==> '{' !in Filled(env, wire).value
    ensures Filled(env, wire).Ok? && !Declared(env.params, wire).value.pathLike ==> '/' !in Filled(env, wire).value
  {
    var p := Declared(env.params, wire);
    if p.Some? && Resolve(env, p.value).Ok? {
      EncodedIsInert(Resolve(env, p.value).value, p.value.pathLike);
    }
  }

  // ---------------------------------------------------------------- what rendering means

  lemma TextBefore(env: Env, text: string, t: string, open: nat, k: nat)
    requires open + k + 1 <= |t| && 1 <= k
    requires Find(t, '{') == Some(open) && Find(t[open..], '}') == Some(k)
    requires Find(text + t, '{') == Some(|text| + open)
    ensures Rendered(env, text + t) == Then(Ok(text), Rendered(env, t))
  {
    hide Filled, Find, Rendered, Then;
    var all := text + t;
    Shifted(text, t, open, k);
    RenderedStep(env, all, |text| + open, k);
    RenderedStep(env, t, open, k);
    var slot, rest := Filled(env, t[open + 1..open + k]), Rendered(env, t[open + k + 1..]);
    ThenAssociates(Ok(text), Then(Ok(t[..open]), slot), rest);
    ThenAssociates(Ok(text), Ok(t[..open]), slot);
    ThenText(text, t[..open]);
  }

  lemma ThenText(a: string, b: string)
    ensures Then(Ok(a), Ok(b)) == Ok(a + b)
  {
  }

  lemma Shifted(text: string, t: string, open: nat, k: nat)
    requires open + k + 1 <= |t| && 1 <= k
    ensures var all := text + t;
            && all[|text| + open..] == t[open..]
            && all[|text| + open + 1..|text| + open + k] == t[open + 1..open + k]
            && all[|text| + open + k + 1..] == t[open + k + 1..]
            && all[..|text| + open] == text + t[..open]
  {
  }

  lemma RenderedEnds(env: Env, t: string)
    ensures Find(t, '{').None? ==> Rendered(env, t) == Ok(t)
    ensures Find(t, '{').Some? && Find(t[Find(t, '{').value..], '}').None? ==> Rendered(env, t) == Err(Malformed)
  {
    hide Filled, Find, Then;
  }

  /** Text in front of a template is rendered as it is. */
  lemma TextInFront(env: Env, text: string, t: string)
    requires '{' !in text
    ensures Rendered(env, text + t) == Then(Ok(text), Rendered(env, t))
  {
    hide Filled, Find, Rendered;
    var all := text + t;
    FindPast(text, t, '{');
    RenderedEnds(env, t);
    RenderedEnds(env, all);
    var at := Find(t, '{');
    if at.Some? {
      assert all[|text| + at.value..] == t[at.value..];
      var close := Find(t[at.value..], '}');
      if close.Some? {
        TextBefore(env, text, t, at.value, close.value);
      }
    }
  }

  lemma SlotInFront(env: Env, wire: string, t: string)
    requires '}' !in wire
    ensures Rendered(env, "{" + wire + "}" + t) == Then(Filled(env, wire), Rendered(env, t))
  {
    hide Filled, Rendered, Then;
    var all := "{" + wire + "}" + t;
    assert all == ("{" + wire) + ['}'] + t;
    FindAfter("{" + wire, '}', t);
    assert all[0] == '{' && all[0..] == all;
    assert Find(all, '{') == Some(0);
    hide Find;
    RenderedStep(env, all, 0, |wire| + 1);
    assert all[1..|wire| + 1] == wire && all[|wire| + 2..] == t && all[..0] == "";
    ThenNothing(Filled(env, wire));
  }

  /** Rendering a template gives its text as it stands and its placeholders filled. */
  lemma {:induction false} RenderedIsTheMeaning(env: Env, pieces: seq<Piece>)
    requires Readable(pieces)
    ensures Rendered(env, Print(pieces)) == Meaning(env, pieces)
  {
    hide Filled;
    if pieces != [] {
      assert ReadablePiece(pieces[0]);
      RenderedIsTheMeaning(env, pieces[1..]);
      match pieces[0]
      case Lit(text) =>
        TextInFront(env, text, Print(pieces[1..]));
      case Slot(wire) =>
        SlotInFront(env, wire, Print(pieces[1..]));
    }
  }

  // ------------------------------------------------------------------------ the segments

  /** Text without a slash, or a placeholder. */
  predicate WithinSegment(p: Piece) {
    ReadablePiece(p) && (p.Lit? ==> '/' !in p.text)
  }

  predicate IsSegment(segment: seq<Piece>) {
    forall p | p in segment :: WithinSegment(p)
  }

  predicate AreSegments(segments: seq<seq<Piece>>) {
    forall s | s in segments :: IsSegment(s)
  }

  predicate IsPathLike(env: Env, p: Piece) {
    p.Slot? && Declared(env.params, p.wire).Some? && Declared(env.params, p.wire).value.pathLike
  }

  /** None of its placeholders takes a whole path. */
  predicate NoPathIn(env: Env, segment: seq<Piece>) {
    forall p | p in segment :: !IsPathLike(env, p)
  }

  /** The pieces of a template made of segments with slashes between them. */
  function Flat(segments: seq<seq<Piece>>): seq<Piece>
    requires segments != []
  {
    if |segments| == 1 then segments[0] else segments[0] + ([Lit("/")] + Flat(segments[1..]))
  }

  function Values(env: Env, segments: seq<seq<Piece>>): (r: seq<string>)
    ensures |r| == |segments|
  {
    if segments == [] then []
    else
      var m := Meaning(env, segments[0]);
      [if m.Ok? then m.value else ""] + Values(env, segments[1..])
  }

  /** The segments the values come to, each value split at its own slashes. */
  function Spread(values: seq<string>): seq<string> {
    if values == [] then [] else SplitOn(values[0], '/') + Spread(values[1..])
  }

  lemma {:induction false} MeaningAppend(env: Env, a: seq<Piece>, b: seq<Piece>)
    ensures Meaning(env, a + b) == Then(Meaning(env, a), Meaning(env, b))
  {
    hide MeaningOf;
    if a == [] {
      assert a + b == b;
      ThenNothing(Meaning(env, b));
    } else {
      assert (a + b)[0] == a[0] && (a + b)[1..] == a[1..] + b;
      MeaningAppend(env, a[1..], b);
      ThenAssociates(MeaningOf(env, a[0]), Meaning(env, a[1..]), Meaning(env, b));
    }
  }

  lemma {:induction false} SegmentHasNoSlash(env: Env, segment: seq<Piece>)
    requires IsSegment(segment) && NoPathIn(env, segment)
    ensures Meaning(env, segment).Ok? ==> '/' !in Meaning(env, segment).value
  {
    if segment != [] {
      hide Filled;
      var p := segment[0];
      assert WithinSegment(p) && !IsPathLike(env, p);
      SegmentHasNoSlash(env, segment[1..]);
      if p.Slot? {
        FilledIsInert(env, p.wire);
        FilledIsDeclared(env, p.wire);
      }
    }
  }

  lemma FilledIsDeclared(env: Env, wire: string)
    ensures Filled(env, wire).Ok? ==> Declared(env.params, wire).Some?
  {
  }

  lemma {:induction false} ReadableFlat(segments: seq<seq<Piece>>)
    requires segments != [] && AreSegments(segments)
    ensures Readable(Flat(segments))
    decreases |segments|
  {
    hide ReadablePiece;
    assert segments[0] in segments && IsSegment(segments[0]);
    assert forall p | p in segments[0] :: WithinSegment(p);
    SlashIsReadable();
    if |segments| > 1 {
      ReadableFlat(segments[1..]);
    }
  }

  lemma SlashIsReadable()
    ensures ReadablePiece(Lit("/"))
  {
  }

  lemma {:induction false} FlatMeaning(env: Env, segments: seq<seq<Piece>>)
    requires segments != []
    requires Meaning(env, Flat(segments)).Ok?
    ensures Meaning(env, Flat(segments)).value == JoinWith(Values(env, segments), '/')
    ensures forall s | s in segments :: Meaning(env, s).Ok?
    decreases |segments|
  {
    var first := segments[0];
    if |segments| == 1 {
      assert Values(env, segments) == [Meaning(env, first).value];
    } else {
      var rest := segments[1..];
      MeaningAppend(env, first, [Lit("/")] + Flat(rest));
      MeaningAppend(env, [Lit("/")], Flat(rest));
      MeaningOfSlash(env);
      FlatMeaning(env, rest);
      hide Meaning;
      assert segments == [first] + rest;
      assert Values(env, segments)[1..] == Values(env, rest);
      var a, b := Meaning(env, first).value, Meaning(env, Flat(rest)).value;
      assert a + ("/" + b) == a + ['/'] + b;
    }
  }

  lemma MeaningOfSlash(env: Env)
    ensures Meaning(env, [Lit("/")]) == Ok("/")
  {
    assert [Lit("/")][1..] == [];
    assert "/" + "" == "/";
  }

  lemma {:induction false} SpreadOfJoined(values: seq<string>)
    requires values != []
    ensures SplitOn(JoinWith(values, '/'), '/') == Spread(values)
  {
    if |values| == 1 {
      assert values[1..] == [] && SplitOn(values[0], '/') + [] == SplitOn(values[0], '/');
    } else {
      SpreadOfJoined(values[1..]);
      SplitBetween(values[0], '/', JoinWith(values[1..], '/'));
    }
  }

  lemma {:induction false} SpreadAt(values: seq<string>, i: nat)
    requires i < |values|
    ensures Spread(values) == Spread(values[..i]) + SplitOn(values[i], '/') + Spread(values[i + 1..])
  {
    hide SplitOn;
    if i == 0 {
      assert values[..0] == [] && [] + SplitOn(values[0], '/') == SplitOn(values[0], '/');
    } else {
      SpreadAt(values[1..], i - 1);
      assert values[..i][0] == values[0] && values[..i][1..] == values[1..][..i - 1];
      assert values[1..][i..] == values[i + 1..];
    }
  }

  lemma {:induction false} ValuesAt(env: Env, segments: seq<seq<Piece>>, i: nat)
    requires i < |segments| && Meaning(env, segments[i]).Ok?
    ensures Values(env, segments)[i] == Meaning(env, segments[i]).value
  {
    hide Meaning;
    if i > 0 {
      ValuesAt(env, segments[1..], i - 1);
    }
  }

  lemma {:induction false} SpreadOfWhole(values: seq<string>)
    requires forall v | v in values :: '/' !in v
    ensures Spread(values) == values
  {
    if values != [] {
      SpreadOfWhole(values[1..]);
      SplitJoined([values[0]], '/');
      assert values == [values[0]] + values[1..];
    }
  }

  /**
   Whatever the values are, the rendered path splits at its slashes into the segments of the
   template, each the rendering of its own. Only a placeholder that takes a whole path adds
   segments, and only those of its value. This is about the path as it is written:
   `DotSegments` says when the path requested is the same.
   */
  lemma RouteIsKept(env: Env, segments: seq<seq<Piece>>)
    requires segments != [] && AreSegments(segments)
    requires Rendered(env, Print(Flat(segments))).Ok?
    ensures SplitOn(Rendered(env, Print(Flat(segments))).value, '/') == Spread(Values(env, segments))
    ensures forall i | 0 <= i < |segments| :: Rendered(env, Print(segments[i])) == Ok(Values(env, segments)[i])
    ensures forall i | 0 <= i < |segments| && NoPathIn(env, segments[i]) ::
              SplitOn(Values(env, segments)[i], '/') == [Values(env, segments)[i]]
    ensures (forall s | s in segments :: NoPathIn(env, s)) ==> Spread(Values(env, segments)) == Values(env, segments)
  {
    hide Rendered, Meaning, Flat, WithinSegment, JoinWith, SplitOn, Print, NoPathIn;
    ReadableFlat(segments);
    RenderedIsTheMeaning(env, Flat(segments));
    FlatMeaning(env, segments);
    SpreadOfJoined(Values(env, segments));
    forall i | 0 <= i < |segments|
      ensures Rendered(env, Print(segments[i])) == Ok(Values(env, segments)[i])
      ensures NoPathIn(env, segments[i]) ==> '/' !in Values(env, segments)[i]
      ensures NoPathIn(env, segments[i]) ==> SplitOn(Values(env, segments)[i], '/') == [Values(env, segments)[i]]
    {
      assert segments[i] in segments && IsSegment(segments[i]);
      SegmentIsReadable(segments[i]);
      RenderedIsTheMeaning(env, segments[i]);
      ValuesAt(env, segments, i);
      if NoPathIn(env, segments[i]) {
        SegmentHasNoSlash(env, segments[i]);
        SplitWhole(Values(env, segments)[i], '/');
      }
    }
    if forall s | s in segments :: NoPathIn(env, s) {
      SpreadOfWhole(Values(env, segments));
    }
  }

  lemma SegmentIsReadable(segment: seq<Piece>)
    requires IsSegment(segment)
    ensures Readable(segment)
  {
    forall p | p in segment ensures ReadablePiece(p) {
      assert WithinSegment(p);
    }
  }

  lemma OneSlot(env: Env, wire: string)
    requires Meaning(env, [Slot(wire)]).Ok?
    ensures Declared(env.params, wire).Some? && Resolve(env, Declared(env.params, wire).value).Ok?
    ensures var p := Declared(env.params, wire).value;
            Meaning(env, [Slot(wire)]).value == Encoded(Resolve(env, p).value, p.pathLike)
  {
    assert [Slot(wire)][1..] == [];
    var filled := Filled(env, wire);
    assert filled.Ok? ==> filled.value + "" == filled.value;
  }

  /**
   A value that fills a segment stands in its place in the rendered path: as one segment, or,
   if it is a path, as the segments of that path; and decoding gives it back.
   */
  lemma ValueStandsInPlace(env: Env, segments: seq<seq<Piece>>, i: nat, wire: string)
    requires AreSegments(segments) && i < |segments| && segments[i] == [Slot(wire)]
    requires Rendered(env, Print(Flat(segments))).Ok?
    ensures Declared(env.params, wire).Some? && Resolve(env, Declared(env.params, wire).value).Ok?
    ensures var p := Declared(env.params, wire).value;
            var v := Resolve(env, p).value;
            var arriving := if p.pathLike then EncodedEach(SplitBytes(v)) else [Encoded(v, false)];
            var before, after := Spread(Values(env, segments)[..i]), Spread(Values(env, segments)[i + 1..]);
            && SplitOn(Rendered(env, Print(Flat(segments))).value, '/') == before + arriving + after
            && Decoded(Encoded(v, p.pathLike)) == v
  {
    hide Rendered, Meaning, Flat, WithinSegment, JoinWith, SplitOn, Resolve, Decoded, Encoded, Print, Spread, EncodedEach, SplitBytes;
    RouteIsKept(env, segments);
    assert segments[i] in segments && IsSegment(segments[i]);
    SegmentIsReadable(segments[i]);
    RenderedIsTheMeaning(env, segments[i]);
    OneSlot(env, wire);
    SpreadAt(Values(env, segments), i);
    var p := Declared(env.params, wire).value;
    var v := Resolve(env, p).value;
    DecodeUndoesEncode(v, p.pathLike);
    if p.pathLike {
      EncodedPathSplits(v);
    } else {
      EncodedIsInert(v, false);
      NotKept();
      SplitWhole(Encoded(v, false), '/');
    }
  }

  lemma NotKept()
    ensures !Keeps('/', false)
  {
  }

  // ------------------------------------------------------------------ one value, by its source

  /** The parameter declared first under this name. */
  predicate DeclaredAt(params: seq<Param>, wire: string, i: nat) {
    i < |params| && params[i].wire == wire && forall j | 0 <= j < i :: params[j].wire != wire
  }

  lemma {:induction false} DeclaredMeans(params: seq<Param>, wire: string)
    ensures Declared(params, wire).None? <==> forall i | 0 <= i < |params| :: params[i].wire != wire
    ensures forall i: nat | DeclaredAt(params, wire, i) :: Declared(params, wire) == Some(params[i])
  {
    if params != [] {
      DeclaredMeans(params[1..], wire);
      forall i: nat | DeclaredAt(params, wire, i) ensures Declared(params, wire) == Some(params[i]) {
        if i > 0 {
          assert params[0].wire != wire;
          assert DeclaredAt(params[1..], wire, i - 1);
        }
      }
    }
  }

  /**
   What stands for `{wire}`: what the flag says, or the positional, which must agree if both are
   there; else the owner or the name of the repository at hand, if that is what the parameter
   stands for; encoded, with its slashes kept if it is a path. Or why nothing does.
   */
  lemma PlaceholderMeans(env: Env, wire: string, i: nat)
    requires '}' !in wire && DeclaredAt(env.params, wire, i)
    ensures var p := env.params[i];
            var flag := if p.flag in env.given then env.given[p.flag].flag else None;
            var positional := if p.flag in env.given then env.given[p.flag].positional else None;
            Rendered(env, "{" + wire + "}")
            == if flag.Some? && positional.Some? && flag != positional then Err(GivenTwice(wire))
               else if flag.Some? then Ok(Encoded(flag.value, p.pathLike))
               else if positional.Some? then Ok(Encoded(positional.value, p.pathLike))
               else if env.context.Some? && p.fill == Some(Owner) then Ok(Encoded(env.context.value.owner, p.pathLike))
               else if env.context.Some? && p.fill == Some(Repo) then Ok(Encoded(env.context.value.name, p.pathLike))
               else Err(Missing(wire))
  {
    hide Encoded;
    DeclaredMeans(env.params, wire);
    SlotAlone(env, wire);
  }

  lemma SlotAlone(env: Env, wire: string)
    requires '}' !in wire
    ensures Rendered(env, "{" + wire + "}") == Filled(env, wire)
  {
    hide Filled;
    SlotInFront(env, wire, "");
    RenderedEnds(env, "");
    assert "{" + wire + "}" + "" == "{" + wire + "}";
    var r := Filled(env, wire);
    assert r.Ok? ==> r.value + "" == r.value;
  }

  /** And of a name no parameter has: an error, as an unclosed brace is. */
  lemma UnknownPlaceholderMeans(env: Env, wire: string)
    requires '}' !in wire
    ensures (forall i | 0 <= i < |env.params| :: env.params[i].wire != wire) ==>
              Rendered(env, "{" + wire + "}") == Err(Undeclared(wire))
    ensures Rendered(env, "{" + wire) == Err(Malformed)
  {
    DeclaredMeans(env.params, wire);
    SlotAlone(env, wire);
    var t := "{" + wire;
    assert t[0] == '{' && Find(t, '{') == Some(0) && t[0..] == t;
    RenderedEnds(env, t);
  }
}
