/**
 From the rendered path to the path requested. A URL's `.` and `..` segments are removed before
 the request is sent (section 5.2.4 of RFC 3986), and the encoding keeps dots, so a value that
 is one of the two changes the route.
 */
module DotSegments {
  import opened Wrappers
  import opened Encoding
  import opened PathTemplate
  import opened Text

  predicate IsDot(s: string) {
    s == "." || s == ".."
  }

  predicate NoDots(segments: seq<string>) {
    forall s | s in segments :: !IsDot(s)
  }

  function Parent(segments: seq<string>): seq<string> {
    if segments == [] then [] else segments[..|segments| - 1]
  }

  /** One segment more of output, or one less. */
  function Step(done: seq<string>, segment: string): seq<string> {
    if segment == "." then done else if segment == ".." then Parent(done) else done + [segment]
  }

  /** Section 5.2.4 of RFC 3986, on the segments of an absolute path; `done` is the output so far. */
  function Removed(done: seq<string>, segments: seq<string>): seq<string>
    decreases |segments|
  {
    if segments == [] then done
    else
      var rest := segments[1..];
      var kept := Step(done, segments[0]);
      Removed(if IsDot(segments[0]) && rest == [] then kept + [""] else kept, rest)
  }

  lemma {:induction false} NoDotsLeft(done: seq<string>, segments: seq<string>)
    requires NoDots(done)
    ensures NoDots(Removed(done, segments))
    decreases |segments|
  {
    if segments != [] {
      var rest := segments[1..];
      var kept := Step(done, segments[0]);
      NoDotsLeft(if IsDot(segments[0]) && rest == [] then kept + [""] else kept, rest);
    }
  }

  lemma {:induction false} WithoutDotsAllIsKept(done: seq<string>, segments: seq<string>)
    requires NoDots(segments)
    ensures Removed(done, segments) == done + segments
    decreases |segments|
  {
    if segments != [] {
      assert segments[0] in segments;
      WithoutDotsAllIsKept(done + [segments[0]], segments[1..]);
      assert done + [segments[0]] + segments[1..] == done + segments;
    }
  }

  /** Removal leaves a path alone exactly when there is nothing to remove, and none is left after it. */
  lemma RemovedExactly(segments: seq<string>)
    ensures Removed([], segments) == segments <==> NoDots(segments)
    ensures Removed([], Removed([], segments)) == Removed([], segments)
  {
    NoDotsLeft([], segments);
    if NoDots(segments) {
      WithoutDotsAllIsKept([], segments);
    }
    WithoutDotsAllIsKept([], Removed([], segments));
  }

  /** The segments a request asks for: those of the instance's base, then those of the rendered path. */
  function Requested(base: seq<string>, rendered: string): seq<string> {
    Removed([], base + SplitOn(rendered, '/')[1..])
  }

  /** The template begins with a slash. */
  predicate FromRoot(segments: seq<seq<Piece>>) {
    |segments| > 1 && segments[0] == [] && AreSegments(segments)
  }

  lemma RenderedSegments(env: Env, segments: seq<seq<Piece>>)
    requires FromRoot(segments) && Rendered(env, Print(Flat(segments))).Ok?
    ensures SplitOn(Rendered(env, Print(Flat(segments))).value, '/')[1..] == Spread(Values(env, segments[1..]))
  {
    RouteIsKept(env, segments);
    hide Rendered, Print, Flat, AreSegments;
    assert Values(env, segments)[0] == "" && Values(env, segments)[1..] == Values(env, segments[1..]);
  }

  /**
   The path requested is the path rendered if and only if no segment the values come to is `.`
   or `..`; each segment then stands where the template has it.
   */
  lemma RouteIsRequestedExactly(env: Env, base: seq<string>, segments: seq<seq<Piece>>)
    requires FromRoot(segments) && Rendered(env, Print(Flat(segments))).Ok? && NoDots(base)
    ensures Requested(base, Rendered(env, Print(Flat(segments))).value) == base + Spread(Values(env, segments[1..]))
            <==> NoDots(Spread(Values(env, segments[1..])))
  {
    hide Removed, Rendered, Print, Flat, Spread, Values, IsDot, AreSegments;
    RenderedSegments(env, segments);
    var own := Spread(Values(env, segments[1..]));
    RemovedExactly(base + own);
    assert NoDots(base + own) <==> NoDots(own);
  }

  // ------------------------------------------------------------------- said of the values

  /** Encoding makes no dot segment and hides none. */
  lemma EncodedDot(v: Bytes)
    ensures IsDot(Encoded(v, false)) <==> IsDot(v)
  {
    DecodeUndoesEncode(v, false);
    if IsDot(v) {
      KeptIsUnchanged(v, false);
    }
    if IsDot(Encoded(v, false)) {
      NothingToDecode(Encoded(v, false));
    }
  }

  lemma {:induction false} EncodedDots(words: seq<Bytes>)
    ensures NoDots(EncodedEach(words)) <==> NoDots(words)
  {
    if words != [] {
      EncodedDots(words[1..]);
      EncodedDot(words[0]);
      hide IsDot;
      NoDotsCons(words[0], words[1..]);
      NoDotsCons(Encoded(words[0], false), EncodedEach(words[1..]));
      assert words == [words[0]] + words[1..];
    }
  }

  lemma NoDotsCons(first: string, rest: seq<string>)
    ensures NoDots([first] + rest) <==> !IsDot(first) && NoDots(rest)
  {
    hide IsDot;
    assert first in [first] + rest;
    assert forall s | s in rest :: s in [first] + rest;
  }

  lemma NoDotsAppend(a: seq<string>, b: seq<string>)
    ensures NoDots(a + b) <==> NoDots(a) && NoDots(b)
  {
    hide IsDot;
    assert forall s | s in a :: s in a + b;
    assert forall s | s in b :: s in a + b;
  }

  /** The value given for a placeholder. */
  function ValueOf(env: Env, wire: string): (r: Option<Bytes>) {
    match Declared(env.params, wire)
    case None => None
    case Some(p) => match Resolve(env, p) case Err(_) => None case Ok(v) => Some(v)
  }

  /** A segment that is all text, or all one value. */
  predicate Plain(segment: seq<Piece>) {
    |segment| <= 1
  }

  /** Nothing in the segment is a dot segment, as the value was given. */
  predicate Harmless(env: Env, segment: seq<Piece>)
    requires Plain(segment)
  {
    if segment == [] then true
    else
      match segment[0]
      case Lit(text) => !IsDot(text)
      case Slot(wire) =>
        ValueOf(env, wire).Some? ==>
          if Declared(env.params, wire).value.pathLike then NoDots(SplitBytes(ValueOf(env, wire).value))
          else !IsDot(ValueOf(env, wire).value)
  }

  lemma PlainSegment(env: Env, segment: seq<Piece>)
    requires Plain(segment) && IsSegment(segment) && Meaning(env, segment).Ok?
    ensures NoDots(SplitOn(Meaning(env, segment).value, '/')) <==> Harmless(env, segment)
  {
    hide Resolve, Encoded, SplitBytes, EncodedEach, SplitOn, Keeps;
    if segment == [] {
      SplitWhole("", '/');
    } else {
      assert segment == [segment[0]] && WithinSegment(segment[0]);
      match segment[0]
      case Lit(text) =>
        assert [Lit(text)][1..] == [] && text + "" == text;
        SplitWhole(text, '/');
      case Slot(wire) =>
        OneSlot(env, wire);
        var v := ValueOf(env, wire).value;
        if Declared(env.params, wire).value.pathLike {
          EncodedPathSplits(v);
          EncodedDots(SplitBytes(v));
        } else {
          EncodedIsInert(v, false);
          NotKept();
          SplitWhole(Encoded(v, false), '/');
          EncodedDot(v);
        }
    }
  }

  lemma {:induction false} PlainSegments(env: Env, segments: seq<seq<Piece>>)
    requires AreSegments(segments) && forall s | s in segments :: Plain(s) && Meaning(env, s).Ok?
    ensures NoDots(Spread(Values(env, segments))) <==> forall s | s in segments :: Harmless(env, s)
  {
    if segments != [] {
      hide Meaning, Harmless, SplitOn, NoDots, IsSegment, Plain;
      var first, rest := segments[0], segments[1..];
      assert segments == [first] + rest && first in segments;
      PlainSegments(env, rest);
      PlainSegment(env, first);
      NoDotsAppend(SplitOn(Meaning(env, first).value, '/'), Spread(Values(env, rest)));
      assert Values(env, segments)[1..] == Values(env, rest);
    } else {
      assert NoDots([]);
    }
  }

  /**
   In terms of what is given: for a template whose placeholders fill whole segments, the path
   requested is the one rendered if and only if no value is `.` or `..`, nor, for a value that
   is a path, anything between its slashes.
   */
  lemma DotsDecide(env: Env, base: seq<string>, segments: seq<seq<Piece>>)
    requires FromRoot(segments) && Rendered(env, Print(Flat(segments))).Ok? && NoDots(base)
    requires forall s | s in segments :: Plain(s)
    ensures Requested(base, Rendered(env, Print(Flat(segments))).value) == base + Spread(Values(env, segments[1..]))
            <==> forall s | s in segments[1..] :: Harmless(env, s)
  {
    hide Rendered, Print, Requested, Spread, Values, NoDots, Meaning, Harmless, Flat, Plain, IsSegment;
    RouteIsRequestedExactly(env, base, segments);
    ReadableFlat(segments);
    RenderedIsTheMeaning(env, Flat(segments));
    FlatMeaning(env, segments);
    PlainSegments(env, segments[1..]);
  }

  // ---------------------------------------------------------------------- where it fails

  lemma {:induction false} WithoutDotsInFront(done: seq<string>, front: seq<string>, segments: seq<string>)
    requires NoDots(front)
    ensures Removed(done, front + segments) == Removed(done + front, segments)
    decreases |front|
  {
    if front == [] {
      assert done + front == done && front + segments == segments;
    } else {
      assert front[0] in front && (front + segments)[1..] == front[1..] + segments;
      WithoutDotsInFront(done + [front[0]], front[1..], segments);
      assert done + [front[0]] + front[1..] == done + front;
    }
  }

  /** A name and `..` behind it come to nothing. */
  lemma UpAndAway(base: seq<string>, name: string, rest: seq<string>)
    requires NoDots(base) && !IsDot(name) && rest != [] && NoDots(rest)
    ensures Removed([], base + ([name, ".."] + rest)) == base + rest
  {
    UpFrom(base, name, rest);
    hide Removed, IsDot, Step, Parent;
    var up := [".."] + rest;
    assert [name, ".."] + rest == [name] + up && [] + base == base;
    WithoutDotsInFront([], base, [name] + up);
    assert NoDots([name]);
    WithoutDotsInFront(base, [name], up);
    WithoutDotsAllIsKept(base, rest);
  }

  lemma UpFrom(base: seq<string>, name: string, rest: seq<string>)
    requires rest != []
    ensures Removed(base + [name], [".."] + rest) == Removed(base, rest)
  {
    assert ([".."] + rest)[0] == ".." && ([".."] + rest)[1..] == rest;
    assert Parent(base + [name]) == base;
  }

  lemma GetRepoRenders(env: Env, owner: Bytes, name: Bytes)
    requires Filled(env, "owner") == Ok(owner) && Filled(env, "repo") == Ok(name)
    ensures Rendered(env, "/repos/{owner}/{repo}") == Ok("/repos/" + owner + "/" + name)
  {
    hide Filled, Find, Rendered, Then;
    TextInFront(env, "/repos/", "{owner}/{repo}");
    SlotInFront(env, "owner", "/{repo}");
    TextInFront(env, "/", "{repo}");
    SlotInFront(env, "repo", "");
    assert "/repos/" + "{owner}/{repo}" == "/repos/{owner}/{repo}";
    assert "{" + "owner" + "}" + "/{repo}" == "{owner}/{repo}" && "/" + "{repo}" == "/{repo}";
    assert "{" + "repo" + "}" + "" == "{repo}";
    RenderedEnds(env, "");
    ThenText(name, "");
    ThenText("/", name);
    ThenText(owner, "/" + name);
    ThenText("/repos/", owner + ("/" + name));
    assert name + "" == name && "/repos/" + (owner + ("/" + name)) == "/repos/" + owner + "/" + name;
  }

  lemma GetRepoSplits(owner: string, name: string)
    requires '/' !in owner && '/' !in name
    ensures SplitOn("/repos/" + owner + "/" + name, '/')[1..] == ["repos", owner, name]
  {
    hide SplitOn;
    var path := "/repos/" + owner + "/" + name;
    assert path == ("" + ['/'] + "repos" + ['/'] + owner) + ['/'] + name;
    SplitBetween("" + ['/'] + "repos" + ['/'] + owner, '/', name);
    SplitBetween("" + ['/'] + "repos", '/', owner);
    SplitBetween("", '/', "repos");
    SplitWhole("", '/');
    SplitWhole("repos", '/');
    SplitWhole(owner, '/');
    SplitWhole(name, '/');
  }

  /** With `..` for the owner, `gea raw repo get .. user` asks for `/user`, not for a repository. */
  lemma DotOwnerAsksForAnotherRoute(env: Env, base: seq<string>, name: Bytes)
    requires NoDots(base) && !IsDot(name) && AllKept(name, false)
    requires Filled(env, "owner") == Ok("..") && Filled(env, "repo") == Ok(name)
    ensures Rendered(env, "/repos/{owner}/{repo}") == Ok("/repos/" + ".." + "/" + name)
    ensures Requested(base, "/repos/" + ".." + "/" + name) == base + [name]
  {
    hide Removed, SplitOn, Filled, Rendered;
    GetRepoRenders(env, "..", name);
    NotKept();
    GetRepoSplits("..", name);
    UpAndAway(base, "repos", [name]);
    assert ["repos", ".."] + [name] == ["repos", "..", name];
  }
}
