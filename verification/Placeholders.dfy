/**
 The guard on an upstream spec template, and the textual substitution it makes safe.

 `check_placeholders` accepts a template with two placeholders in all, each one of the two
 it knows. The question is whether any `{{` can be left after the substitutions.
 */
module Placeholders {
  import opened Wrappers
  import opened Text

  const SUB_URL := "{{.SwaggerAppSubUrl}}"
  const APP_VER := "{{.SwaggerAppVer}}"
  const EXPECTED: seq<string> := [SUB_URL, APP_VER]
  const VERSION_SENTINEL := "0.0.0+GITEA-API-APP-VERSION"
  const SUB_URL_SENTINEL := "/GITEA-API-APP-SUBURL/"

  /** The first place where the character `c` stands twice in a row. */
  function FindPair(s: string, c: char): (r: Option<nat>)
    ensures r.Some? ==> r.value + 1 < |s| && s[r.value] == c && s[r.value + 1] == c
    ensures r.Some? ==> forall i | 0 <= i < r.value :: !(s[i] == c && s[i + 1] == c)
    ensures r.None? ==> forall i | 0 <= i < |s| - 1 :: !(s[i] == c && s[i + 1] == c)
  {
    if |s| < 2 then None
    else if s[0] == c && s[1] == c then Some(0)
    else
      match FindPair(s[1..], c)
      case None =>
        assert forall i | 1 <= i < |s| - 1 :: s[1..][i - 1] == s[i] && s[1..][i] == s[i + 1];
        None
      case Some(i) =>
        assert forall j | 1 <= j < i + 1 :: s[1..][j - 1] == s[j] && s[1..][j] == s[j + 1];
        Some(i + 1)
  }

  /** Every `{{ … }}` in the text, in order; an unterminated one runs to the end. */
  function Found(s: string): seq<string>
    decreases |s|
  {
    match FindPair(s, '{')
    case None => []
    case Some(start) =>
      var after := s[start..];
      match FindPair(after, '}')
      case None => [after]
      case Some(end) => [after[..end + 2]] + Found(after[end + 2..])
  }

  method FindPlaceholders(s: string) returns (out: seq<string>)
    ensures out == Found(s)
  {
    hide FindPair;
    out := [];
    var rest := s;
    assert [] + Found(s) == Found(s);
    while true
      invariant Found(s) == out + Found(rest)
      decreases |rest|
    {
      var start := FindPair(rest, '{');
      if start.None? {
        assert out + [] == out;
        return;
      }
      var after := rest[start.value..];
      var end := FindPair(after, '}');
      if end.None? {
        out := out + [after];
        return;
      }
      var p := after[..end.value + 2];
      rest := after[end.value + 2..];
      assert out + ([p] + Found(rest)) == out + [p] + Found(rest);
      out := out + [p];
    }
  }

  /** One of the two placeholders the substitution knows. */
  predicate Known(p: string) {
    p in EXPECTED
  }

  datatype GuardError = Unexpected(names: set<string>) | WrongCount(n: nat)

  function UnexpectedIn(found: seq<string>): set<string> {
    set p | p in found && !Known(p)
  }

  function Guard(s: string): Option<GuardError> {
    var found := Found(s);
    if UnexpectedIn(found) != {} then Some(Unexpected(UnexpectedIn(found)))
    else if |found| != |EXPECTED| then Some(WrongCount(|found|))
    else None
  }

  method Count(found: seq<string>) returns (counts: map<string, nat>)
    ensures forall p :: p in counts <==> p in found
  {
    counts := map[];
    for i := 0 to |found|
      invariant forall p :: p in counts <==> p in found[..i]
    {
      var seen := if found[i] in counts then counts[found[i]] else 0;
      assert found[..i + 1] == found[..i] + [found[i]];
      counts := counts[found[i] := seen + 1];
    }
    assert found[..|found|] == found;
  }

  method CheckPlaceholders(s: string) returns (r: Option<GuardError>)
    ensures r == Guard(s)
  {
    var found := FindPlaceholders(s);
    var counts := Count(found);
    var unexpected := set p | p in counts && !Known(p);
    assert unexpected == UnexpectedIn(found) by { hide Found; }
    if unexpected != {} {
      return Some(Unexpected(unexpected));
    }
    if |found| != |EXPECTED| {
      return Some(WrongCount(|found|));
    }
    return None;
  }

  /** The four successive replacements `canonicalize` makes. */
  function Substituted(template: string, version: string): string {
    Replace(Replace(Replace(Replace(template, APP_VER, version), SUB_URL, ""), VERSION_SENTINEL, version),
            SUB_URL_SENTINEL, "/")
  }

  // ----------------------------------------------------------------------- open braces

  /** No `{{` anywhere. */
  predicate NoOpen(s: string) {
    forall i | 0 <= i < |s| - 1 :: !(s[i] == '{' && s[i + 1] == '{')
  }

  /** No `{{`, and no `{` at the end to begin one. */
  predicate Quiet(s: string) {
    NoOpen(s) && (s != "" ==> s[|s| - 1] != '{')
  }

  lemma NoOpenJoin(a: string, b: string)
    requires Quiet(a) && NoOpen(b)
    ensures NoOpen(a + b)
    ensures Quiet(b) ==> Quiet(a + b)
  {
    var s := a + b;
    forall i | 0 <= i < |s| - 1 ensures !(s[i] == '{' && s[i + 1] == '{') {
      if i >= |a| {
        assert s[i] == b[i - |a|] && s[i + 1] == b[i - |a| + 1];
      }
    }
  }

  lemma NoOpenParts(a: string, b: string)
    requires NoOpen(a + b)
    ensures NoOpen(a) && NoOpen(b)
  {
    var s := a + b;
    forall i | 0 <= i < |a| - 1 ensures !(a[i] == '{' && a[i + 1] == '{') {
      assert s[i] == a[i] && s[i + 1] == a[i + 1];
    }
    forall i | 0 <= i < |b| - 1 ensures !(b[i] == '{' && b[i + 1] == '{') {
      assert s[|a| + i] == b[i] && s[|a| + i + 1] == b[i + 1];
    }
  }

  predicate OpensWithPair(pat: string) {
    |pat| >= 2 && pat[0] == '{' && pat[1] == '{'
  }

  /** Where no pair of braces begins, no placeholder does. */
  lemma ReplaceMisses(c: char, rest: string, pat: string, rep: string)
    requires OpensWithPair(pat) && !(c == '{' && rest != "" && rest[0] == '{')
    ensures Replace([c] + rest, pat, rep) == [c] + Replace(rest, pat, rep)
  {
    var s := [c] + rest;
    assert s[1..] == rest;
    assert |s| >= |pat| ==> s[..|pat|][0] == c && s[..|pat|][1] == rest[0];
  }

  lemma QuietTail(a: string)
    requires Quiet(a) && a != ""
    ensures Quiet(a[1..]) && (|a| > 1 ==> !(a[0] == '{' && a[1] == '{')) && (|a| == 1 ==> a[0] != '{')
  {
    var t := a[1..];
    forall i | 0 <= i < |t| - 1 ensures !(t[i] == '{' && t[i + 1] == '{') {
      assert t[i] == a[i + 1] && t[i + 1] == a[i + 2];
    }
  }

  /** A placeholder cannot begin inside quiet text. */
  lemma {:induction false} ReplaceSkips(a: string, b: string, pat: string, rep: string)
    requires Quiet(a) && OpensWithPair(pat)
    ensures Replace(a + b, pat, rep) == a + Replace(b, pat, rep)
    decreases |a|
  {
    assert pat != "";
    hide Quiet, Replace, OpensWithPair;
    if a == "" {
      assert a + b == b;
    } else {
      QuietTail(a);
      ReplaceSkips(a[1..], b, pat, rep);
      ReplaceMisses(a[0], a[1..] + b, pat, rep);
      assert a + b == [a[0]] + (a[1..] + b);
      assert a + Replace(b, pat, rep) == [a[0]] + (a[1..] + Replace(b, pat, rep));
    }
  }

  lemma ReplaceHits(b: string, pat: string, rep: string)
    requires pat != ""
    ensures Replace(pat + b, pat, rep) == rep + Replace(b, pat, rep)
  {
    assert (pat + b)[..|pat|] == pat && (pat + b)[|pat|..] == b;
  }

  lemma NothingToReplace(s: string, pat: string, rep: string)
    requires NoOpen(s) && OpensWithPair(pat)
    ensures Replace(s, pat, rep) == s
  {
    if s != "" && s[|s| - 1] == '{' {
      var a := s[..|s| - 1];
      assert s == a + "{";
      NoOpenParts(a, "{");
      assert a != "" ==> s[|s| - 2] == a[|a| - 1];
      ReplaceSkips(a, "{", pat, rep);
    } else {
      ReplaceSkips(s, "", pat, rep);
      assert s + "" == s;
    }
  }

  /** Each placeholder is a brace followed by quiet text. */
  lemma PlaceholderShape(p: string)
    requires Known(p)
    ensures OpensWithPair(p) && p == "{" + p[1..] && Quiet(p[1..])
    ensures |p| >= 4 && p[|p| - 2] == p[|p| - 1] == '}' && (forall i | 0 <= i < |p| - 2 :: p[i] != '}')
  {
    assert p[0] == '{' && p == [p[0]] + p[1..];
    forall i | 0 <= i < |p| - 2 ensures p[i] != '}' && (i > 1 ==> p[i] != '{') {
    }
  }

  lemma PlaceholdersDiffer(b: string)
    ensures |APP_VER| <= |SUB_URL + b| ==> (SUB_URL + b)[..|APP_VER|] != APP_VER
    ensures |SUB_URL| <= |APP_VER + b| ==> (APP_VER + b)[..|SUB_URL|] != SUB_URL
  {
    assert APP_VER[13] == 'V' && SUB_URL[13] == 'S';
    assert |APP_VER| <= |SUB_URL + b| ==> (SUB_URL + b)[..|APP_VER|][13] == 'S';
    assert |SUB_URL| <= |APP_VER + b| ==> (APP_VER + b)[..|SUB_URL|][13] == 'V';
  }

  /** Text that is a brace and then quiet is passed over where it is not what is looked for. */
  lemma ReplaceOther(tail: string, b: string, pat: string, rep: string)
    requires OpensWithPair(pat) && Quiet(tail)
    requires var s := "{" + tail + b; |pat| <= |s| ==> s[..|pat|] != pat
    ensures Replace("{" + tail + b, pat, rep) == "{" + tail + Replace(b, pat, rep)
  {
    hide Quiet;
    var s := "{" + tail + b;
    assert s[0] == '{' && s[1..] == tail + b;
    ReplaceSkips(tail, b, pat, rep);
    assert "{" + (tail + Replace(b, pat, rep)) == "{" + tail + Replace(b, pat, rep);
  }

  /** One placeholder in front: replaced if it is the one looked for, kept if the other. */
  lemma ReplaceAtPlaceholder(p: string, b: string, pat: string, rep: string)
    requires Known(p) && Known(pat)
    ensures Replace(p + b, pat, rep) == (if p == pat then rep else p) + Replace(b, pat, rep)
  {
    PlaceholderShape(p);
    PlaceholderShape(pat);
    PlaceholdersDiffer(b);
    hide Quiet, Replace;
    if p == pat {
      ReplaceHits(b, pat, rep);
    } else {
      ReplaceOther(p[1..], b, pat, rep);
    }
  }

  // ------------------------------------------------------------- what the guard accepts

  /** `{{` begins at `start` and not before: what precedes it is quiet. */
  lemma QuietBefore(s: string, start: nat)
    requires FindPair(s, '{') == Some(start)
    ensures Quiet(s[..start])
  {
  }

  lemma FoundFirst(a: string, p: string, b: string)
    requires Quiet(a) && Known(p)
    ensures Found(a + p + b) == [p] + Found(b)
  {
    PlaceholderShape(p);
    PairAfterQuiet(a, p + b);
    PairEndsPlaceholder(p, b);
    var s := a + p + b;
    assert s == a + (p + b);
    hide FindPair, Quiet, Known, NoOpen;
    assert s[|a|..] == p + b;
    assert (p + b)[..|p|] == p && (p + b)[|p|..] == b;
  }

  lemma PairAfterQuiet(a: string, b: string)
    requires Quiet(a) && OpensWithPair(b)
    ensures FindPair(a + b, '{') == Some(|a|)
  {
    var s := a + b;
    assert s[|a|] == b[0] && s[|a| + 1] == b[1];
    assert forall i | 0 <= i < |a| :: s[i] == a[i];
    FirstPair(s, '{', |a|);
  }

  lemma PairEndsPlaceholder(p: string, b: string)
    requires Known(p)
    ensures |p| >= 4 && FindPair(p + b, '}') == Some(|p| - 2)
  {
    PlaceholderShape(p);
    hide Known;
    var s := p + b;
    assert forall i | 0 <= i < |p| :: s[i] == p[i];
    FirstPair(s, '}', |p| - 2);
  }

  lemma FirstPair(s: string, c: char, k: nat)
    requires k + 1 < |s| && s[k] == c && s[k + 1] == c
    requires forall i | 0 <= i < k :: !(s[i] == c && s[i + 1] == c)
    ensures FindPair(s, c) == Some(k)
  {
  }

  /** The text around the placeholders of an accepted template. */
  ghost predicate Decomposes(s: string, t0: string, p: string, t1: string, q: string, t2: string) {
    s == t0 + p + (t1 + q + t2) && Known(p) && Known(q) && Quiet(t0) && Quiet(t1) && NoOpen(t2)
  }

  lemma FoundNothing(s: string)
    ensures Found(s) == [] <==> NoOpen(s)
  {
  }

  lemma FoundUnfolds(s: string, start: nat, end: nat)
    requires FindPair(s, '{') == Some(start) && FindPair(s[start..], '}') == Some(end)
    ensures Found(s) == [s[start..][..end + 2]] + Found(s[start..][end + 2..])
  {
    hide FindPair;
  }

  lemma FoundUnterminated(s: string, start: nat)
    requires FindPair(s, '{') == Some(start) && FindPair(s[start..], '}').None?
    ensures Found(s) == [s[start..]]
  {
    hide FindPair;
  }

  lemma SplitAtFirst(s: string) returns (t: string, rest: string)
    requires Found(s) != [] && Known(Found(s)[0])
    ensures s == t + Found(s)[0] + rest && Quiet(t) && Found(rest) == Found(s)[1..]
  {
    FoundNothing(s);
    assert FindPair(s, '{').Some?;
    hide Found, Quiet, Known, FindPair, NoOpen;
    var start := FindPair(s, '{').value;
    QuietBefore(s, start);
    t := s[..start];
    var after := s[start..];
    if FindPair(after, '}').None? {
      NotUnterminated(after);
      FoundUnterminated(s, start);
      assert false;
    }
    var end := FindPair(after, '}').value;
    FoundUnfolds(s, start, end);
    rest := after[end + 2..];
    CutTwice(s, start, end + 2);
  }

  lemma CutTwice(s: string, i: nat, n: nat)
    requires i + n <= |s|
    ensures s == s[..i] + s[i..][..n] + s[i..][n..]
  {
  }

  lemma NotUnterminated(after: string)
    requires FindPair(after, '}').None?
    ensures !Known(after)
  {
    if Known(after) {
      PlaceholderShape(after);
      assert false;
    }
  }

  lemma AcceptedDecomposes(s: string) returns (t0: string, p: string, t1: string, q: string, t2: string)
    requires Guard(s).None?
    ensures Decomposes(s, t0, p, t1, q, t2)
  {
    hide Quiet, FindPair;
    var found := Found(s);
    forall x | x in found ensures Known(x) {
      assert x !in UnexpectedIn(found);
    }
    p, q := found[0], found[1];
    assert p in found && q in found;
    hide Found;
    var rest;
    t0, rest := SplitAtFirst(s);
    assert Found(rest) == [q];
    t1, t2 := SplitAtFirst(rest);
    FoundNothing(t2);
  }

  /** The guard accepts exactly the templates of that shape. */
  lemma AcceptedExactly(s: string)
    ensures Guard(s).None? <==> exists t0, p, t1, q, t2 :: Decomposes(s, t0, p, t1, q, t2)
  {
    if Guard(s).None? {
      var t0, p, t1, q, t2 := AcceptedDecomposes(s);
    }
    forall t0, p, t1, q, t2 | Decomposes(s, t0, p, t1, q, t2) ensures Guard(s).None? {
      hide Quiet, NoOpen;
      FoundFirst(t0, p, t1 + q + t2);
      FoundFirst(t1, q, t2);
      FoundNothing(t2);
      hide Found;
      assert Found(s) == [p, q];
      assert UnexpectedIn([p, q]) == {};
    }
  }

  // ---------------------------------------------------------------- what can be left over

  /** What a version must be like for no `{{` ever to be left. */
  predicate SafeVersion(version: string) {
    version != "" && version[0] != '{' && Quiet(version)
  }

  lemma ReplaceFirstChar(s: string, pat: string, rep: string)
    requires pat != "" && rep != "" && rep[0] != '{'
    ensures Replace(s, pat, rep) != "" && Replace(s, pat, rep)[0] == '{' ==> s != "" && s[0] == '{'
  {
  }

  lemma {:induction false} ReplaceKeepsNoOpen(s: string, pat: string, rep: string)
    requires NoOpen(s) && pat != "" && SafeVersion(rep)
    ensures NoOpen(Replace(s, pat, rep))
    decreases |s|
  {
    if |s| >= |pat| {
      if s[..|pat|] == pat {
        var rest := s[|pat|..];
        assert s == s[..|pat|] + rest;
        NoOpenParts(s[..|pat|], rest);
        ReplaceKeepsNoOpen(rest, pat, rep);
        NoOpenJoin(rep, Replace(rest, pat, rep));
      } else {
        assert s == [s[0]] + s[1..];
        NoOpenParts([s[0]], s[1..]);
        ReplaceKeepsNoOpen(s[1..], pat, rep);
        ReplaceFirstChar(s[1..], pat, rep);
        ConsNoOpen(s[0], Replace(s[1..], pat, rep));
      }
    }
  }

  lemma ConsNoOpen(c: char, s: string)
    requires NoOpen(s) && !(c == '{' && s != "" && s[0] == '{')
    ensures NoOpen([c] + s)
  {
    var t := [c] + s;
    assert forall i | 1 <= i < |t| - 1 :: t[i] == s[i - 1] && t[i + 1] == s[i];
  }

  /** The first two replacements put a version, or nothing, where each placeholder was. */
  lemma PlaceholdersReplaced(t0: string, p: string, t1: string, q: string, t2: string, version: string)
    requires Known(p) && Known(q) && Quiet(t0) && Quiet(t1) && NoOpen(t2) && Quiet(version)
    ensures var s := t0 + p + (t1 + q + t2);
            Replace(Replace(s, APP_VER, version), SUB_URL, "")
            == t0 + (if p == APP_VER then version else "") + (t1 + (if q == APP_VER then version else "") + t2)
  {
    hide Quiet, NoOpen, Replace, OpensWithPair;
    PlaceholderShape(SUB_URL);
    var p', q' := if p == APP_VER then version else p, if q == APP_VER then version else q;
    PassOver(t0, p, t1, q, t2, APP_VER, version);
    NothingToReplace(t2, SUB_URL, "");
    TakenOut(t1, q, t2, version);
    TakenOut(t0, p, t1 + q' + t2, version);
  }

  /** The second replacement, at one of the places the first has been over. */
  lemma TakenOut(t: string, p: string, rest: string, version: string)
    requires Quiet(t) && Quiet(version) && Known(p)
    ensures Replace(t + (if p == APP_VER then version else p) + rest, SUB_URL, "")
            == t + (if p == APP_VER then version else "") + Replace(rest, SUB_URL, "")
  {
    if p == APP_VER {
      VersionStays(t, version, rest);
    } else {
      assert p == SUB_URL;
      hide Quiet, Replace;
      StepOver(t, p, rest, SUB_URL, "");
    }
  }

  lemma VersionStays(t: string, version: string, rest: string)
    requires Quiet(t) && Quiet(version)
    ensures Replace(t + version + rest, SUB_URL, "") == t + version + Replace(rest, SUB_URL, "")
  {
    PlaceholderShape(SUB_URL);
    hide Replace;
    NoOpenJoin(t, version);
    ReplaceSkips(t + version, rest, SUB_URL, "");
  }

  /** Past quiet text, and then past a placeholder. */
  lemma StepOver(t: string, p: string, rest: string, pat: string, rep: string)
    requires Quiet(t) && Known(pat) && Known(p)
    ensures Replace(t + p + rest, pat, rep) == t + (if p == pat then rep else p) + Replace(rest, pat, rep)
  {
    hide Quiet, Replace;
    PlaceholderShape(pat);
    assert t + p + rest == t + (p + rest);
    ReplaceSkips(t, p + rest, pat, rep);
    ReplaceAtPlaceholder(p, rest, pat, rep);
  }

  lemma PassOver(t0: string, p: string, t1: string, q: string, t2: string, pat: string, rep: string)
    requires Known(p) && Known(q) && Known(pat) && Quiet(t0) && Quiet(t1) && NoOpen(t2)
    ensures Replace(t0 + p + (t1 + q + t2), pat, rep)
            == t0 + (if p == pat then rep else p) + (t1 + (if q == pat then rep else q) + t2)
  {
    hide Quiet, NoOpen, Replace;
    PlaceholderShape(pat);
    NothingToReplace(t2, pat, rep);
    StepOver(t1, q, t2, pat, rep);
    StepOver(t0, p, t1 + q + t2, pat, rep);
  }

  lemma FiveParts(t0: string, x: string, t1: string, y: string, t2: string)
    requires Quiet(t0) && Quiet(x) && Quiet(t1) && Quiet(y) && NoOpen(t2)
    ensures NoOpen(t0 + x + (t1 + y + t2))
  {
    NoOpenJoin(t0, x);
    NoOpenJoin(t1, y);
    NoOpenJoin(t1 + y, t2);
    NoOpenJoin(t0 + x, t1 + y + t2);
  }

  /** With a safe version, no accepted template keeps a `{{`. */
  lemma NothingLeftOver(template: string, version: string)
    requires Guard(template).None? && SafeVersion(version)
    ensures NoOpen(Substituted(template, version))
  {
    assert Quiet("") && SafeVersion("/") && Quiet(version);
    hide Guard, Replace, Quiet, NoOpen, SafeVersion;
    var t0, p, t1, q, t2 := AcceptedDecomposes(template);
    PlaceholdersReplaced(t0, p, t1, q, t2, version);
    var x, y := if p == APP_VER then version else "", if q == APP_VER then version else "";
    FiveParts(t0, x, t1, y, t2);
    var two := t0 + x + (t1 + y + t2);
    ReplaceKeepsNoOpen(two, VERSION_SENTINEL, version);
    ReplaceKeepsNoOpen(Replace(two, VERSION_SENTINEL, version), SUB_URL_SENTINEL, "/");
  }

  // ------------------------------------------------------------------- and when one can be

  /** An accepted template that shows what any other version can leave behind. */
  const WITNESS := SUB_URL + SUB_URL + "{" + VERSION_SENTINEL + "{"

  lemma {:induction false} ReplaceKeepsOpen(s: string, pat: string, rep: string)
    requires pat != "" && '{' !in pat && !NoOpen(s)
    ensures !NoOpen(Replace(s, pat, rep))
    decreases |s|
  {
    var i :| 0 <= i < |s| - 1 && s[i] == '{' && s[i + 1] == '{';
    if |s| >= |pat| {
      if s[..|pat|] == pat {
        assert forall j | 0 <= j < |pat| :: s[j] == pat[j] && s[j] in pat;
        var rest := s[|pat|..];
        assert rest[i - |pat|] == '{' && rest[i - |pat| + 1] == '{';
        ReplaceKeepsOpen(rest, pat, rep);
        if NoOpen(Replace(s, pat, rep)) {
          NoOpenParts(rep, Replace(rest, pat, rep));
        }
      } else {
        var rest := Replace(s[1..], pat, rep);
        if i == 0 {
          BraceStays(s[1..], pat, rep);
          assert Replace(s, pat, rep)[0] == '{' && Replace(s, pat, rep)[1] == '{';
        } else {
          assert s[1..][i - 1] == '{' && s[1..][i] == '{';
          ReplaceKeepsOpen(s[1..], pat, rep);
          if NoOpen(Replace(s, pat, rep)) {
            NoOpenParts([s[0]], rest);
          }
        }
      }
    }
  }

  lemma BraceStays(s: string, pat: string, rep: string)
    requires pat != "" && '{' !in pat && s != "" && s[0] == '{'
    ensures Replace(s, pat, rep) != "" && Replace(s, pat, rep)[0] == '{'
  {
    assert |s| >= |pat| ==> s[..|pat|][0] == s[0];
    assert pat[0] in pat;
  }

  lemma WitnessIsAccepted()
    ensures Guard(WITNESS).None?
  {
    hide Guard, Found;
    var t2 := "{" + VERSION_SENTINEL + "{";
    assert NoOpen(t2) && Quiet("");
    assert WITNESS == "" + SUB_URL + ("" + SUB_URL + t2);
    assert Decomposes(WITNESS, "", SUB_URL, "", SUB_URL, t2);
    AcceptedExactly(WITNESS);
  }

  lemma WitnessSubstituted(version: string)
    ensures Substituted(WITNESS, version) == Replace("{" + version + "{", SUB_URL_SENTINEL, "/")
  {
    hide Replace;
    var t2 := "{" + VERSION_SENTINEL + "{";
    assert NoOpen(t2) && Quiet("");
    assert WITNESS == "" + SUB_URL + ("" + SUB_URL + t2);
    PassOver("", SUB_URL, "", SUB_URL, t2, APP_VER, version);
    PassOver("", SUB_URL, "", SUB_URL, t2, SUB_URL, "");
    assert "" + "" + ("" + "" + t2) == t2;
    SentinelReplaced(version);
  }

  lemma SentinelReplaced(version: string)
    ensures Replace("{" + VERSION_SENTINEL + "{", VERSION_SENTINEL, version) == "{" + version + "{"
  {
    var s := "{" + VERSION_SENTINEL + "{";
    assert s[..|VERSION_SENTINEL|][0] == '{' && VERSION_SENTINEL[0] == '0';
    assert s[1..] == VERSION_SENTINEL + "{";
    ReplaceHits("{", VERSION_SENTINEL, version);
    assert Replace("{", VERSION_SENTINEL, version) == "{";
  }

  /** Any version that is not safe leaves `{{` behind in some accepted template. */
  lemma SomethingLeftOver(version: string)
    requires !SafeVersion(version)
    ensures Guard(WITNESS).None? && !NoOpen(Substituted(WITNESS, version))
  {
    hide Guard, Replace, Substituted;
    WitnessIsAccepted();
    WitnessSubstituted(version);
    var s := "{" + version + "{";
    if version == "" || version[0] == '{' {
      assert s[0] == '{' && s[1] == '{';
    } else if version[|version| - 1] == '{' {
      assert s[|version|] == '{' && s[|version| + 1] == '{';
    } else {
      var i :| 0 <= i < |version| - 1 && version[i] == '{' && version[i + 1] == '{';
      assert s[i + 1] == '{' && s[i + 2] == '{';
    }
    assert '{' !in SUB_URL_SENTINEL;
    ReplaceKeepsOpen(s, SUB_URL_SENTINEL, "/");
  }

  /**
   The guard does its job for a version if and only if the version is not empty, holds no
   `{{`, and neither begins nor ends with an opening brace.
   */
  lemma GuardSufficesExactly(version: string)
    ensures SafeVersion(version)
            <==> forall template :: Guard(template).None? ==> NoOpen(Substituted(template, version))
  {
    hide Guard, Substituted, SafeVersion, NoOpen;
    if SafeVersion(version) {
      forall template | Guard(template).None? ensures NoOpen(Substituted(template, version)) {
        NothingLeftOver(template, version);
      }
    } else {
      SomethingLeftOver(version);
    }
  }

  // ---------------------------------------------------------------- what is put, and where

  /** `{{.SwaggerAppVer}}` gives way to the version and `{{.SwaggerAppSubUrl}}` to nothing. */
  lemma TemplateMeans(t0: string, p: string, t1: string, q: string, t2: string, version: string)
    requires Decomposes(t0 + p + (t1 + q + t2), t0, p, t1, q, t2) && Quiet(version)
    ensures var x := if p == "{{.SwaggerAppVer}}" then version else "";
            var y := if q == "{{.SwaggerAppVer}}" then version else "";
            var result := t0 + x + (t1 + y + t2);
            && {p, q} <= {"{{.SwaggerAppVer}}", "{{.SwaggerAppSubUrl}}"}
            && (Occurrences(result, "0.0.0+GITEA-API-APP-VERSION") == 0 && Occurrences(result, "/GITEA-API-APP-SUBURL/") == 0
                ==> Substituted(t0 + p + (t1 + q + t2), version) == result)
  {
    hide Quiet, NoOpen, Replace, Occurrences;
    PlaceholdersReplaced(t0, p, t1, q, t2, version);
    var x := if p == "{{.SwaggerAppVer}}" then version else "";
    var y := if q == "{{.SwaggerAppVer}}" then version else "";
    var result := t0 + x + (t1 + y + t2);
    if Occurrences(result, VERSION_SENTINEL) == 0 && Occurrences(result, SUB_URL_SENTINEL) == 0 {
      ReplaceNone(result, VERSION_SENTINEL, version);
      ReplaceNone(result, SUB_URL_SENTINEL, "/");
    }
  }

  datatype UpstreamError = BadTemplate(cause: GuardError) | SentinelCount(sentinel: string, n: nat) | NeitherLayout

  /** `check_upstream`: placeholders mean the one layout, sentinels the other. */
  function UpstreamGuard(s: string): Option<UpstreamError> {
    var (v, u) := (Occurrences(s, VERSION_SENTINEL), Occurrences(s, SUB_URL_SENTINEL));
    if Found(s) != [] then (match Guard(s) case None => None case Some(e) => Some(BadTemplate(e)))
    else if v == 0 && u == 0 then Some(NeitherLayout)
    else if v != 1 then Some(SentinelCount(VERSION_SENTINEL, v))
    else if u != 1 then Some(SentinelCount(SUB_URL_SENTINEL, u))
    else None
  }

  method CountOccurrences(s: string, pat: string) returns (n: nat)
    requires pat != ""
    ensures n == Occurrences(s, pat)
  {
    var i := 0;
    n := 0;
    assert s[0..] == s;
    while i + |pat| <= |s|
      invariant 0 <= i <= |s| && n + Occurrences(s[i..], pat) == Occurrences(s, pat)
      decreases |s| - i
    {
      var here := s[i..];
      assert here[..|pat|] == s[i..i + |pat|];
      if s[i..i + |pat|] == pat {
        assert here[|pat|..] == s[i + |pat|..];
        n := n + 1;
        i := i + |pat|;
      } else {
        assert here[1..] == s[i + 1..];
        i := i + 1;
      }
    }
  }

  method CheckUpstream(s: string) returns (r: Option<UpstreamError>)
    ensures r == UpstreamGuard(s)
  {
    hide Found, Occurrences, Guard;
    var found := FindPlaceholders(s);
    if found != [] {
      var bad := CheckPlaceholders(s);
      return if bad.Some? then Some(BadTemplate(bad.value)) else None;
    }
    var versions := CountOccurrences(s, VERSION_SENTINEL);
    var subUrls := CountOccurrences(s, SUB_URL_SENTINEL);
    if versions == 0 && subUrls == 0 {
      return Some(NeitherLayout);
    }
    if versions != 1 {
      return Some(SentinelCount(VERSION_SENTINEL, versions));
    }
    if subUrls != 1 {
      return Some(SentinelCount(SUB_URL_SENTINEL, subUrls));
    }
    return None;
  }

  /** Nothing is found exactly where no `{{` stands. */
  lemma FoundNoneExactly(s: string)
    ensures Found(s) == [] <==> NoOpen(s)
  {
  }

  /** An upstream document is in one layout or the other: two known placeholders, or one of each sentinel and no `{{`. */
  lemma UpstreamExactly(s: string)
    ensures UpstreamGuard(s).None?
            <==> || Guard(s).None?
                 || (NoOpen(s) && Occurrences(s, "0.0.0+GITEA-API-APP-VERSION") == 1
                     && Occurrences(s, "/GITEA-API-APP-SUBURL/") == 1)
  {
    hide Found, Occurrences, NoOpen;
    FoundNoneExactly(s);
    assert |EXPECTED| == 2;
  }

  /** In the other layout the version takes its sentinel's place, and a slash the one of the sub-URL. */
  lemma SentinelsMean(s: string, version: string) returns (a: string, b: string, c: string, d: string)
    requires NoOpen(s) && Occurrences(s, "0.0.0+GITEA-API-APP-VERSION") == 1
    ensures s == a + "0.0.0+GITEA-API-APP-VERSION" + b
    ensures Occurrences(a + version + b, "/GITEA-API-APP-SUBURL/") == 1 ==>
              && a + version + b == c + "/GITEA-API-APP-SUBURL/" + d
              && Substituted(s, version) == c + "/" + d
  {
    hide Replace, Occurrences, NoOpen;
    NothingToReplace(s, APP_VER, version);
    NothingToReplace(s, SUB_URL, "");
    a, b := ReplaceOnce(s, VERSION_SENTINEL, version);
    c, d := "", "";
    if Occurrences(a + version + b, SUB_URL_SENTINEL) == 1 {
      c, d := ReplaceOnce(a + version + b, SUB_URL_SENTINEL, "/");
    }
  }
}
