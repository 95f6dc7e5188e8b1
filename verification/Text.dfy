/** The string operations the source takes from its standard library. */
module Text {
  import opened Wrappers

  /** Every occurrence of `pat`, found left to right and without overlap, becomes `rep`. */
  function Replace(s: string, pat: string, rep: string): string
    requires pat != ""
    decreases |s|
  {
    if |s| < |pat| then s
    else if s[..|pat|] == pat then rep + Replace(s[|pat|..], pat, rep)
    else [s[0]] + Replace(s[1..], pat, rep)
  }

  /** The stretches of `s` between occurrences of `sep`: always at least one. */
  function SplitOn(s: string, sep: char): (r: seq<string>)
    ensures r != []
  {
    if s == "" then [""]
    else
      var rest := SplitOn(s[1..], sep);
      if s[0] == sep then [""] + rest else [[s[0]] + rest[0]] + rest[1..]
  }

  /** The words with `sep` between them. */
  function JoinWith(words: seq<string>, sep: char): string
    requires words != []
  {
    if |words| == 1 then words[0] else words[0] + [sep] + JoinWith(words[1..], sep)
  }

  /** Splitting undoes joining, for words without the separator. */
  lemma {:induction false} SplitJoined(words: seq<string>, sep: char)
    requires words != [] && forall w | w in words :: sep !in w
    ensures SplitOn(JoinWith(words, sep), sep) == words
    decreases |words|, |words[0]|
  {
    var s := JoinWith(words, sep);
    assert words[0] in words;
    if words[0] != "" {
      var shorter := [words[0][1..]] + words[1..];
      forall w | w in shorter ensures sep !in w {
        if w == words[0][1..] {
          assert forall c | c in w :: c in words[0];
        } else {
          assert w in words[1..] && w in words;
        }
      }
      SplitJoined(shorter, sep);
      assert s[0] == words[0][0] && shorter[1..] == words[1..];
      assert s[1..] == JoinWith(shorter, sep);
      assert [words[0][0]] + words[0][1..] == words[0];
      assert words == [words[0]] + words[1..];
    } else if |words| > 1 {
      SplitJoined(words[1..], sep);
      assert s[0] == sep && s[1..] == JoinWith(words[1..], sep);
      assert words == [""] + words[1..];
    }
  }

  /** Joining undoes splitting. */
  lemma {:induction false} JoinSplit(s: string, sep: char)
    ensures JoinWith(SplitOn(s, sep), sep) == s
    ensures forall w | w in SplitOn(s, sep) :: sep !in w
  {
    if s != "" {
      JoinSplit(s[1..], sep);
      var rest := SplitOn(s[1..], sep);
      if s[0] == sep {
        assert ([""] + rest)[1..] == rest;
      } else {
        var first := [s[0]] + rest[0];
        assert ([first] + rest[1..])[1..] == rest[1..];
        assert rest[0] in rest;
      }
      assert s == [s[0]] + s[1..];
    }
  }

  lemma SplitWhole(s: string, sep: char)
    requires sep !in s
    ensures SplitOn(s, sep) == [s]
  {
    SplitJoined([s], sep);
  }

  /** One more character in front of text that splits into `words`. */
  function InFront(c: char, sep: char, words: seq<string>): seq<string>
    requires words != []
  {
    if c == sep then [""] + words else [[c] + words[0]] + words[1..]
  }

  lemma SplitCons(c: char, s: string, sep: char)
    ensures SplitOn([c] + s, sep) == InFront(c, sep, SplitOn(s, sep))
  {
    assert ([c] + s)[1..] == s;
  }

  lemma InFrontAppend(c: char, sep: char, a: seq<string>, b: seq<string>)
    requires a != []
    ensures InFront(c, sep, a + b) == InFront(c, sep, a) + b
  {
    assert (a + b)[0] == a[0] && (a + b)[1..] == a[1..] + b;
  }

  /** Splitting either side of a separator, apart. */
  lemma {:induction false} SplitBetween(a: string, sep: char, b: string)
    ensures SplitOn(a + [sep] + b, sep) == SplitOn(a, sep) + SplitOn(b, sep)
  {
    if a == "" {
      assert a + [sep] + b == [sep] + b;
      SplitCons(sep, b, sep);
    } else {
      hide InFront;
      var rest := a[1..];
      SplitBetween(rest, sep, b);
      SplitCons(a[0], rest, sep);
      SplitCons(a[0], rest + [sep] + b, sep);
      hide SplitOn;
      assert a == [a[0]] + rest && a + [sep] + b == [a[0]] + (rest + [sep] + b);
      InFrontAppend(a[0], sep, SplitOn(rest, sep), SplitOn(b, sep));
    }
  }

  /** Text without a separator in front belongs to the first stretch. */
  lemma {:induction false} SplitAfter(front: string, s: string, sep: char)
    requires sep !in front
    ensures SplitOn(front + s, sep) == [front + SplitOn(s, sep)[0]] + SplitOn(s, sep)[1..]
  {
    var all := front + s;
    if front == "" {
      assert all == s && "" + SplitOn(s, sep)[0] == SplitOn(s, sep)[0];
    } else {
      SplitAfter(front[1..], s, sep);
      assert all[0] == front[0] && all[1..] == front[1..] + s;
      assert [front[0]] + (front[1..] + SplitOn(s, sep)[0]) == front + SplitOn(s, sep)[0];
    }
  }

  /** The first position of `c`. */
  function Find(s: string, c: char): (r: Option<nat>)
    ensures r.Some? ==> r.value < |s| && s[r.value] == c && c !in s[..r.value]
    ensures r.None? ==> c !in s
  {
    if s == "" then None
    else if s[0] == c then Some(0)
    else
      match Find(s[1..], c)
      case None => None
      case Some(i) => assert s[..i + 1] == [s[0]] + s[1..][..i]; Some(i + 1)
  }

  lemma {:induction false} FindPast(a: string, b: string, c: char)
    requires c !in a
    ensures Find(b, c).None? ==> Find(a + b, c).None?
    ensures Find(b, c).Some? ==> Find(a + b, c) == Some(|a| + Find(b, c).value)
  {
    if a == "" {
      assert a + b == b;
    } else {
      assert (a + b)[0] == a[0] && (a + b)[1..] == a[1..] + b;
      FindPast(a[1..], b, c);
    }
  }

  lemma FindAfter(a: string, c: char, b: string)
    requires c !in a
    ensures Find(a + [c] + b, c) == Some(|a|)
  {
    assert a + [c] + b == a + ([c] + b);
    FindPast(a, [c] + b, c);
  }

  /** The strings of a list, as a set. */
  function ToSet(words: seq<string>): set<string> {
    set w | w in words
  }

  /** Unicode White_Space. */
  predicate IsSpace(c: char) {
    || '\U{9}' <= c <= '\U{D}'
    || c in {' ', '\U{85}', '\U{A0}', '\U{1680}', '\U{2028}', '\U{2029}', '\U{202F}', '\U{205F}', '\U{3000}'}
    || '\U{2000}' <= c <= '\U{200A}'
  }

  function TrimStart(s: string): string {
    if s != "" && IsSpace(s[0]) then TrimStart(s[1..]) else s
  }

  function TrimEnd(s: string): string {
    if s != "" && IsSpace(s[|s| - 1]) then TrimEnd(s[..|s| - 1]) else s
  }

  function Trim(s: string): string {
    TrimEnd(TrimStart(s))
  }

  lemma Associate<T>(a: seq<T>, b: seq<T>, c: seq<T>)
    ensures (a + b) + c == a + (b + c)
  {
  }

  /** All of them, by code point. */
  lemma WhiteSpaceIs(c: char)
    ensures IsSpace(c)
            <==> c as int in {0x9, 0xA, 0xB, 0xC, 0xD, 0x20, 0x85, 0xA0, 0x1680, 0x2000, 0x2001, 0x2002, 0x2003, 0x2004,
                              0x2005, 0x2006, 0x2007, 0x2008, 0x2009, 0x200A, 0x2028, 0x2029, 0x202F, 0x205F, 0x3000}
  {
  }

  /** How often `pat` occurs, counted left to right and without overlap. */
  function Occurrences(s: string, pat: string): nat
    requires pat != ""
    decreases |s|
  {
    if |s| < |pat| then 0
    else if s[..|pat|] == pat then 1 + Occurrences(s[|pat|..], pat)
    else Occurrences(s[1..], pat)
  }

  lemma {:induction false} ReplaceNone(s: string, pat: string, rep: string)
    requires pat != "" && Occurrences(s, pat) == 0
    ensures Replace(s, pat, rep) == s
    decreases |s|
  {
    if |s| >= |pat| {
      ReplaceNone(s[1..], pat, rep);
      assert s == [s[0]] + s[1..];
    }
  }

  /** A text that occurs once is replaced there, and nothing else changes. */
  lemma {:induction false} ReplaceOnce(s: string, pat: string, rep: string) returns (a: string, b: string)
    requires pat != "" && Occurrences(s, pat) == 1
    ensures s == a + pat + b && Replace(s, pat, rep) == a + rep + b
    decreases |s|
  {
    if s[..|pat|] == pat {
      a, b := "", s[|pat|..];
      ReplaceNone(b, pat, rep);
      assert s == pat + b && "" + pat == pat && "" + rep == rep;
    } else {
      var c, rest := s[0], s[1..];
      assert s == [c] + rest && Replace(s, pat, rep) == [c] + Replace(rest, pat, rep);
      hide Replace;
      var front;
      front, b := ReplaceOnce(rest, pat, rep);
      a := [c] + front;
      hide Occurrences;
      InFrontOfBoth(c, front, pat, b);
      InFrontOfBoth(c, front, rep, b);
    }
  }

  lemma InFrontOfBoth(c: char, front: string, mid: string, b: string)
    ensures [c] + (front + mid + b) == [c] + front + mid + b
  {
  }
}
