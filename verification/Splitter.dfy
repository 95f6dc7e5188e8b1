/**
 The quote-aware word splitter that reads an alias expansion.

 `Split` is the character loop of the source and `SplitWords` the function it computes.
 What that function means is given by a grammar (`Token`, `TokensText`, `TokensWords`):
 an input is accepted exactly when it is the text of some token list, and the words
 returned are the ones that token list denotes.
 */
module Splitter {
  import opened Wrappers
  import opened Text

  datatype SplitError = LoneBackslash | UnclosedQuote

  /** The loop's `quote` variable: which quote is open, if any. */
  datatype Quote = NoQuote | Single | Double

  function QuoteChar(q: Quote): char {
    if q == Single then '\'' else '"'
  }

  /** What is left to do: the remaining input and the loop's four variables. */
  function SplitFrom(s: string, quote: Quote, word: string, have: bool, out: seq<string>)
    : (r: Result<seq<string>, SplitError>)
    decreases |s|
  {
    if s == "" then
      if quote != NoQuote then Err(UnclosedQuote)
      else Ok(if have then out + [word] else out)
    else if quote != NoQuote && s[0] == QuoteChar(quote) then
      SplitFrom(s[1..], NoQuote, word, have, out)
    else if quote == Double && s[0] == '\\' then
      if |s| == 1 then SplitFrom("", quote, word + ['\\'], have, out)
      else SplitFrom(s[2..], quote, word + Unescaped(s[1]), have, out)
    else if quote != NoQuote then
      SplitFrom(s[1..], quote, word + [s[0]], have, out)
    else if s[0] == '\'' || s[0] == '"' then
      SplitFrom(s[1..], if s[0] == '\'' then Single else Double, word, true, out)
    else if s[0] == '\\' then
      if |s| == 1 then Err(LoneBackslash)
      else SplitFrom(s[2..], NoQuote, word + [s[1]], true, out)
    else if IsSpace(s[0]) then
      SplitFrom(s[1..], NoQuote, "", false, if have then out + [word] else out)
    else
      SplitFrom(s[1..], NoQuote, word + [s[0]], true, out)
  }

  /** What `\c` stands for inside double quotes: only `"` and `\` are escapable there. */
  function Unescaped(c: char): string {
    if c == '"' || c == '\\' then [c] else ['\\', c]
  }

  function SplitWords(input: string): Result<seq<string>, SplitError> {
    SplitFrom(input, NoQuote, "", false, [])
  }

  /** The source's loop. `i` is how much the character iterator has consumed. */
  method Split(input: string) returns (r: Result<seq<string>, SplitError>)
    ensures r == SplitWords(input)
  {
    var out, word, have, quote: Quote := [], "", false, NoQuote;
    var i := 0;
    while i < |input|
      invariant 0 <= i <= |input|
      invariant have || (word == "" && quote == NoQuote)
      invariant SplitWords(input) == SplitFrom(input[i..], quote, word, have, out)
    {
      var c := input[i];
      assert input[i..][0] == c && input[i..][1..] == input[i + 1..];
      i := i + 1;
      if quote != NoQuote && c == QuoteChar(quote) {
        quote := NoQuote;
      } else if quote == Single {
        word := word + [c];
      } else if quote == Double && c == '\\' {
        if i < |input| {
          assert input[i - 1..][1] == input[i] && input[i - 1..][2..] == input[i + 1..];
          word := word + Unescaped(input[i]);
          i := i + 1;
        } else {
          assert input[i..] == "";
          word := word + ['\\'];
        }
      } else if quote != NoQuote {
        word := word + [c];
      } else if c == '\'' || c == '"' {
        quote := if c == '\'' then Single else Double;
        have := true;
      } else if c == '\\' {
        if i < |input| {
          assert input[i - 1..][1] == input[i] && input[i - 1..][2..] == input[i + 1..];
          word := word + [input[i]];
          have := true;
          i := i + 1;
        } else {
          return Err(LoneBackslash);
        }
      } else if IsSpace(c) {
        if have {
          out := out + [word];
          word := "";
          have := false;
        }
      } else {
        word := word + [c];
        have := true;
      }
    }
    assert input[i..] == "";
    if quote != NoQuote {
      return Err(UnclosedQuote);
    }
    if have {
      out := out + [word];
    }
    return Ok(out);
  }

  // ------------------------------------------------------------------ the grammar

  /** One item inside double quotes: a character standing for itself, or a `\c` pair. */
  datatype Quoted = Lit(c: char) | Esc(c: char)

  /** A stretch of a word, in one of the four ways an expansion can write it. */
  datatype Piece =
    | Bare(c: char)
    | Slash(c: char)
    | InSingle(body: string)
    | InDouble(items: seq<Quoted>)

  /** A line is a list of these: whitespace between words, and pieces that make words up. */
  datatype Token = Gap(c: char) | Part(piece: Piece)

  predicate ItemOk(q: Quoted) {
    q.Lit? ==> q.c != '"' && q.c != '\\'
  }

  predicate PieceOk(p: Piece) {
    match p
    case Bare(c) => c != '\'' && c != '"' && c != '\\' && !IsSpace(c)
    case Slash(_) => true
    case InSingle(body) => '\'' !in body
    case InDouble(items) => forall q | q in items :: ItemOk(q)
  }

  predicate TokenOk(t: Token) {
    match t
    case Gap(c) => IsSpace(c)
    case Part(p) => PieceOk(p)
  }

  predicate TokensOk(ts: seq<Token>) {
    forall t | t in ts :: TokenOk(t)
  }

  function ItemText(q: Quoted): string {
    if q.Lit? then [q.c] else ['\\', q.c]
  }

  /** What an item stands for: `\"` a quote, `\\` a backslash, and any other pair the two characters of it. */
  function ItemValue(q: Quoted): string {
    match q
    case Lit(c) => [c]
    case Esc('"') => "\""
    case Esc('\\') => "\\"
    case Esc(c) => ['\\', c]
  }

  function ItemsText(items: seq<Quoted>): string {
    if items == [] then ""
    else ItemText(items[0]) + ItemsText(items[1..])
  }

  function ItemsValue(items: seq<Quoted>): string {
    if items == [] then ""
    else ItemValue(items[0]) + ItemsValue(items[1..])
  }

  function PieceText(p: Piece): string {
    match p
    case Bare(c) => [c]
    case Slash(c) => ['\\', c]
    case InSingle(body) => "'" + body + "'"
    case InDouble(items) => "\"" + ItemsText(items) + "\""
  }

  /** The text a piece contributes to its word. */
  function PieceValue(p: Piece): string {
    match p
    case Bare(c) => [c]
    case Slash(c) => [c]
    case InSingle(body) => body
    case InDouble(items) => ItemsValue(items)
  }

  function TokenText(t: Token): string {
    match t
    case Gap(c) => [c]
    case Part(p) => PieceText(p)
  }

  function TokensText(ts: seq<Token>): string {
    if ts == [] then "" else TokenText(ts[0]) + TokensText(ts[1..])
  }

  /** The words a token list denotes: maximal runs of pieces, concatenated. */
  function TokensWords(ts: seq<Token>): seq<string> {
    WordsFrom(ts, "", false)
  }

  function WordsFrom(ts: seq<Token>, word: string, have: bool): seq<string> {
    if ts == [] then (if have then [word] else [])
    else match ts[0]
      case Gap(_) => (if have then [word] else []) + WordsFrom(ts[1..], "", false)
      case Part(p) => WordsFrom(ts[1..], word + PieceValue(p), true)
  }

  // ------------------------------------------------------- every token list is read back

  lemma {:induction false} ScanSingle(body: string, rest: string, word: string, have: bool, out: seq<string>)
    requires '\'' !in body
    ensures SplitFrom(body + "'" + rest, Single, word, have, out)
            == SplitFrom(rest, NoQuote, word + body, have, out)
  {
    var s := body + "'" + rest;
    if body == "" {
      assert s[1..] == rest && word + body == word;
    } else {
      assert s[1..] == body[1..] + "'" + rest && s[0] == body[0];
      ScanSingle(body[1..], rest, word + [body[0]], have, out);
      assert word + [body[0]] + body[1..] == word + body;
    }
  }

  /** One item inside double quotes is read, and the loop stands behind it. */
  lemma ScanItem(q: Quoted, tail: string, word: string, have: bool, out: seq<string>)
    requires ItemOk(q)
    ensures SplitFrom(ItemText(q) + tail, Double, word, have, out) == SplitFrom(tail, Double, word + ItemValue(q), have, out)
  {
    var s := ItemText(q) + tail;
    if q.Lit? {
      assert s[0] == q.c && s[1..] == tail;
    } else {
      assert s[0] == '\\' && s[1] == q.c && s[2..] == tail;
    }
  }

  lemma {:induction false} ScanDouble(items: seq<Quoted>, rest: string, word: string, have: bool, out: seq<string>)
    requires forall q | q in items :: ItemOk(q)
    ensures SplitFrom(ItemsText(items) + ("\"" + rest), Double, word, have, out)
            == SplitFrom(rest, NoQuote, word + ItemsValue(items), have, out)
  {
    var end := "\"" + rest;
    if items == [] {
      assert ItemsText(items) + end == end && end[1..] == rest && word + ItemsValue(items) == word;
    } else {
      var q, more := items[0], items[1..];
      assert q in items;
      assert ItemsText(items) == ItemText(q) + ItemsText(more) && ItemsValue(items) == ItemValue(q) + ItemsValue(more);
      hide SplitFrom, Unescaped, ItemText, ItemValue, ItemsText, ItemsValue, ItemOk;
      ScanItem(q, ItemsText(more) + end, word, have, out);
      ScanDouble(more, rest, word + ItemValue(q), have, out);
      Associate(ItemText(q), ItemsText(more), end);
      Associate(word, ItemValue(q), ItemsValue(more));
    }
  }

  lemma ScanToken(t: Token, rest: string, word: string, have: bool, out: seq<string>)
    requires TokenOk(t) && (have || word == "")
    ensures SplitFrom(TokenText(t) + rest, NoQuote, word, have, out)
            == match t
               case Gap(_) => SplitFrom(rest, NoQuote, "", false, if have then out + [word] else out)
               case Part(p) => SplitFrom(rest, NoQuote, word + PieceValue(p), true, out)
  {
    hide ItemsText, ItemsValue;
    var s := TokenText(t) + rest;
    match t
    case Gap(c) => assert s[1..] == rest;
    case Part(Bare(c)) => assert s[1..] == rest;
    case Part(Slash(c)) => assert s[2..] == rest && s[1] == c;
    case Part(InSingle(body)) => ScanSingleQuoted(body, rest, word, have, out);
    case Part(InDouble(items)) => ScanDoubleQuoted(items, rest, word, have, out);
  }

  lemma ScanSingleQuoted(body: string, rest: string, word: string, have: bool, out: seq<string>)
    requires '\'' !in body
    ensures SplitFrom("'" + body + "'" + rest, NoQuote, word, have, out)
            == SplitFrom(rest, NoQuote, word + body, true, out)
  {
    var s := "'" + body + "'" + rest;
    assert s[0] == '\'' && s[1..] == body + "'" + rest;
    ScanSingle(body, rest, word, true, out);
  }

  lemma ScanDoubleQuoted(items: seq<Quoted>, rest: string, word: string, have: bool, out: seq<string>)
    requires forall q | q in items :: ItemOk(q)
    ensures SplitFrom("\"" + ItemsText(items) + "\"" + rest, NoQuote, word, have, out)
            == SplitFrom(rest, NoQuote, word + ItemsValue(items), true, out)
  {
    hide ItemsText, ItemsValue;
    var s := "\"" + ItemsText(items) + "\"" + rest;
    assert s[0] == '"' && s[1..] == ItemsText(items) + ("\"" + rest);
    ScanDouble(items, rest, word, true, out);
  }

  lemma ScanNothing(word: string, have: bool, out: seq<string>)
    ensures SplitFrom(TokensText([]), NoQuote, word, have, out) == Ok(out + WordsFrom([], word, have))
  {
    assert out + [] == out;
  }

  lemma {:induction false} ScanTokens(ts: seq<Token>, word: string, have: bool, out: seq<string>)
    requires TokensOk(ts) && (have || word == "")
    ensures SplitFrom(TokensText(ts), NoQuote, word, have, out) == Ok(out + WordsFrom(ts, word, have))
  {
    if ts == [] {
      ScanNothing(word, have, out);
    } else {
      var t, rest := ts[0], ts[1..];
      assert TokenOk(t) && TokensOk(rest) && TokensText(ts) == TokenText(t) + TokensText(rest);
      hide SplitFrom, TokenText, TokensText, PieceValue, TokenOk, TokensOk;
      ScanToken(t, TokensText(rest), word, have, out);
      match t
      case Gap(_) =>
        var flushed := if have then [word] else [];
        ScanTokens(rest, "", false, out + flushed);
        assert (out + flushed) + WordsFrom(rest, "", false) == out + (flushed + WordsFrom(rest, "", false));
        assert out + flushed == if have then out + [word] else out;
      case Part(p) =>
        ScanTokens(rest, word + PieceValue(p), true, out);
    }
  }

  lemma TokensReadBack(ts: seq<Token>)
    requires TokensOk(ts)
    ensures SplitWords(TokensText(ts)) == Ok(TokensWords(ts))
  {
    ScanTokens(ts, "", false, []);
    assert [] + TokensWords(ts) == TokensWords(ts);
  }

  // ------------------------------------------------- every accepted input is a token list

  /** A closing quote exists: the body up to it, as items the grammar knows. */
  lemma {:induction false} CloseSingle(s: string, word: string, have: bool, out: seq<string>)
    returns (body: string, rest: string)
    requires SplitFrom(s, Single, word, have, out) != Err(UnclosedQuote)
    ensures '\'' !in body && s == body + "'" + rest
    decreases |s|
  {
    if s[0] == '\'' {
      body, rest := "", s[1..];
    } else {
      body, rest := CloseSingle(s[1..], word + [s[0]], have, out);
      body := [s[0]] + body;
    }
  }

  lemma {:induction false} CloseDouble(s: string, word: string, have: bool, out: seq<string>)
    returns (items: seq<Quoted>, rest: string)
    requires SplitFrom(s, Double, word, have, out) != Err(UnclosedQuote)
    ensures (forall q | q in items :: ItemOk(q)) && s == ItemsText(items) + "\"" + rest
    decreases |s|
  {
    if s[0] == '"' {
      items, rest := [], s[1..];
    } else {
      var first, n: nat, v;
      if s[0] == '\\' {
        if |s| == 1 { assert false; }
        first, n, v := Esc(s[1]), 2, Unescaped(s[1]);
      } else {
        first, n, v := Lit(s[0]), 1, [s[0]];
      }
      var more;
      more, rest := CloseDouble(s[n..], word + v, have, out);
      items := [first] + more;
      assert items[1..] == more;
      assert s == s[..n] + s[n..];
    }
  }

  lemma {:induction false} Tokenize(s: string, word: string, have: bool, out: seq<string>)
    returns (ts: seq<Token>)
    requires have || word == ""
    requires SplitFrom(s, NoQuote, word, have, out) != Err(UnclosedQuote)
    ensures TokensOk(ts)
    ensures s == TokensText(ts) + if SplitFrom(s, NoQuote, word, have, out).Ok? then "" else "\\"
    decreases |s|
  {
    if s == "" || s == "\\" {
      ts := [];
    } else {
      var t, rest := FirstToken(s, word, have, out);
      ScanToken(t, rest, word, have, out);
      var more;
      match t {
        case Gap(_) => more := Tokenize(rest, "", false, if have then out + [word] else out);
        case Part(p) => more := Tokenize(rest, word + PieceValue(p), true, out);
      }
      ts := [t] + more;
      assert ts[1..] == more;
      hide SplitFrom, TokenText;
      Associate(TokenText(t), TokensText(more), s[|s| - (|rest| - |TokensText(more)|)..]);
    }
  }

  lemma FirstToken(s: string, word: string, have: bool, out: seq<string>) returns (t: Token, rest: string)
    requires s != "" && s != "\\"
    requires SplitFrom(s, NoQuote, word, have, out) != Err(UnclosedQuote)
    ensures TokenOk(t) && s == TokenText(t) + rest && |rest| < |s|
  {
    if s[0] == '\'' {
      var body;
      body, rest := CloseSingle(s[1..], word, true, out);
      t := Part(InSingle(body));
    } else if s[0] == '"' {
      var items;
      items, rest := CloseDouble(s[1..], word, true, out);
      t := Part(InDouble(items));
    } else if s[0] == '\\' {
      t, rest := Part(Slash(s[1])), s[2..];
    } else if IsSpace(s[0]) {
      t, rest := Gap(s[0]), s[1..];
    } else {
      t, rest := Part(Bare(s[0])), s[1..];
    }
  }

  // -------------------------------------------------------------------- main results

  /** Accepted, with exactly these words, if and only if the grammar reads it that way. */
  lemma SplitIsTheGrammar(input: string, words: seq<string>)
    ensures SplitWords(input) == Ok(words)
            <==> exists ts :: TokensOk(ts) && TokensText(ts) == input && TokensWords(ts) == words
  {
    if SplitWords(input).Ok? {
      var ts := Tokenize(input, "", false, []);
      TokensReadBack(ts);
      assert TokensOk(ts) && TokensText(ts) == input && TokensWords(ts) == SplitWords(input).value;
    }
    forall ts | TokensOk(ts) && TokensText(ts) == input
      ensures SplitWords(input) == Ok(TokensWords(ts))
    {
      TokensReadBack(ts);
    }
  }

  /** Reading tokens and then more: the loop stands before the rest, in some state. */
  lemma {:induction false} ScanThen(ts: seq<Token>, rest: string, word: string, have: bool, out: seq<string>)
    returns (w: string, h: bool, o: seq<string>)
    requires TokensOk(ts) && (have || word == "")
    ensures h || w == ""
    ensures SplitFrom(TokensText(ts) + rest, NoQuote, word, have, out) == SplitFrom(rest, NoQuote, w, h, o)
  {
    if ts == [] {
      w, h, o := word, have, out;
      assert "" + rest == rest;
    } else {
      var t, more := ts[0], ts[1..];
      assert TokenOk(t) && TokensOk(more) && TokensText(ts) == TokenText(t) + TokensText(more);
      hide SplitFrom, TokenText, TokensText, PieceValue, TokenOk, TokensOk;
      Associate(TokenText(t), TokensText(more), rest);
      ScanToken(t, TokensText(more) + rest, word, have, out);
      match t {
        case Gap(_) => w, h, o := ScanThen(more, rest, "", false, if have then out + [word] else out);
        case Part(p) => w, h, o := ScanThen(more, rest, word + PieceValue(p), true, out);
      }
    }
  }

  /** A lone backslash is reported exactly of tokens with a backslash behind them; any other refusal is an open quote. */
  lemma LoneBackslashExactly(input: string)
    ensures SplitWords(input) == Err(LoneBackslash) <==> exists ts :: TokensOk(ts) && input == TokensText(ts) + "\\"
  {
    if SplitWords(input) == Err(LoneBackslash) {
      var ts := Tokenize(input, "", false, []);
      assert TokensOk(ts) && input == TokensText(ts) + "\\";
    }
    if ts :| TokensOk(ts) && input == TokensText(ts) + "\\" {
      var w, h, o := ScanThen(ts, "\\", "", false, []);
    }
  }

  lemma {:induction false} TokensTextAppend(a: seq<Token>, b: seq<Token>)
    ensures TokensText(a + b) == TokensText(a) + TokensText(b)
  {
    if a == [] {
      assert a + b == b;
    } else {
      assert (a + b)[1..] == a[1..] + b;
      TokensTextAppend(a[1..], b);
    }
  }

  lemma {:induction false} WordsFromGap(a: seq<Token>, c: char, b: seq<Token>, word: string, have: bool)
    requires have || word == ""
    ensures WordsFrom(a + [Gap(c)] + b, word, have) == WordsFrom(a, word, have) + TokensWords(b)
  {
    var all := a + [Gap(c)] + b;
    if a == [] {
      assert all[1..] == b;
    } else {
      assert all[0] == a[0] && all[1..] == a[1..] + [Gap(c)] + b;
      match a[0]
      case Gap(_) => WordsFromGap(a[1..], c, b, "", false);
      case Part(p) => WordsFromGap(a[1..], c, b, word + PieceValue(p), true);
    }
  }

  lemma JoinedText(a: seq<Token>, c: char, b: seq<Token>)
    ensures TokensText(a + [Gap(c)] + b) == TokensText(a) + [c] + TokensText(b)
  {
    TokensTextAppend(a + [Gap(c)], b);
    TokensTextAppend(a, [Gap(c)]);
    assert [Gap(c)][1..] == [];
    assert TokensText([Gap(c)]) == [c];
  }

  /** Joining two accepted inputs by a whitespace character concatenates their words. */
  lemma SplitJoins(a: string, c: char, b: string)
    requires IsSpace(c)
    requires SplitWords(a).Ok? && SplitWords(b).Ok?
    ensures SplitWords(a + [c] + b) == Ok(SplitWords(a).value + SplitWords(b).value)
  {
    var ta := Tokenize(a, "", false, []);
    var tb := Tokenize(b, "", false, []);
    assert TokensText(ta) + "" == a && TokensText(ta) + "" == TokensText(ta);
    assert TokensText(tb) + "" == b && TokensText(tb) + "" == TokensText(tb);
    TokensReadBack(ta);
    TokensReadBack(tb);
    var ts := ta + [Gap(c)] + tb;
    JoinedText(ta, c, tb);
    WordsFromGap(ta, c, tb, "", false);
    TokensReadBack(ts);
  }

  /** A word list as somebody writes it: each word in one or more pieces. */
  function Written(words: seq<seq<Piece>>, sep: char): seq<Token> {
    if words == [] then []
    else if |words| == 1 then AsParts(words[0])
    else AsParts(words[0]) + [Gap(sep)] + Written(words[1..], sep)
  }

  predicate WordOk(w: seq<Piece>) {
    w != [] && forall p | p in w :: PieceOk(p)
  }

  function AsParts(pieces: seq<Piece>): seq<Token> {
    seq(|pieces|, i requires 0 <= i < |pieces| => Part(pieces[i]))
  }

  function WordValue(pieces: seq<Piece>): string {
    if pieces == [] then "" else PieceValue(pieces[0]) + WordValue(pieces[1..])
  }

  function WordValues(words: seq<seq<Piece>>): (vs: seq<string>) {
    if words == [] then [] else [WordValue(words[0])] + WordValues(words[1..])
  }

  lemma {:induction false} WordsOfParts(pieces: seq<Piece>, word: string)
    ensures WordsFrom(AsParts(pieces), word, true) == [word + WordValue(pieces)]
  {
    if pieces != [] {
      assert AsParts(pieces)[1..] == AsParts(pieces[1..]);
      WordsOfParts(pieces[1..], word + PieceValue(pieces[0]));
      assert word + PieceValue(pieces[0]) + WordValue(pieces[1..]) == word + WordValue(pieces);
    } else {
      assert word + "" == word;
    }
  }

  lemma OneWordReadsBack(w: seq<Piece>)
    requires WordOk(w)
    ensures TokensOk(AsParts(w))
    ensures SplitWords(TokensText(AsParts(w))) == Ok([WordValue(w)])
  {
    hide SplitWords, TokensText, PieceValue;
    assert AsParts(w)[1..] == AsParts(w[1..]);
    WordsOfParts(w[1..], "" + PieceValue(w[0]));
    assert "" + PieceValue(w[0]) + WordValue(w[1..]) == WordValue(w);
    TokensReadBack(AsParts(w));
  }

  /** Whatever mixture of quoting a word list is written with, splitting returns its words. */
  lemma {:induction false} WrittenWordsReadBack(words: seq<seq<Piece>>, sep: char)
    requires IsSpace(sep)
    requires forall w | w in words :: WordOk(w)
    ensures TokensOk(Written(words, sep))
    ensures SplitWords(TokensText(Written(words, sep))) == Ok(WordValues(words))
  {
    if words != [] {
      var first := AsParts(words[0]);
      assert words[0] in words;
      OneWordReadsBack(words[0]);
      if |words| == 1 {
        assert WordValues(words) == [WordValue(words[0])];
      } else {
        WrittenWordsReadBack(words[1..], sep);
        var rest := Written(words[1..], sep);
        JoinedText(first, sep, rest);
        SplitJoins(TokensText(first), sep, TokensText(rest));
      }
    }
  }
}
