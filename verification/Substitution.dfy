/**
 `$1`..`$9` substitution: the `substitute` function of the alias engine.

 A word is read once, left to right, into `Slot`s; rendering replaces each `Arg` slot and
 never looks at the text it inserted. Arguments no placeholder names are handed back.
 */
module Substitution {
  import opened Wrappers

  /** How many placeholders there are: `$1` to `$9`. */
  const PLACEHOLDERS: nat := 9

  /** One piece of a word: a character, or the argument with this zero-based index. */
  datatype Slot = Ch(c: char) | Arg(i: nat)

  predicate IsPlaceholder(word: string, at: nat) {
    at + 1 < |word| && word[at] == '$' && '1' <= word[at + 1] <= '9'
  }

  function ArgIndex(digit: char): (i: nat)
    requires '1' <= digit <= '9'
  {
    digit as int - '1' as int
  }

  function Slots(word: string): seq<Slot> {
    if word == "" then []
    else if IsPlaceholder(word, 0) then [Arg(ArgIndex(word[1]))] + Slots(word[2..])
    else [Ch(word[0])] + Slots(word[1..])
  }

  function Rendered(slots: seq<Slot>, args: seq<string>): string {
    if slots == [] then ""
    else (match slots[0]
          case Ch(c) => [c]
          case Arg(i) => if i < |args| then args[i] else "") + Rendered(slots[1..], args)
  }

  function Named(slots: seq<Slot>): set<nat> {
    set s | s in slots && s.Arg? :: s.i
  }

  /** The first placeholder, in reading order, that has no argument. */
  function FirstMissing(slots: seq<Slot>, count: nat): Option<nat> {
    if slots == [] then None
    else if slots[0].Arg? && slots[0].i >= count then Some(slots[0].i)
    else FirstMissing(slots[1..], count)
  }

  function RenderedWords(words: seq<string>, args: seq<string>): (r: seq<string>)
    ensures |r| == |words|
  {
    if words == [] then []
    else [Rendered(Slots(words[0]), args)] + RenderedWords(words[1..], args)
  }

  function NamedIn(words: seq<string>): set<nat> {
    if words == [] then {} else Named(Slots(words[0])) + NamedIn(words[1..])
  }

  function FirstMissingIn(words: seq<string>, count: nat): Option<nat> {
    if words == [] then None
    else
      var m := FirstMissing(Slots(words[0]), count);
      if m.Some? then m else FirstMissingIn(words[1..], count)
  }

  /** The elements of `xs` whose position, counted from `from`, is not in `named`. */
  function Unnamed<T>(xs: seq<T>, named: set<nat>, from: nat): seq<T> {
    if xs == [] then []
    else (if from in named then [] else [xs[0]]) + Unnamed(xs[1..], named, from + 1)
  }

  /** The rendered words and the unused arguments, or the number of the missing argument. */
  function Substituted(words: seq<string>, args: seq<string>): Result<(seq<string>, seq<string>), nat> {
    match FirstMissingIn(words, |args|)
    case Some(i) => Err(i + 1)
    case None => Ok((RenderedWords(words, args), Unnamed(args, NamedIn(words), 0)))
  }

  function UsedSet(used: array<bool>): set<nat>
    reads used
  {
    set i: nat | 0 <= i < used.Length && used[i]
  }

  method Mark(used: array<bool>, idx: nat)
    requires idx < used.Length
    modifies used
    ensures UsedSet(used) == old(UsedSet(used)) + {idx}
  {
    used[idx] := true;
  }

  /** The source's loop over one word's characters. */
  method SubstituteWord(word: string, args: seq<string>, used: array<bool>)
    returns (r: Result<string, nat>)
    requires used.Length == PLACEHOLDERS
    modifies used
    ensures var slots := Slots(word);
            match FirstMissing(slots, |args|)
            case Some(i) => r == Err(i + 1)
            case None => r == Ok(Rendered(slots, args)) && UsedSet(used) == old(UsedSet(used)) + Named(slots)
  {
    hide Slots, Named, UsedSet, FirstMissing, Rendered;
    var rendered := "";
    var j := 0;
    assert word[0..] == word;
    while j < |word|
      invariant 0 <= j <= |word|
      invariant FirstMissing(Slots(word), |args|) == FirstMissing(Slots(word[j..]), |args|)
      invariant rendered + Rendered(Slots(word[j..]), args) == Rendered(Slots(word), args)
      invariant UsedSet(used) + Named(Slots(word[j..])) == old(UsedSet(used)) + Named(Slots(word))
    {
      SlotsStep(word, j);
      SlotMeans(Slots(word[j..]), args);
      ghost var after := Rendered(Slots(word[j..])[1..], args);
      if IsPlaceholder(word, j) {
        var idx := ArgIndex(word[j + 1]);
        if idx >= |args| {
          return Err(idx + 1);
        }
        Mark(used, idx);
        assert rendered + (args[idx] + after) == (rendered + args[idx]) + after;
        rendered := rendered + args[idx];
        j := j + 2;
      } else {
        assert rendered + ([word[j]] + after) == (rendered + [word[j]]) + after;
        rendered := rendered + [word[j]];
        j := j + 1;
      }
    }
    SlotsOfNothing(word[j..], args);
    assert rendered + "" == rendered;
    return Ok(rendered);
  }

  /** The source's loop over the words, and the filter that collects what is left. */
  method Substitute(words: seq<string>, args: seq<string>)
    returns (r: Result<(seq<string>, seq<string>), nat>)
    ensures r == Substituted(words, args)
  {
    hide Slots, Named, Rendered, FirstMissing, Unnamed, FirstMissingIn, RenderedWords, NamedIn;
    var used := new bool[PLACEHOLDERS](_ => false);
    assert UsedSet(used) == {};
    hide UsedSet;
    var out: seq<string> := [];
    var k := 0;
    assert words[0..] == words;
    while k < |words|
      invariant 0 <= k <= |words|
      invariant FirstMissingIn(words, |args|) == FirstMissingIn(words[k..], |args|)
      invariant out + RenderedWords(words[k..], args) == RenderedWords(words, args)
      invariant UsedSet(used) + NamedIn(words[k..]) == NamedIn(words)
    {
      WordsStep(words, args, k);
      var rendered := SubstituteWord(words[k], args, used);
      if rendered.Err? {
        return Err(rendered.error);
      }
      out := out + [rendered.value];
      k := k + 1;
    }
    NoWords(words[k..], args);
    assert out + [] == out && UsedSet(used) + {} == UsedSet(used);
    return Ok((out, Unnamed(args, UsedSet(used), 0)));
  }

  lemma WordsStep(words: seq<string>, args: seq<string>, k: nat)
    requires k < |words|
    ensures var slots, here, next := Slots(words[k]), words[k..], words[k + 1..];
            && FirstMissingIn(here, |args|)
               == (if FirstMissing(slots, |args|).Some? then FirstMissing(slots, |args|) else FirstMissingIn(next, |args|))
            && RenderedWords(here, args) == [Rendered(slots, args)] + RenderedWords(next, args)
            && NamedIn(here) == Named(slots) + NamedIn(next)
  {
    hide Slots, Named, Rendered, FirstMissing;
    assert words[k..][0] == words[k] && words[k..][1..] == words[k + 1..];
  }

  lemma NoWords(words: seq<string>, args: seq<string>)
    requires words == []
    ensures FirstMissingIn(words, |args|) == None && RenderedWords(words, args) == [] && NamedIn(words) == {}
  {
  }

  lemma SlotsOfNothing(word: string, args: seq<string>)
    requires word == ""
    ensures Slots(word) == [] && Named(Slots(word)) == {}
    ensures FirstMissing(Slots(word), |args|) == None && Rendered(Slots(word), args) == ""
  {
  }

  lemma SlotsStep(word: string, j: nat)
    requires j < |word|
    ensures var here, next := Slots(word[j..]), if IsPlaceholder(word, j) then j + 2 else j + 1;
            && here != [] && here[1..] == Slots(word[next..])
            && here[0] == (if IsPlaceholder(word, j) then Arg(ArgIndex(word[j + 1])) else Ch(word[j]))
            && Named(here) == Named(here[1..]) + (if here[0].Arg? then {here[0].i} else {})
  {
    var rest := word[j..];
    assert rest[1..] == word[j + 1..];
    if IsPlaceholder(word, j) {
      assert rest[1] == word[j + 1] && rest[2..] == word[j + 2..];
    }
    var here := Slots(rest);
    assert forall s :: s in here <==> s == here[0] || s in here[1..];
  }

  /** What the first slot means for the rendering and for what is missing. */
  lemma SlotMeans(slots: seq<Slot>, args: seq<string>)
    requires slots != []
    ensures FirstMissing(slots, |args|)
            == if slots[0].Arg? && slots[0].i >= |args| then Some(slots[0].i) else FirstMissing(slots[1..], |args|)
    ensures slots[0].Ch? ==> Rendered(slots, args) == [slots[0].c] + Rendered(slots[1..], args)
    ensures slots[0].Arg? && slots[0].i < |args| ==>
              Rendered(slots, args) == args[slots[0].i] + Rendered(slots[1..], args)
  {
  }

  // ------------------------------------------------------------------ facts about slots

  /** Text without a placeholder renders to itself. */
  lemma {:induction false} PlainRendersAsIs(word: string, args: seq<string>)
    requires Named(Slots(word)) == {}
    ensures Rendered(Slots(word), args) == word
    decreases |word|
  {
    if word != "" {
      SlotsStep(word, 0);
      assert word[0..] == word;
      if IsPlaceholder(word, 0) {
        assert false;
      }
      PlainRendersAsIs(word[1..], args);
    }
  }

  // ------------------------------------------------- what a placeholder means, by its text

  const DIGITS: string := "123456789"

  /** The placeholder for the `k`-th argument, counted from zero. */
  function Placeholder(k: nat): string
    requires k < |DIGITS|
  {
    ['$', DIGITS[k]]
  }

  /** Somewhere in the text a `$` stands before one of the nine digits. */
  predicate HoldsPlaceholder(text: string) {
    exists i :: 0 <= i < |text| - 1 && text[i] == '$' && text[i + 1] in DIGITS
  }

  lemma {:induction false} SlotsApart(a: string, b: string)
    requires a == "" || a[|a| - 1] != '$' || b == "" || b[0] !in DIGITS
    ensures Slots(a + b) == Slots(a) + Slots(b)
    decreases |a|
  {
    var all := a + b;
    if a == "" {
      assert all == b;
    } else if IsPlaceholder(a, 0) {
      assert all[2..] == a[2..] + b && all[1] == a[1];
      SlotsApart(a[2..], b);
    } else {
      assert all[1..] == a[1..] + b;
      assert |a| > 1 ==> all[1] == a[1];
      SlotsApart(a[1..], b);
    }
  }

  lemma SlotsAround(before: string, k: nat, after: string)
    requires k < |DIGITS|
    ensures Slots(before + Placeholder(k) + after) == Slots(before) + [Arg(k)] + Slots(after)
  {
    var text := Placeholder(k);
    assert before + text + after == before + (text + after);
    SlotsApart(before, text + after);
    assert (text + after)[2..] == after && ArgIndex(DIGITS[k]) == k;
  }

  lemma {:induction false} RenderedAppend(a: seq<Slot>, b: seq<Slot>, args: seq<string>)
    ensures Rendered(a + b, args) == Rendered(a, args) + Rendered(b, args)
    ensures FirstMissing(a + b, |args|)
            == if FirstMissing(a, |args|).Some? then FirstMissing(a, |args|) else FirstMissing(b, |args|)
  {
    if a == [] {
      assert a + b == b;
    } else {
      assert (a + b)[0] == a[0] && (a + b)[1..] == a[1..] + b;
      RenderedAppend(a[1..], b, args);
    }
  }

  lemma NamedAppend(a: seq<Slot>, i: nat, b: seq<Slot>)
    ensures Named(a + [Arg(i)] + b) == Named(a) + {i} + Named(b)
  {
    var all := a + [Arg(i)] + b;
    assert forall s :: s in all <==> s in a || s == Arg(i) || s in b;
    assert Arg(i) in all;
  }

  lemma OneWord(word: string, args: seq<string>)
    ensures NamedIn([word]) == Named(Slots(word)) && FirstMissingIn([word], |args|) == FirstMissing(Slots(word), |args|)
    ensures RenderedWords([word], args) == [Rendered(Slots(word), args)]
  {
    hide Slots, Named, FirstMissing, Rendered;
    assert [word][1..] == [];
  }

  lemma OneWordMeans(word: string, args: seq<string>)
    ensures NamedIn([word]) == Named(Slots(word))
    ensures Substituted([word], args)
            == var missing := FirstMissing(Slots(word), |args|);
               if missing.Some? then Err(missing.value + 1)
               else Ok(([Rendered(Slots(word), args)], Unnamed(args, Named(Slots(word)), 0)))
  {
    hide Slots, Named, FirstMissing, Rendered, Unnamed, RenderedWords, FirstMissingIn, NamedIn;
    OneWord(word, args);
  }

  /**
   `$1` is the first argument and `$9` the ninth, wherever it stands: what is before it renders
   as it would alone, then comes the argument, then what is after it. The argument is named
   besides those the rest names. A missing one is reported under its own number, unless
   something before it is missing already.
   */
  lemma PlaceholderMeans(before: string, k: nat, after: string, args: seq<string>)
    requires k < |DIGITS|
    ensures var word := before + ['$', DIGITS[k]] + after;
            var (l, r, all) := (Substituted([before], args), Substituted([after], args), Substituted([word], args));
            && NamedIn([word]) == NamedIn([before]) + {k} + NamedIn([after])
            && (l.Err? ==> all == l)
            && (l.Ok? && k >= |args| ==> all == Err(k + 1))
            && (l.Ok? && k < |args| && r.Err? ==> all == r)
            && (l.Ok? && k < |args| && r.Ok? ==>
                  all == Ok(([l.value.0[0] + args[k] + r.value.0[0]],
                             Unnamed(args, NamedIn([before]) + {k} + NamedIn([after]), 0))))
  {
    var word := before + Placeholder(k) + after;
    SlotsAround(before, k, after);
    hide DIGITS;
    AroundMeans(word, before, k, after, args);
  }

  lemma AroundMeans(word: string, before: string, k: nat, after: string, args: seq<string>)
    requires Slots(word) == Slots(before) + [Arg(k)] + Slots(after)
    ensures var (l, r, all) := (Substituted([before], args), Substituted([after], args), Substituted([word], args));
            && NamedIn([word]) == NamedIn([before]) + {k} + NamedIn([after])
            && (l.Err? ==> all == l)
            && (l.Ok? && k >= |args| ==> all == Err(k + 1))
            && (l.Ok? && k < |args| && r.Err? ==> all == r)
            && (l.Ok? && k < |args| && r.Ok? ==>
                  all == Ok(([l.value.0[0] + args[k] + r.value.0[0]],
                             Unnamed(args, NamedIn([before]) + {k} + NamedIn([after]), 0))))
  {
    OneWordMeans(word, args);
    OneWordMeans(before, args);
    OneWordMeans(after, args);
    hide Slots, Named, Rendered, FirstMissing, Unnamed, NamedIn, Substituted;
    var a, b := Slots(before), Slots(after);
    NamedAppend(a, k, b);
    RenderedAppend(a + [Arg(k)], b, args);
    RenderedAppend(a, [Arg(k)], args);
    OneArgument(k, args);
  }

  lemma OneArgument(k: nat, args: seq<string>)
    ensures k < |args| ==> Rendered([Arg(k)], args) == args[k]
    ensures FirstMissing([Arg(k)], |args|) == if k < |args| then None else Some(k)
  {
    assert [Arg(k)][1..] == [];
    assert k < |args| ==> args[k] + "" == args[k];
  }

  lemma HoldsFurtherOn(text: string)
    requires text != ""
    ensures HoldsPlaceholder(text[1..]) ==> HoldsPlaceholder(text)
  {
    if HoldsPlaceholder(text[1..]) {
      var i :| 0 <= i < |text| - 2 && text[1..][i] == '$' && text[1..][i + 1] in DIGITS;
      assert text[i + 1] == '$' && text[i + 2] in DIGITS;
    }
  }

  lemma {:induction false} NoPlaceholderNoSlot(text: string)
    requires !HoldsPlaceholder(text)
    ensures Named(Slots(text)) == {}
    decreases |text|
  {
    if text != "" {
      SlotsStep(text, 0);
      assert text[0..] == text && !IsPlaceholder(text, 0);
      HoldsFurtherOn(text);
      NoPlaceholderNoSlot(text[1..]);
    }
  }

  /** Text in which no `$` stands before one of the nine digits is left as it is, with any arguments. */
  lemma PlainTextMeans(text: string, args: seq<string>)
    requires !HoldsPlaceholder(text)
    ensures Substituted([text], args) == Ok(([text], args)) && NamedIn([text]) == {}
  {
    NoPlaceholderNoSlot(text);
    PlainRendersAsIs(text, args);
    SlotDemandExact(Slots(text), |args|);
    OneWord(text, args);
    UnnamedOfNothing(args, 0);
  }

  /** One placeholder in plain text: the argument takes its place, and the others are left, in order. */
  lemma OnePlaceholderMeans(before: string, k: nat, after: string, args: seq<string>)
    requires k < |DIGITS| && !HoldsPlaceholder(before) && !HoldsPlaceholder(after)
    ensures Substituted([before + ['$', DIGITS[k]] + after], args)
            == if k < |args| then Ok(([before + args[k] + after], args[..k] + args[k + 1..])) else Err(k + 1)
  {
    PlaceholderMeans(before, k, after, args);
    PlainTextMeans(before, args);
    PlainTextMeans(after, args);
    if k < |args| {
      assert {} + {k} + {} == {k};
      UnnamedOfOne(args, k, 0);
    }
  }

  lemma {:induction false} UnnamedOfOne<T>(xs: seq<T>, k: nat, from: nat)
    requires from <= k < from + |xs|
    ensures Unnamed(xs, {k}, from) == xs[..k - from] + xs[k - from + 1..]
  {
    if from == k {
      UnnamedBehind(xs[1..], {k}, from + 1);
    } else {
      UnnamedOfOne(xs[1..], k, from + 1);
      assert xs == [xs[0]] + xs[1..];
    }
  }

  lemma {:induction false} UnnamedBehind<T>(xs: seq<T>, named: set<nat>, from: nat)
    requires forall i | i in named :: i < from
    ensures Unnamed(xs, named, from) == xs
  {
    if xs != [] {
      UnnamedBehind(xs[1..], named, from + 1);
    }
  }

  /** A word without placeholders in front of others stays there, and they are read as without it. */
  lemma PlainWordInFront(first: string, rest: seq<string>, args: seq<string>)
    requires !HoldsPlaceholder(first)
    ensures var r := Substituted(rest, args);
            Substituted([first] + rest, args) == if r.Err? then r else Ok(([first] + r.value.0, r.value.1))
  {
    NoPlaceholderNoSlot(first);
    PlainRendersAsIs(first, args);
    SlotDemandExact(Slots(first), |args|);
    hide Slots, Named, FirstMissing, Rendered, Unnamed, HoldsPlaceholder, SlotDemand;
    var words := [first] + rest;
    assert words[1..] == rest && {} + NamedIn(rest) == NamedIn(rest);
  }

  /** Several words: each is read on its own, and an argument is left over if none of them names it. */
  lemma {:induction false} WordsMean(words: seq<string>, args: seq<string>)
    ensures Substituted(words, args).Ok? <==> forall w | w in words :: Substituted([w], args).Ok?
    ensures Substituted(words, args).Ok? ==>
              var (rendered, left) := Substituted(words, args).value;
              && |rendered| == |words| && left == Unnamed(args, NamedIn(words), 0)
              && forall j | 0 <= j < |words| :: Substituted([words[j]], args).value.0 == [rendered[j]]
    ensures forall i :: i in NamedIn(words) <==> exists w :: w in words && i in NamedIn([w])
  {
    if words != [] {
      var first, rest := words[0], words[1..];
      WordsMean(rest, args);
      OneWord(first, args);
      hide Slots, Named, FirstMissing, Rendered, Unnamed;
      assert words == [first] + rest;
      forall j | 0 <= j < |words| ensures FirstMissingIn(words, |args|).None? ==>
        Substituted([words[j]], args).value.0 == [RenderedWords(words, args)[j]]
      {
        if j > 0 {
          assert words[j] == rest[j - 1] && words[j] in rest;
        }
      }
    }
  }

  ghost predicate Contains(whole: string, part: string) {
    exists before, after :: whole == before + part + after
  }

  lemma ContainsTransitive(a: string, b: string, c: string)
    requires Contains(a, b) && Contains(b, c)
    ensures Contains(a, c)
  {
    var l, r :| a == l + b + r;
    var l', r' :| b == l' + c + r';
    assert a == (l + l') + c + (r' + r);
  }

  lemma ContainsItself(a: string)
    ensures Contains(a, a)
  {
    assert a == "" + a + "";
  }

  /** An argument a word names is a contiguous part of that word, rendered. */
  lemma {:induction false} RenderedContains(slots: seq<Slot>, args: seq<string>, i: nat)
    requires i in Named(slots) && i < |args|
    ensures Contains(Rendered(slots, args), args[i])
  {
    var rest := Rendered(slots[1..], args);
    var whole := Rendered(slots, args);
    if slots[0] == Arg(i) {
      assert whole == "" + args[i] + rest;
    } else {
      assert Arg(i) in slots[1..];
      RenderedContains(slots[1..], args, i);
      ContainsItself(rest);
      var first := whole[..|whole| - |rest|];
      assert whole == first + rest + "";
      ContainsTransitive(whole, rest, args[i]);
    }
  }

  lemma {:induction false} SomeWordContains(words: seq<string>, args: seq<string>, i: nat) returns (j: nat)
    requires i in NamedIn(words) && i < |args|
    ensures j < |words| && i in Named(Slots(words[j]))
    ensures Contains(RenderedWords(words, args)[j], args[i])
  {
    if i in Named(Slots(words[0])) {
      j := 0;
      RenderedContains(Slots(words[0]), args, i);
    } else {
      j := SomeWordContains(words[1..], args, i);
      j := j + 1;
    }
  }

  /** How many arguments a word list asks for: one more than the largest index it names. */
  function Demand(words: seq<string>): nat {
    if words == [] then 0 else Max(SlotDemand(Slots(words[0])), Demand(words[1..]))
  }

  function SlotDemand(slots: seq<Slot>): nat {
    if slots == [] then 0
    else Max(if slots[0].Arg? then slots[0].i + 1 else 0, SlotDemand(slots[1..]))
  }

  function Max(a: int, b: int): int {
    if a < b then b else a
  }

  predicate AllBelow(named: set<nat>, bound: nat) {
    forall i | i in named :: i < bound
  }

  lemma {:induction false} SlotDemandExact(slots: seq<Slot>, count: nat)
    ensures FirstMissing(slots, count).None? <==> SlotDemand(slots) <= count
    ensures SlotDemand(slots) <= count <==> AllBelow(Named(slots), count)
  {
    if slots != [] {
      SlotDemandExact(slots[1..], count);
      assert forall s :: s in slots <==> s == slots[0] || s in slots[1..];
      assert Named(slots) == Named(slots[1..]) + if slots[0].Arg? then {slots[0].i} else {};
    }
  }

  /** Substitution fails exactly when fewer arguments are given than the words ask for. */
  lemma {:induction false} DemandExact(words: seq<string>, count: nat)
    ensures FirstMissingIn(words, count).None? <==> Demand(words) <= count
    ensures Demand(words) <= count <==> AllBelow(NamedIn(words), count)
  {
    if words != [] {
      SlotDemandExact(Slots(words[0]), count);
      DemandExact(words[1..], count);
    }
  }

  // ----------------------------------------------------------------- facts about Unnamed

  lemma {:induction false} UnnamedAppend<T>(a: seq<T>, b: seq<T>, named: set<nat>, from: nat)
    ensures Unnamed(a + b, named, from) == Unnamed(a, named, from) + Unnamed(b, named, from + |a|)
  {
    if a == [] {
      assert a + b == b;
    } else {
      assert (a + b)[1..] == a[1..] + b;
      UnnamedAppend(a[1..], b, named, from + 1);
    }
  }

  lemma {:induction false} UnnamedOfNothing<T>(xs: seq<T>, from: nat)
    ensures Unnamed(xs, {}, from) == xs
  {
    if xs != [] {
      UnnamedOfNothing(xs[1..], from + 1);
    }
  }

  /** An element is dropped exactly when its position is named. */
  lemma {:induction false} UnnamedKeeps<T>(xs: seq<T>, named: set<nat>, from: nat, j: nat)
    requires j < |xs| && from + j !in named
    ensures xs[j] in Unnamed(xs, named, from)
  {
    if j > 0 {
      UnnamedKeeps(xs[1..], named, from + 1, j - 1);
      assert xs[1..][j - 1] == xs[j];
    }
  }

  function Between(named: set<nat>, lo: nat, hi: nat): set<nat> {
    set i | i in named && lo <= i < hi
  }

  lemma {:induction false} UnnamedLength<T>(xs: seq<T>, named: set<nat>, from: nat)
    ensures |Unnamed(xs, named, from)| + |Between(named, from, from + |xs|)| == |xs|
  {
    if xs == [] {
      assert Between(named, from, from) == {};
    } else {
      UnnamedLength(xs[1..], named, from + 1);
      var rest := Between(named, from + 1, from + |xs|);
      assert Between(named, from, from + |xs|) == rest + if from in named then {from} else {};
      assert from !in rest;
    }
  }
}
