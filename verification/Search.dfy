/**
 `gea raw search`: which operations match a list of words, and in which order they are shown.
 */
module Search {
  import opened Wrappers
  import opened Ordering
  import Text
  import Lookup

  datatype Op = Op(group: string, command: string, summary: string, path: string)

  datatype Hit = Hit(op: Op, score: nat)

  // -------------------------------------------------------------------------- matching

  function Lower(c: char): char {
    if 'A' <= c <= 'Z' then ((c as int) + 32) as char else c
  }

  function Normal(c: char): char {
    if c in "-_/{}." then ' ' else Lower(c)
  }

  function Normalize(s: string): (r: string)
  {
    if s == "" then "" else [Normal(s[0])] + Normalize(s[1..])
  }

  predicate Blank(s: string) {
    forall c | c in s :: Text.IsSpace(c)
  }

  predicate StartsAt(hay: string, needle: string, i: nat) {
    i + |needle| <= |hay| && hay[i..i + |needle|] == needle
  }

  /** The first place where `needle` stands in `hay`, from `i` on. */
  function FindFrom(hay: string, needle: string, i: nat): (at: Option<nat>)
    ensures at.Some? ==> i <= at.value && StartsAt(hay, needle, at.value)
    decreases |hay| - i
  {
    if StartsAt(hay, needle, i) then Some(i) else if i < |hay| then FindFrom(hay, needle, i + 1) else None
  }

  /** Greedily: each character of `needle` takes the first one left in `hay`. */
  function Greedy(hay: string, needle: string): bool
    decreases |hay|
  {
    if needle == "" then true
    else if hay == "" then false
    else if hay[0] == needle[0] then Greedy(hay[1..], needle[1..])
    else Greedy(hay[1..], needle)
  }

  /** `is_subsequence`: one pass over `hay`, consumed as the characters of `needle` are found. */
  method IsSubsequence(hay: string, needle: string) returns (found: bool)
    ensures found == Greedy(hay, needle)
  {
    var at := 0;
    assert hay[0..] == hay && needle[0..] == needle;
    for n := 0 to |needle|
      invariant at <= |hay| && Greedy(hay, needle) == Greedy(hay[at..], needle[n..])
    {
      assert needle[n..][0] == needle[n] && needle[n..][1..] == needle[n + 1..];
      while at < |hay| && hay[at] != needle[n]
        invariant at <= |hay| && Greedy(hay, needle) == Greedy(hay[at..], needle[n..])
      {
        assert hay[at..][0] == hay[at] && hay[at..][1..] == hay[at + 1..];
        at := at + 1;
      }
      if at == |hay| {
        return false;
      }
      assert hay[at..][0] == hay[at] && hay[at..][1..] == hay[at + 1..];
      at := at + 1;
    }
    found := true;
  }

  /** Increasing positions in `hay`, from `from` on. */
  predicate Increasing(at: seq<nat>, from: nat, size: nat) {
    (forall i | 0 <= i < |at| :: from <= at[i] < size) && (forall i, j | 0 <= i < j < |at| :: at[i] < at[j])
  }

  /** `needle` can be read in `hay` at these positions. */
  predicate ReadsAt(hay: string, needle: string, at: seq<nat>) {
    Increasing(at, 0, |hay|) && |at| == |needle| && forall i | 0 <= i < |at| :: hay[at[i]] == needle[i]
  }

  ghost predicate Embeds(hay: string, needle: string) {
    exists at :: ReadsAt(hay, needle, at)
  }

  function Shifted(at: seq<nat>): (r: seq<nat>)
  {
    seq(|at|, i requires 0 <= i < |at| => at[i] + 1)
  }

  lemma {:induction false} GreedyReads(hay: string, needle: string) returns (at: seq<nat>)
    requires Greedy(hay, needle)
    ensures ReadsAt(hay, needle, at)
    decreases |hay|
  {
    if needle == "" {
      at := [];
    } else if hay[0] == needle[0] {
      var rest := GreedyReads(hay[1..], needle[1..]);
      at := [0] + Shifted(rest);
      assert forall i | 0 < i < |at| :: at[i] == rest[i - 1] + 1;
    } else {
      var rest := GreedyReads(hay[1..], needle);
      at := Shifted(rest);
    }
  }

  /** Taking the first match never loses one. */
  lemma {:induction false} ReadsGreedily(hay: string, needle: string, at: seq<nat>)
    requires ReadsAt(hay, needle, at)
    ensures Greedy(hay, needle)
    decreases |hay|
  {
    if needle != "" {
      assert at[0] < |hay|;
      if hay[0] == needle[0] {
        var rest := Unshifted(at[1..], 0);
        ReadsGreedily(hay[1..], needle[1..], rest);
      } else {
        assert forall i | 0 < i < |at| :: at[0] < at[i];
        ReadsGreedily(hay[1..], needle, Unshifted(at, 0));
      }
    }
  }

  function Unshifted(at: seq<nat>, low: nat): (r: seq<nat>)
    requires forall i | 0 <= i < |at| :: low < at[i]
  {
    seq(|at|, i requires 0 <= i < |at| => (at[i] - 1) as nat)
  }

  /** The greedy scan is complete: it finds a subsequence whenever there is one. */
  lemma GreedyIsComplete(hay: string, needle: string)
    ensures Greedy(hay, needle) <==> Embeds(hay, needle)
  {
    if Greedy(hay, needle) {
      var at := GreedyReads(hay, needle);
    }
    if at :| ReadsAt(hay, needle, at) {
      ReadsGreedily(hay, needle, at);
    }
  }

  lemma SubstringEmbeds(hay: string, needle: string, i: nat)
    requires StartsAt(hay, needle, i)
    ensures Embeds(hay, needle)
  {
    var at: seq<nat> := seq(|needle|, k requires 0 <= k < |needle| => i + k);
    forall k | 0 <= k < |at| ensures hay[at[k]] == needle[k] {
      assert hay[i..i + |needle|][k] == hay[i + k];
    }
    assert ReadsAt(hay, needle, at);
  }

  // ---------------------------------------------------------------------------- scoring

  function Score(hay: string, needle: string, weight: nat): nat {
    match FindFrom(hay, needle, 0)
    case Some(at) =>
      if at == 0 then weight * 6 else if hay[at - 1] == ' ' then weight * 5 else weight * 4
    case None => if Greedy(hay, needle) then weight else 0
  }

  lemma ScoresExactly(hay: string, needle: string, weight: nat)
    requires weight > 0
    ensures Score(hay, needle, weight) > 0 <==> Embeds(hay, needle)
  {
    GreedyIsComplete(hay, needle);
    match FindFrom(hay, needle, 0)
    case Some(at) =>
      SubstringEmbeds(hay, needle, at);
    case None =>
  }

  predicate FirstAt(hay: string, needle: string, i: nat) {
    StartsAt(hay, needle, i) && forall j: nat | j < i :: !StartsAt(hay, needle, j)
  }

  lemma {:induction false} FindFromIsFirst(hay: string, needle: string, i: nat)
    requires forall j: nat | j < i :: !StartsAt(hay, needle, j)
    ensures match FindFrom(hay, needle, i)
            case Some(at) => FirstAt(hay, needle, at)
            case None => forall j: nat :: !StartsAt(hay, needle, j)
    decreases |hay| - i
  {
    if !StartsAt(hay, needle, i) && i < |hay| {
      FindFromIsFirst(hay, needle, i + 1);
    }
  }

  predicate Stands(hay: string, needle: string) {
    exists i | 0 <= i <= |hay| :: StartsAt(hay, needle, i)
  }

  /** The first occurrence, which is the one that counts, begins a word other than the first. */
  predicate BeginsWord(hay: string, needle: string) {
    exists i | 0 < i <= |hay| :: FirstAt(hay, needle, i) && hay[i - 1] == ' '
  }

  /** The tiers of a match: at the very start, at a word, in the middle, and scattered. */
  datatype Tier = Front | AtWord | Inside | Scattered | Nowhere

  function TierOf(hay: string, needle: string): Tier {
    if StartsAt(hay, needle, 0) then Front
    else if BeginsWord(hay, needle) then AtWord
    else if Stands(hay, needle) then Inside
    else if Greedy(hay, needle) then Scattered
    else Nowhere
  }

  function Rank(t: Tier): nat {
    match t case Front => 4 case AtWord => 3 case Inside => 2 case Scattered => 1 case Nowhere => 0
  }

  /** In one field a better tier always scores more, and a substring at least four times a scattered match. */
  lemma BetterTiersScoreMore(hay: string, other: string, needle: string, weight: nat)
    requires weight > 0
    ensures Score(hay, needle, weight) > Score(other, needle, weight)
            <==> Rank(TierOf(hay, needle)) > Rank(TierOf(other, needle))
    ensures Stands(hay, needle) && !Stands(other, needle)
            ==> Score(hay, needle, weight) >= 4 * Score(other, needle, weight)
  {
    TierScores(hay, needle, weight);
    TierScores(other, needle, weight);
  }

  lemma TierScores(hay: string, needle: string, weight: nat)
    ensures Score(hay, needle, weight) == weight * (match TierOf(hay, needle)
                                                    case Front => 6 case AtWord => 5 case Inside => 4
                                                    case Scattered => 1 case Nowhere => 0)
    ensures Stands(hay, needle) <==> Rank(TierOf(hay, needle)) >= 2
  {
    hide Greedy;
    FindFromIsFirst(hay, needle, 0);
    match FindFrom(hay, needle, 0)
    case Some(at) =>
      assert FirstAt(hay, needle, at);
      forall i: nat | FirstAt(hay, needle, i) ensures i == at {
      }
    case None =>
      forall i: nat ensures !StartsAt(hay, needle, i) {
      }
  }

  function Fields(op: Op): seq<(string, nat)> {
    [(Normalize(op.command), 6), (Normalize(op.group), 3), (Normalize(op.summary), 3), (Normalize(op.path), 2)]
  }

  function Max(a: nat, b: nat): nat {
    if a < b then b else a
  }

  function BestOf(fields: seq<(string, nat)>, needle: string): nat {
    if fields == [] then 0 else Max(Score(fields[0].0, needle, fields[0].1), BestOf(fields[1..], needle))
  }

  function Best(op: Op, needle: string): nat {
    BestOf(Fields(op), needle)
  }

  ghost predicate FoundIn(fields: seq<(string, nat)>, needle: string) {
    exists f | f in fields :: Embeds(f.0, needle)
  }

  lemma {:induction false} BestOfExactly(fields: seq<(string, nat)>, needle: string)
    requires forall f | f in fields :: f.1 > 0
    ensures BestOf(fields, needle) > 0 <==> FoundIn(fields, needle)
  {
    hide Score, Embeds;
    if fields != [] {
      ScoresExactly(fields[0].0, needle, fields[0].1);
      BestOfExactly(fields[1..], needle);
      assert fields == [fields[0]] + fields[1..];
    }
  }

  /** Every needle can be read in some field of the operation. */
  ghost predicate Matches(op: Op, needles: seq<string>) {
    forall n | n in needles :: FoundIn(Fields(op), n)
  }

  function Total(op: Op, needles: seq<string>): nat {
    if needles == [] then 0 else Best(op, needles[0]) + Total(op, needles[1..])
  }

  lemma BestExactly(op: Op, needle: string)
    ensures Best(op, needle) > 0 <==> FoundIn(Fields(op), needle)
  {
    BestOfExactly(Fields(op), needle);
  }

  function Needles(terms: seq<string>): seq<string> {
    if terms == [] then []
    else (if Blank(Normalize(terms[0])) then [] else [Normalize(terms[0])]) + Needles(terms[1..])
  }

  // ---------------------------------------------------------------------------- ranking

  ghost function Hits(ops: seq<Op>, needles: seq<string>): seq<Hit> {
    if ops == [] then []
    else
      (if Matches(ops[0], needles) then [Hit(ops[0], Total(ops[0], needles))] else []) + Hits(ops[1..], needles)
  }

  predicate KeyBelow(a: Op, b: Op) {
    Lookup.KeyBelow(a.group, a.command, b.group, b.command)
  }

  predicate Ahead(a: Hit, b: Hit) {
    a.score > b.score || (a.score == b.score && KeyBelow(a.op, b.op))
  }

  function Placed(sorted: seq<Hit>, h: Hit): (r: seq<Hit>)
    ensures |r| == |sorted| + 1
  {
    if sorted == [] || !Ahead(sorted[0], h) then [h] + sorted else [sorted[0]] + Placed(sorted[1..], h)
  }

  /** The stable sort of the standard library. */
  function Ranked(hits: seq<Hit>): (r: seq<Hit>)
  {
    if hits == [] then [] else Placed(Ranked(hits[1..]), hits[0])
  }

  function Truncated(hits: seq<Hit>, limit: nat): seq<Hit> {
    if |hits| <= limit then hits else hits[..limit]
  }

  /** What a search shows. */
  ghost function Shown(ops: seq<Op>, terms: seq<string>, limit: nat): seq<Hit> {
    if Needles(terms) == [] then [] else Truncated(Ranked(Hits(ops, Needles(terms))), limit)
  }

  predicate AllPositive(op: Op, needles: seq<string>) {
    forall n | n in needles :: Best(op, n) > 0
  }

  lemma PositiveExactly(op: Op, needles: seq<string>)
    ensures AllPositive(op, needles) <==> Matches(op, needles)
  {
    hide Best, FoundIn;
    forall n ensures Best(op, n) > 0 <==> FoundIn(Fields(op), n) {
      BestExactly(op, n);
    }
  }

  lemma {:induction false} TotalSnoc(op: Op, needles: seq<string>, n: string)
    ensures Total(op, needles + [n]) == Total(op, needles) + Best(op, n)
  {
    hide Best;
    if needles == [] {
      assert (needles + [n])[1..] == [];
    } else {
      assert (needles + [n])[1..] == needles[1..] + [n];
      TotalSnoc(op, needles[1..], n);
    }
  }

  lemma {:induction false} HitsSnoc(ops: seq<Op>, op: Op, needles: seq<string>)
    ensures Hits(ops + [op], needles)
            == Hits(ops, needles) + if Matches(op, needles) then [Hit(op, Total(op, needles))] else []
  {
    hide Matches, Total;
    if ops == [] {
      assert (ops + [op])[1..] == [];
    } else {
      var all, rest := ops + [op], ops[1..];
      HitsSnoc(rest, op, needles);
      assert all[0] == ops[0] && all[1..] == rest + [op];
      var first := if Matches(ops[0], needles) then [Hit(ops[0], Total(ops[0], needles))] else [];
      assert Hits(all, needles) == first + Hits(rest + [op], needles);
      assert Hits(ops, needles) == first + Hits(rest, needles);
      hide Hits;
      var last := if Matches(op, needles) then [Hit(op, Total(op, needles))] else [];
      Text.Associate(first, Hits(rest, needles), last);
    }
  }

  /** One operation against all needles: given up at the first that is found nowhere. */
  method ScoreOne(op: Op, needles: seq<string>) returns (hit: Option<Hit>)
    ensures hit == if Matches(op, needles) then Some(Hit(op, Total(op, needles))) else None
  {
    hide Best, Matches;
    PositiveExactly(op, needles);
    var total := 0;
    for i := 0 to |needles|
      invariant total == Total(op, needles[..i]) && AllPositive(op, needles[..i])
    {
      var best := Best(op, needles[i]);
      if best == 0 {
        return None;
      }
      TotalSnoc(op, needles[..i], needles[i]);
      assert needles[..i + 1] == needles[..i] + [needles[i]];
      total := total + best;
    }
    assert needles[..|needles|] == needles;
    hit := Some(Hit(op, total));
  }

  method Search(ops: seq<Op>, terms: seq<string>, limit: nat) returns (hits: seq<Hit>)
    ensures hits == Shown(ops, terms, limit)
  {
    hide Matches, Total, Ranked;
    var needles := Needles(terms);
    if needles == [] {
      return [];
    }
    hits := [];
    for i := 0 to |ops|
      invariant hits == Hits(ops[..i], needles)
    {
      var hit := ScoreOne(ops[i], needles);
      HitsSnoc(ops[..i], ops[i], needles);
      assert ops[..i + 1] == ops[..i] + [ops[i]];
      if hit.Some? {
        hits := hits + [hit.value];
      }
    }
    assert ops[..|ops|] == ops;
    hits := Truncated(Ranked(hits), limit);
  }

  // ------------------------------------------------------------------ the order of hits

  lemma AheadTransitive(a: Hit, b: Hit, c: Hit)
    requires Ahead(a, b) && Ahead(b, c)
    ensures Ahead(a, c)
  {
    if a.score == b.score == c.score {
      Lookup.KeyBelowTransitive(a.op.group, a.op.command, b.op.group, b.op.command, c.op.group, c.op.command);
    }
  }

  lemma AheadIrreflexive(a: Hit)
    ensures !Ahead(a, a)
  {
    Lookup.KeyBelowIrreflexive(a.op.group, a.op.command);
  }

  predicate SameKey(a: Op, b: Op) {
    a.group == b.group && a.command == b.command
  }

  lemma AheadTotal(a: Hit, b: Hit)
    ensures Ahead(a, b) || Ahead(b, a) || (SameKey(a.op, b.op) && a.score == b.score)
  {
    Lookup.KeyBelowTotal(a.op.group, a.op.command, b.op.group, b.op.command);
  }

  /** Nobody stands behind a hit that should stand behind it. */
  predicate InOrder(hits: seq<Hit>) {
    forall i, j | 0 <= i < j < |hits| :: !Ahead(hits[j], hits[i])
  }

  predicate Strict(hits: seq<Hit>) {
    forall i, j | 0 <= i < j < |hits| :: Ahead(hits[i], hits[j])
  }

  lemma {:induction false} PlacedIs(sorted: seq<Hit>, h: Hit) returns (k: nat)
    ensures k <= |sorted| && Placed(sorted, h) == sorted[..k] + [h] + sorted[k..]
    ensures forall i | 0 <= i < k :: Ahead(sorted[i], h)
    ensures k < |sorted| ==> !Ahead(sorted[k], h)
  {
    hide Ahead;
    if sorted == [] || !Ahead(sorted[0], h) {
      k := 0;
      assert sorted[..0] == [] && sorted[0..] == sorted;
    } else {
      var j := PlacedIs(sorted[1..], h);
      k := j + 1;
      assert sorted[..k] == [sorted[0]] + sorted[1..][..j] && sorted[k..] == sorted[1..][j..];
      forall i | 0 <= i < k ensures Ahead(sorted[i], h) {
        if i > 0 {
          assert sorted[i] == sorted[1..][i - 1];
        }
      }
    }
  }

  lemma PlacedInOrder(sorted: seq<Hit>, h: Hit)
    requires InOrder(sorted)
    ensures InOrder(Placed(sorted, h)) && multiset(Placed(sorted, h)) == multiset(sorted) + multiset{h}
  {
    hide Placed;
    var k := PlacedIs(sorted, h);
    assert sorted == sorted[..k] + sorted[k..];
    InsertedInOrder(sorted, h, k);
  }

  lemma InsertedInOrder(sorted: seq<Hit>, h: Hit, k: nat)
    requires InOrder(sorted) && k <= |sorted| && (k < |sorted| ==> !Ahead(sorted[k], h))
    requires forall i | 0 <= i < k :: Ahead(sorted[i], h)
    ensures InOrder(sorted[..k] + [h] + sorted[k..])
  {
    var r := sorted[..k] + [h] + sorted[k..];
    forall i | 0 <= i < k ensures !Ahead(h, sorted[i]) {
      NotBoth(sorted[i], h);
    }
    forall i | k <= i < |sorted| ensures !Ahead(sorted[i], h) {
      if k < i {
        NotAheadTransitive(h, sorted[k], sorted[i]);
      }
    }
    hide Ahead;
    forall i, j | 0 <= i < j < |r| ensures !Ahead(r[j], r[i]) {
      assert r[i] == if i < k then sorted[i] else if i == k then h else sorted[i - 1];
      assert r[j] == if j < k then sorted[j] else if j == k then h else sorted[j - 1];
    }
  }

  lemma NotBoth(a: Hit, b: Hit)
    requires Ahead(a, b)
    ensures !Ahead(b, a)
  {
    if Ahead(b, a) {
      AheadTransitive(a, b, a);
      AheadIrreflexive(a);
    }
  }

  /** If `c` is not ahead of `b`, nor `b` of `a`, then `c` is not ahead of `a`. */
  lemma NotAheadTransitive(a: Hit, b: Hit, c: Hit)
    requires !Ahead(b, a) && !Ahead(c, b)
    ensures !Ahead(c, a)
  {
    AheadTotal(a, b);
    AheadTotal(b, c);
    if Ahead(c, a) {
      if Ahead(a, b) {
        AheadTransitive(c, a, b);
      } else if Ahead(b, c) {
        AheadTransitive(b, c, a);
      } else {
        AheadIrreflexive(Hit(a.op, c.score));
      }
    }
  }

  lemma {:induction false} RankedInOrder(hits: seq<Hit>)
    ensures InOrder(Ranked(hits)) && multiset(Ranked(hits)) == multiset(hits)
  {
    hide Ahead, Placed;
    if hits != [] {
      RankedInOrder(hits[1..]);
      PlacedInOrder(Ranked(hits[1..]), hits[0]);
      assert hits == [hits[0]] + hits[1..];
    }
  }

  lemma {:induction false} HitsExactly(ops: seq<Op>, needles: seq<string>, h: Hit)
    ensures h in Hits(ops, needles) <==> h.op in ops && Matches(h.op, needles) && h.score == Total(h.op, needles)
  {
    hide Matches, Total;
    if ops != [] {
      HitsExactly(ops[1..], needles, h);
      assert ops == [ops[0]] + ops[1..];
    }
  }

  lemma SameMembers<T>(a: seq<T>, b: seq<T>, x: T)
    requires multiset(a) == multiset(b)
    ensures x in a <==> x in b
  {
    assert x in multiset(a) <==> x in multiset(b);
  }

  /**
   What a search shows: nothing for blank words; otherwise the best matches, each with its
   score, and no match left out that belongs before one that is shown. With one operation to
   a key, no two hits share a rank.
   */
  lemma SearchShowsTheBest(ops: seq<Op>, terms: seq<string>, limit: nat)
    requires Needles(terms) != []
    ensures var needles, r := Needles(terms), Shown(ops, terms, limit);
            && |r| == (if |Hits(ops, needles)| < limit then |Hits(ops, needles)| else limit)
            && InOrder(r) && (UniqueOps(ops) ==> Strict(r))
            && (forall h | h in r :: h.op in ops && Matches(h.op, needles) && h.score == Total(h.op, needles))
            && (forall op, h | op in ops && Matches(op, needles) && h in r ::
                  var mine := Hit(op, Total(op, needles)); mine in r || !Ahead(mine, h))
  {
    hide Ahead, Matches, Total, Ranked, Hits;
    var needles := Needles(terms);
    var hits := Hits(ops, needles);
    var all, r := Ranked(hits), Shown(ops, terms, limit);
    RankedInOrder(hits);
    assert |multiset(all)| == |all| && |multiset(hits)| == |hits|;
    if UniqueOps(ops) {
      HitsAreUnique(ops, needles);
      RankedIsStrict(hits);
      assert forall i | 0 <= i < |r| :: r[i] == all[i];
    }
    forall h | h in r ensures h.op in ops && Matches(h.op, needles) && h.score == Total(h.op, needles) {
      assert h in all;
      SameMembers(all, hits, h);
      HitsExactly(ops, needles, h);
    }
    forall op, h | op in ops && Matches(op, needles) && h in r
      ensures var mine := Hit(op, Total(op, needles)); mine in r || !Ahead(mine, h)
    {
      var mine := Hit(op, Total(op, needles));
      HitsExactly(ops, needles, mine);
      SameMembers(all, hits, mine);
      var j :| 0 <= j < |all| && all[j] == mine;
      var i :| 0 <= i < |r| && r[i] == h;
      assert all[i] == h;
      assert j < |r| ==> r[j] == mine;
    }
  }

  predicate UniqueOps(ops: seq<Op>) {
    forall i, j | 0 <= i < j < |ops| :: !SameKey(ops[i], ops[j])
  }

  predicate UniqueHits(hits: seq<Hit>) {
    forall i, j | 0 <= i < j < |hits| :: !SameKey(hits[i].op, hits[j].op)
  }

  lemma {:induction false} HitsAreUnique(ops: seq<Op>, needles: seq<string>)
    requires UniqueOps(ops)
    ensures UniqueHits(Hits(ops, needles))
  {
    hide Matches, Total, SameKey;
    if ops != [] {
      var rest := Hits(ops[1..], needles);
      forall i, j | 0 <= i < j < |ops[1..]| ensures !SameKey(ops[1..][i], ops[1..][j]) {
        assert ops[1..][i] == ops[i + 1] && ops[1..][j] == ops[j + 1];
      }
      HitsAreUnique(ops[1..], needles);
      forall h | h in rest ensures !SameKey(ops[0], h.op) {
        HitsExactly(ops[1..], needles, h);
        var i :| 0 <= i < |ops[1..]| && ops[1..][i] == h.op;
        assert ops[i + 1] == h.op;
      }
    }
  }

  /** With one operation to a key, nobody shares a rank. */
  lemma {:induction false} RankedIsStrict(hits: seq<Hit>)
    requires UniqueHits(hits)
    ensures Strict(Ranked(hits))
  {
    hide Ahead, Placed;
    if hits != [] {
      var h, rest := hits[0], hits[1..];
      var sorted := Ranked(rest);
      forall i, j | 0 <= i < j < |rest| ensures !SameKey(rest[i].op, rest[j].op) {
        assert rest[i] == hits[i + 1] && rest[j] == hits[j + 1];
      }
      RankedIsStrict(rest);
      RankedInOrder(rest);
      var k := PlacedIs(sorted, h);
      forall x | x in sorted ensures !SameKey(x.op, h.op) {
        SameMembers(sorted, rest, x);
        var i :| 0 <= i < |rest| && rest[i] == x;
        assert hits[i + 1] == x;
      }
      InsertedStrict(sorted, h, k);
    }
  }

  lemma InsertedStrict(sorted: seq<Hit>, h: Hit, k: nat)
    requires Strict(sorted) && k <= |sorted| && (k < |sorted| ==> !Ahead(sorted[k], h))
    requires forall i | 0 <= i < k :: Ahead(sorted[i], h)
    requires forall x | x in sorted :: !SameKey(x.op, h.op)
    ensures Strict(sorted[..k] + [h] + sorted[k..])
  {
    var r := sorted[..k] + [h] + sorted[k..];
    forall i | k <= i < |sorted| ensures Ahead(h, sorted[i]) {
      assert sorted[k] in sorted;
      AheadTotal(h, sorted[k]);
      if k < i {
        AheadTransitive(h, sorted[k], sorted[i]);
      }
    }
    hide Ahead;
    forall i, j | 0 <= i < j < |r| ensures Ahead(r[i], r[j]) {
      assert r[i] == if i < k then sorted[i] else if i == k then h else sorted[i - 1];
      assert r[j] == if j < k then sorted[j] else if j == k then h else sorted[j - 1];
    }
  }

  lemma FirstOfStrict(a: seq<Hit>, b: seq<Hit>)
    requires Strict(a) && Strict(b) && a != [] && b != [] && forall x :: x in a <==> x in b
    ensures a[0] == b[0]
  {
    assert a[0] in b && b[0] in a;
    var i :| 0 <= i < |b| && b[i] == a[0];
    var j :| 0 <= j < |a| && a[j] == b[0];
    if i > 0 && j > 0 {
      NotBoth(a[0], b[0]);
    }
  }

  lemma BothEmpty(a: seq<Hit>, b: seq<Hit>)
    requires forall x :: x in a <==> x in b
    ensures a == [] <==> b == []
  {
    if b != [] {
      assert b[0] in a;
    }
    if a != [] {
      assert a[0] in b;
    }
  }

  lemma NotAgain(a: seq<Hit>, x: Hit)
    requires Strict(a) && a != []
    ensures x in a[1..] <==> x in a && x != a[0]
  {
    if x in a[1..] {
      var i :| 0 <= i < |a[1..]| && a[1..][i] == x;
      assert a[i + 1] == x;
      AheadIrreflexive(x);
    }
    assert a == [a[0]] + a[1..];
  }

  lemma {:induction false} StrictIsDetermined(a: seq<Hit>, b: seq<Hit>)
    requires Strict(a) && Strict(b) && forall x :: x in a <==> x in b
    ensures a == b
    decreases |a|
  {
    hide Ahead;
    BothEmpty(a, b);
    if a != [] {
      FirstOfStrict(a, b);
      forall x ensures x in a[1..] <==> x in b[1..] {
        NotAgain(a, x);
        NotAgain(b, x);
      }
      StrictIsDetermined(a[1..], b[1..]);
      assert a == [a[0]] + a[1..] && b == [b[0]] + b[1..];
    }
  }

  /** What is shown does not depend on the order of the table, when no key is there twice. */
  lemma OrderOfTableDoesNotCount(ops: seq<Op>, others: seq<Op>, terms: seq<string>, limit: nat)
    requires UniqueOps(ops) && UniqueOps(others) && forall op :: op in ops <==> op in others
    ensures Shown(ops, terms, limit) == Shown(others, terms, limit)
  {
    hide Ahead, Matches, Total, Ranked, Hits;
    var needles := Needles(terms);
    var a, b := Hits(ops, needles), Hits(others, needles);
    HitsAreUnique(ops, needles);
    HitsAreUnique(others, needles);
    RankedIsStrict(a);
    RankedIsStrict(b);
    RankedInOrder(a);
    RankedInOrder(b);
    forall x ensures x in Ranked(a) <==> x in Ranked(b) {
      HitsExactly(ops, needles, x);
      HitsExactly(others, needles, x);
      SameMembers(Ranked(a), a, x);
      SameMembers(Ranked(b), b, x);
    }
    StrictIsDetermined(Ranked(a), Ranked(b));
  }

  // ------------------------------------------------------------------ the scores, by value

  /** A name keeps its length; the six separators become spaces, capitals small letters, and the rest stays. */
  lemma {:induction false} NormalizeMeans(s: string)
    ensures |Normalize(s)| == |s|
    ensures forall i | 0 <= i < |s| ::
              Normalize(s)[i] == if s[i] in {'-', '_', '/', '{', '}', '.'} then ' '
                                 else if 'A' <= s[i] <= 'Z' then (s[i] as int - 'A' as int + 'a' as int) as char
                                 else s[i]
  {
    if s != "" {
      NormalizeMeans(s[1..]);
    }
  }

  /** A term counts unless it is blank, as the name it is normalised to, in the order of the terms. */
  lemma {:induction false} NeedlesMean(terms: seq<string>, term: string)
    ensures Needles([]) == []
    ensures Needles(terms + [term]) == Needles(terms) + if Blank(Normalize(term)) then [] else [Normalize(term)]
  {
    hide Normalize;
    if terms == [] {
      assert ([] + [term])[1..] == [];
    } else {
      var all := terms + [term];
      assert all[0] == terms[0] && all[1..] == terms[1..] + [term];
      NeedlesMean(terms[1..], term);
      var first := if Blank(Normalize(terms[0])) then [] else [Normalize(terms[0])];
      assert Needles(terms) == first + Needles(terms[1..]) && Needles(all) == first + Needles(all[1..]);
      hide Needles;
      Text.Associate(first, Needles(terms[1..]), if Blank(Normalize(term)) then [] else [Normalize(term)]);
    }
  }

  /** The best of the four fields counts: the command at weight 6, group and summary at 3, the path at 2. */
  lemma BestMeans(op: Op, needle: string)
    ensures var scores := {Score(Normalize(op.command), needle, 6), Score(Normalize(op.group), needle, 3),
                           Score(Normalize(op.summary), needle, 3), Score(Normalize(op.path), needle, 2)};
            Best(op, needle) in scores && forall s | s in scores :: s <= Best(op, needle)
  {
    hide Score, Normalize;
    var f := Fields(op);
    FourFields(f, needle);
  }

  lemma FourFields(f: seq<(string, nat)>, needle: string)
    requires |f| == 4
    ensures BestOf(f, needle)
            == Max(Score(f[0].0, needle, f[0].1), Max(Score(f[1].0, needle, f[1].1),
                   Max(Score(f[2].0, needle, f[2].1), Score(f[3].0, needle, f[3].1))))
  {
    hide Score;
    var g, h, last := f[1..], f[2..], f[3..];
    assert g[1..] == h && h[1..] == last && BestOf(last[1..], needle) == 0;
    assert BestOf(last, needle) == Score(f[3].0, needle, f[3].1);
    assert BestOf(h, needle) == Max(Score(f[2].0, needle, f[2].1), BestOf(last, needle));
    assert BestOf(g, needle) == Max(Score(f[1].0, needle, f[1].1), BestOf(h, needle));
  }

  /** A hit's score is the sum of the best scores of its needles. */
  lemma TotalMeans(op: Op, needles: seq<string>, needle: string)
    ensures Total(op, []) == 0 && Total(op, needles + [needle]) == Total(op, needles) + Best(op, needle)
  {
    TotalSnoc(op, needles, needle);
  }
}
