/**
 What whole histories of edits lead to: when no expansion can loop, and a history of accepted
 edits whose last alias never runs.
 */
module AliasHistories {
  import opened Wrappers
  import opened Text
  import opened Splitter
  import opened Substitution
  import opened Expansion
  import opened AliasGraph
  import opened ExpansionLaws
  import opened AliasStore

  // --------------------------------------------------------- names without placeholders

  predicate PlainWord(word: string) {
    Named(Slots(word)) == {}
  }

  predicate AllPlain(words: set<string>) {
    forall w | w in words :: PlainWord(w)
  }

  /** No alias's head word holds a placeholder. */
  predicate PlainExpansions(aliases: Aliases) {
    forall k | k in aliases :: PlainHead(SplitWords(aliases[k]))
  }

  lemma {:induction false} NoDollarIsPlain(word: string)
    requires '$' !in word
    ensures PlainWord(word)
    decreases |word|
  {
    if word == "" {
      assert Slots(word) == [];
    } else {
      NoDollarIsPlain(word[1..]);
      assert Slots(word) == [Ch(word[0])] + Slots(word[1..]);
      assert forall s :: s in Slots(word) && s.Arg? ==> s in Slots(word[1..]);
    }
  }

  lemma BuiltinNamesArePlain()
    ensures AllPlain(BuiltinsFrom(0).Keys)
  {
    hide BuiltinsFrom, PlainWord;
    NoDollarInBuiltins();
    forall name | name in BuiltinsFrom(0) ensures PlainWord(name) {
      BuiltinIsListed(0, name);
      NoDollarIsPlain(name);
    }
  }

  lemma NoDollarInBuiltins()
    ensures forall i | 0 <= i < |BUILTIN| :: '$' !in BUILTIN[i].0
  {
  }

  lemma {:induction false} BuiltinIsListed(from: nat, name: string)
    requires from <= |BUILTIN| && name in BuiltinsFrom(from)
    ensures exists i :: 0 <= i < |BUILTIN| && BUILTIN[i].0 == name
    decreases |BUILTIN| - from
  {
    if BUILTIN[from].0 != name {
      BuiltinIsListed(from + 1, name);
    }
  }

  /** An accepted head word is a name, so where no name holds a placeholder it holds none. */
  lemma AcceptedHeadIsPlain(name: string, expansion: string, existing: Aliases, listed: set<string>)
    requires Check(name, expansion, existing, listed).None?
    requires AllPlain(listed) && AllPlain(existing.Keys) && PlainWord(name)
    ensures PlainHead(SplitWords(expansion))
  {
    hide SplitWords, BuiltinsFrom, Cycle, PlainWord, Slots, Named;
    BuiltinNamesArePlain();
    var words := SplitWords(expansion);
    assert words.Ok? && words.value != [];
    assert PlainWord(words.value[0]);
    PlainHeadIs(words);
  }

  lemma PlainHeadIs(words: Reading)
    requires words.Ok? && words.value != [] && PlainWord(words.value[0])
    ensures PlainHead(words)
  {
  }

  lemma {:induction false} ImportOnlyAdds(entries: seq<(string, string)>, clobber: bool, existing: Aliases,
                                          listed: set<string>)
    ensures existing.Keys <= Imported(entries, clobber, existing, listed).Keys
    decreases |entries|
  {
    hide Taken;
    if entries != [] {
      var first := entries[0];
      var next := if Taken(first, clobber, existing, listed) then existing[first.0 := first.1] else existing;
      ImportOnlyAdds(entries[1..], clobber, next, listed);
    }
  }

  lemma {:induction false} ImportKeepsPlain(entries: seq<(string, string)>, clobber: bool, existing: Aliases,
                                            listed: set<string>)
    requires AllPlain(listed) && PlainExpansions(existing)
    requires AllPlain(Imported(entries, clobber, existing, listed).Keys)
    ensures PlainExpansions(Imported(entries, clobber, existing, listed))
    decreases |entries|
  {
    hide Check, PlainHead, PlainWord;
    if entries != [] {
      var first, rest := entries[0], entries[1..];
      var next := if Taken(first, clobber, existing, listed) then existing[first.0 := first.1] else existing;
      ImportOnlyAdds(entries, clobber, existing, listed);
      ImportOnlyAdds(rest, clobber, next, listed);
      if Taken(first, clobber, existing, listed) {
        assert first.0 in next.Keys;
        AcceptedHeadIsPlain(first.0, first.1, existing, listed);
      }
      ImportKeepsPlain(rest, clobber, next, listed);
    }
  }

  lemma EditKeepsPlain(edit: Edit, existing: Aliases, listed: set<string>)
    requires AllPlain(listed) && PlainExpansions(existing) && AllPlain(existing.Keys)
    requires AllPlain(Apply(edit, existing, listed).Keys)
    ensures PlainExpansions(Apply(edit, existing, listed))
  {
    hide Check, PlainHead, PlainWord, Trim, Imported;
    match edit
    case Set(name, expansion) =>
      if Check(Trim(name), Trim(expansion), existing, listed).None? {
        assert Trim(name) in Apply(edit, existing, listed).Keys;
        AcceptedHeadIsPlain(Trim(name), Trim(expansion), existing, listed);
      }
    case Delete(name) =>
    case Import(entries, clobber) => ImportKeepsPlain(entries, clobber, existing, listed);
  }

  /** No alias accepted at any point of the history has a placeholder in its name. */
  predicate NamesStayPlain(edits: seq<(Edit, bool)>, listed: set<string>) {
    edits == []
    || (NamesStayPlain(edits[..|edits| - 1], listed) && AllPlain(History(edits, listed).Keys))
  }

  lemma {:induction false} HistoriesStayPlain(edits: seq<(Edit, bool)>, listed: set<string>)
    requires AllPlain(listed) && NamesStayPlain(edits, listed)
    ensures PlainExpansions(History(edits, listed)) && AllPlain(History(edits, listed).Keys)
    decreases |edits|
  {
    hide Apply, PlainHead, PlainWord;
    if edits != [] {
      var before := edits[..|edits| - 1];
      var (edit, saves) := edits[|edits| - 1];
      HistoriesStayPlain(before, listed);
      if saves {
        EditKeepsPlain(edit, History(before, listed), listed);
      }
    }
  }

  lemma BuiltinHeadsArePlain(aliases: Aliases, listed: set<string>)
    requires BuiltinsFit(listed) && AllPlain(listed) && PlainExpansions(aliases)
    ensures PlainHeads(Read(WithBuiltins(aliases)))
  {
    hide SplitWords, BuiltinsFrom, BuiltinsFit, PlainWord;
    var all := WithBuiltins(aliases);
    forall k | k in all ensures PlainHead(SplitWords(all[k])) {
      if k !in aliases {
        BuiltinsPointAtCommands(k, listed);
        PlainHeadIs(SplitWords(all[k]));
      }
    }
  }

  /**
   A guard anyone can keep: while no command and no alias accepted so far has a placeholder in
   its name, no expansion ever loops, whatever is run with whatever arguments. For an accepted
   head word is such a name, so it takes one to get a placeholder into a head word.
   */
  lemma PlainNamesNeverLoop(edits: seq<(Edit, bool)>, listed: set<string>, name: string, args: seq<string>)
    requires BuiltinsFit(listed) && AllPlain(listed) && NamesStayPlain(edits, listed)
    ensures var r := Expand(Read(WithBuiltins(History(edits, listed))), name, args);
            !(r.Err? && r.error.AliasLoop?)
  {
    hide History, Expand, WithBuiltins, Read, BuiltinsFit, PlainExpansions, AllPlain, NamesStayPlain, PlainHeads;
    HistoriesAreSafe(edits, listed);
    HistoriesStayPlain(edits, listed);
    BuiltinHeadsArePlain(History(edits, listed), listed);
    PlainTablesNeverLoop(Read(WithBuiltins(History(edits, listed))), name, args);
  }

  lemma BareWordHead(digit: char)
    requires '1' <= digit <= '9'
    ensures SplitWords(['$', digit]) == Ok([['$', digit]]) && HeadOf(['$', digit]) == Some(['$', digit])
  {
    var bare := ['$', digit];
    assert bare[0] == '$' && bare[1] == digit;
    BareWordSplits(bare);
  }

  lemma {:induction false} ExitsBeside(g: map<string, string>, name: string, to: string, h: string, m: nat)
    requires name !in g && Exits(g, h, m) && Walk(g, h, m) != Some(name)
    ensures Exits(g[name := to], h, m)
    decreases m
  {
    if m > 0 {
      ExitsBeside(g, name, to, g[h], m - 1);
    }
  }

  /**
   And the guard is needed: once an alias is named by a bare placeholder, and its chain is
   short enough for one more, any new name can be set to it, and then loops.
   */
  lemma OneMoreEditLoops(aliases: Aliases, listed: set<string>, name: string, digit: char, m: nat)
    requires '1' <= digit <= '9' && ['$', digit] in aliases
    requires name !in WithBuiltins(aliases) && CheckName(name, listed).None?
    requires m < MAX_DEPTH && Exits(FullGraph(aliases), ['$', digit], m)
    requires Walk(FullGraph(aliases), ['$', digit], m) != Some(name)
    ensures Check(name, ['$', digit], aliases, listed).None?
    ensures Expand(Read(WithBuiltins(aliases[name := ['$', digit]])), name, seq(PLACEHOLDERS, _ => name))
            == Err(AliasLoop([name, name]))
  {
    hide SplitWords, BuiltinsFrom, HeadWord, CheckName, CheckExpansion, Expanded;
    var bare := ['$', digit];
    BareWordHead(digit);
    SetChangesOneEdge(aliases, name, bare);
    var g, g' := FullGraph(aliases), FullGraph(aliases[name := bare]);
    ExitsBeside(g, name, bare, bare, m);
    assert Exits(g', name, m + 1);
    AcceptsWhenItEnds(name, bare, bare, aliases, listed, m + 1);
    var table := Read(WithBuiltins(aliases[name := bare]));
    assert table[name] == Ok([bare]) && [bare] + [] == [bare];
    BarePlaceholderLoops(table, name, [], digit);
  }

  // ---- any name with a placeholder will do

  /** A word of `n` letters. */
  function Letters(n: nat): string {
    seq(n, _ => 'a')
  }

  /** A word with each character written behind a backslash. */
  function Quoted(word: string): seq<Piece> {
    seq(|word|, i requires 0 <= i < |word| => Slash(word[i]))
  }

  lemma {:induction false} QuotedValue(word: string)
    ensures WordValue(Quoted(word)) == word
  {
    if word != "" {
      QuotedValue(word[1..]);
      assert Quoted(word)[1..] == Quoted(word[1..]);
    }
  }

  lemma QuotedIsTheWord(word: string)
    requires word != ""
    ensures SplitWords(TokensText(AsParts(Quoted(word)))) == Ok([word])
    ensures HeadOf(TokensText(AsParts(Quoted(word)))) == Some(word)
  {
    hide SplitWords;
    QuotedValue(word);
    OneWordReadsBack(Quoted(word));
  }

  function AllLetters(n: nat): seq<string> {
    seq(PLACEHOLDERS, _ => Letters(n))
  }

  /** A name with letters for its placeholders. */
  function Filled(name: string, n: nat): string {
    Rendered(Slots(name), AllLetters(n))
  }

  lemma FilledCons(name: string, n: nat)
    requires name != ""
    ensures Filled(name, n) == if IsPlaceholder(name, 0) then Letters(n) + Filled(name[2..], n)
                               else [name[0]] + Filled(name[1..], n)
  {
    var args := AllLetters(n);
    if IsPlaceholder(name, 0) {
      assert Slots(name) == [Arg(ArgIndex(name[1]))] + Slots(name[2..]);
      assert args[ArgIndex(name[1])] == Letters(n);
    } else {
      assert Slots(name) == [Ch(name[0])] + Slots(name[1..]);
    }
  }

  /** It is long, if there was a placeholder. */
  lemma {:induction false} FilledIsLong(name: string, n: nat)
    requires !PlainWord(name)
    ensures |Filled(name, n)| >= n
    decreases |name|
  {
    FilledCons(name, n);
    if !IsPlaceholder(name, 0) {
      assert Slots(name) == [Ch(name[0])] + Slots(name[1..]);
      assert forall s :: s in Slots(name) && s.Arg? ==> s in Slots(name[1..]);
      FilledIsLong(name[1..], n);
    }
  }

  lemma {:induction false} LettersAreOneWord(n: nat, rest: string, inside: bool)
    requires n > 0
    ensures WordCount(Letters(n) + rest, inside) == (if inside then 0 else 1) + WordCount(rest, true)
    decreases n
  {
    var s := Letters(n) + rest;
    assert s[1..] == Letters(n - 1) + rest;
    if n == 1 {
      assert s[1..] == rest;
    } else {
      LettersAreOneWord(n - 1, rest, true);
    }
  }

  /** And it has as many words as the name. */
  lemma {:induction false} FilledCountsAlike(name: string, n: nat, inside: bool)
    requires n > 0
    ensures WordCount(Filled(name, n), inside) == WordCount(name, inside)
    decreases |name|
  {
    if name == "" {
      assert Filled(name, n) == "";
    } else {
      FilledCons(name, n);
      if IsPlaceholder(name, 0) {
        var rest := name[2..];
        FilledCountsAlike(rest, n, true);
        LettersAreOneWord(n, Filled(rest, n), inside);
        assert name[1..][1..] == rest;
      } else {
        FilledCountsAlike(name[1..], n, !IsSpace(name[0]));
        assert Filled(name, n)[1..] == Filled(name[1..], n);
      }
    }
  }

  lemma FilledIsAName(name: string, n: nat, listed: set<string>)
    requires n > 0 && CheckName(name, listed).None? && Filled(name, n) !in listed
    ensures CheckName(Filled(name, n), listed).None?
  {
    FilledCountsAlike(name, n, false);
    FilledCons(name, n);
  }

  lemma {:induction false} LongerThanAll(words: set<string>) returns (n: nat)
    ensures n > 0 && forall w | w in words :: |w| < n
    decreases |words|
  {
    if words == {} {
      n := 1;
    } else {
      var w :| w in words;
      var m := LongerThanAll(words - {w});
      n := if |w| < m then m else |w| + 1;
    }
  }

  /** A new name can be set to an alias whose chain has room for one more. */
  lemma NewNameIsAccepted(aliases: Aliases, listed: set<string>, placed: string, name: string, m: nat)
    requires placed in aliases && CheckName(placed, listed).None?
    requires name !in WithBuiltins(aliases) && CheckName(name, listed).None?
    requires m < MAX_DEPTH && Exits(FullGraph(aliases), placed, m) && Walk(FullGraph(aliases), placed, m) != Some(name)
    ensures var expansion := TokensText(AsParts(Quoted(placed)));
            && Check(name, expansion, aliases, listed).None?
            && Read(WithBuiltins(aliases[name := expansion]))[name] == Ok([placed])
  {
    hide SplitWords, HeadWord, CheckName, CheckExpansion, TokensText, AsParts, Quoted, FullGraph, WithBuiltins, Read,
      Exits, Walk, StartsWithDash;
    var expansion := TokensText(AsParts(Quoted(placed)));
    NotADash(placed, listed);
    QuotedIsTheWord(placed);
    NewNameReads(aliases, name, expansion);
    NewNameExits(aliases, placed, name, expansion, m);
    AcceptsWhenItEnds(name, expansion, placed, aliases, listed, m + 1);
  }

  lemma NewNameExits(aliases: Aliases, placed: string, name: string, expansion: string, m: nat)
    requires name !in WithBuiltins(aliases) && HeadOf(expansion) == Some(placed)
    requires Exits(FullGraph(aliases), placed, m) && Walk(FullGraph(aliases), placed, m) != Some(name)
    ensures Exits(FullGraph(aliases[name := expansion]), name, m + 1)
  {
    hide SplitWords, HeadWord, FullGraph, WithBuiltins, Walk;
    NewNameReads(aliases, name, expansion);
    SetChangesOneEdge(aliases, name, expansion);
    ExitsBeside(FullGraph(aliases), name, placed, placed, m);
  }

  /**
   The guard is needed for every name: once an alias has a placeholder anywhere in its name,
   and its chain is short enough for one more, there is a new name that can be set to it and
   then, with some arguments, loops.
   */
  lemma AnyPlaceholderNameLoops(aliases: Aliases, listed: set<string>, placed: string, m: nat)
    returns (name: string, expansion: string, args: seq<string>)
    requires placed in aliases && !PlainWord(placed) && CheckName(placed, listed).None?
    requires m < MAX_DEPTH && Exits(FullGraph(aliases), placed, m)
    ensures name !in WithBuiltins(aliases) && Check(name, expansion, aliases, listed).None?
    ensures Expand(Read(WithBuiltins(aliases[name := expansion])), name, args) == Err(AliasLoop([name, name]))
  {
    hide FullGraph, WithBuiltins, CheckName, Check, Expand, TokensText, AsParts, Quoted, PlainWord, Filled, Read;
    var last := Walk(FullGraph(aliases), placed, m);
    var known := listed + WithBuiltins(aliases).Keys + (if last.Some? then {last.value} else {});
    var n := LongerThanAll(known);
    name, args, expansion := Filled(placed, n), AllLetters(n), TokensText(AsParts(Quoted(placed)));
    FilledIsLong(placed, n);
    assert name !in known;
    FilledIsAName(placed, n, listed);
    NewNameIsAccepted(aliases, listed, placed, name, m);
    NewNameReads(aliases, name, expansion);
    FilledLoops(Read(WithBuiltins(aliases[name := expansion])), name, placed, n);
  }

  lemma NewNameReads(aliases: Aliases, name: string, expansion: string)
    ensures name !in WithBuiltins(aliases) ==> name !in FullGraph(aliases)
    ensures var table := Read(WithBuiltins(aliases[name := expansion]));
            name in table && table[name] == SplitWords(expansion)
  {
    hide SplitWords, BuiltinsFrom, HeadWord;
  }

  lemma NotADash(name: string, listed: set<string>)
    requires CheckName(name, listed).None?
    ensures name != "" && !StartsWithDash(name)
  {
  }

  lemma FilledLoops(table: Table, name: string, placed: string, n: nat)
    requires name in table && table[name] == Ok([placed]) && name == Filled(placed, n)
    ensures Expand(table, name, AllLetters(n)) == Err(AliasLoop([name, name]))
  {
    NineAreEnough([placed], AllLetters(n));
    hide Slots, Rendered, NamedIn, Unnamed, FirstMissingIn, PLACEHOLDERS;
    ComesBackExactly(table, name, AllLetters(n));
  }

  // -------------------------------------------------------------- ten accepted aliases

  /** The names `la` to `lj`. */
  function Link(i: nat): string
    requires i < MAX_DEPTH
  {
    ['l', "abcdefghij"[i]]
  }

  /** What each stands for: the one before it, and the first for a command. */
  function LinkTo(i: nat): string
    requires i < MAX_DEPTH
  {
    if i == 0 then "pr" else Link(i - 1)
  }

  function Links(n: nat): seq<(Edit, bool)>
    requires n <= MAX_DEPTH
  {
    if n == 0 then [] else Links(n - 1) + [(Set(Link(n - 1), LinkTo(n - 1)), true)]
  }

  function LinkTable(n: nat): Aliases
    requires n <= MAX_DEPTH
  {
    if n == 0 then map[] else LinkTable(n - 1)[Link(n - 1) := LinkTo(n - 1)]
  }

  predicate NoLinkIsCommand(listed: set<string>) {
    forall i: nat | i < MAX_DEPTH :: Link(i) !in listed
  }

  lemma LinksDiffer(i: nat, j: nat)
    requires i < MAX_DEPTH && j < MAX_DEPTH && Link(i) == Link(j)
    ensures i == j
  {
    assert "abcdefghij"[i] == Link(i)[1] && "abcdefghij"[j] == Link(j)[1];
    assert forall a, b | 0 <= a < b < 10 :: "abcdefghij"[a] != "abcdefghij"[b];
  }

  lemma LinkIsAWord(i: nat)
    requires i < MAX_DEPTH
    ensures SplitWords(Link(i)) == Ok([Link(i)]) && HeadOf(Link(i)) == Some(Link(i)) && Trim(Link(i)) == Link(i)
    ensures CheckName(Link(i), {}).None?
    ensures SplitWords("pr") == Ok(["pr"]) && HeadOf("pr") == Some("pr") && Trim("pr") == "pr"
  {
    var w := Link(i);
    assert 'a' <= w[1] <= 'z';
    LowerCaseWord(w);
    LowerCaseWord("pr");
    TrimPr();
    hide SplitWords, HeadWord;
    TwoLetters(w);
  }

  lemma TwoLetters(w: string)
    requires |w| == 2 && 'a' <= w[0] <= 'z' && 'a' <= w[1] <= 'z'
    ensures Trim(w) == w && CheckName(w, {}).None?
  {
    assert w[1..] == [w[1]] && [w[1]][1..] == "";
    assert WordCount([w[1]], true) == WordCount("", true);
  }

  lemma {:induction false} LinkTableHas(n: nat, i: nat)
    requires i < n <= MAX_DEPTH
    ensures Link(i) in LinkTable(n) && LinkTable(n)[Link(i)] == LinkTo(i)
  {
    if i < n - 1 {
      LinkTableHas(n - 1, i);
      if Link(i) == Link(n - 1) {
        LinksDiffer(i, n - 1);
      }
    }
  }

  lemma {:induction false} LinkTableOnly(n: nat, k: string)
    requires n <= MAX_DEPTH && k in LinkTable(n)
    ensures exists i: nat :: i < n && k == Link(i)
  {
    if k != Link(n - 1) {
      LinkTableOnly(n - 1, k);
    }
  }

  /** The chain from each link leads out of the table after as many aliases as there are links up to it. */
  lemma {:induction false} LinkExits(n: nat, i: nat, listed: set<string>)
    requires i < n <= MAX_DEPTH && BuiltinsFit(listed) && NoLinkIsCommand(listed)
    ensures Exits(FullGraph(LinkTable(n)), Link(i), i + 1)
    decreases i
  {
    hide SplitWords, BuiltinsFrom, BuiltinsFit, LinkTable;
    var aliases := LinkTable(n);
    forall k | k in aliases ensures k !in listed {
      LinkTableOnly(n, k);
    }
    LinkTableHas(n, i);
    LinkIsAWord(i);
    if i == 0 {
      CommandsLeadNowhere(aliases, listed);
      assert Exits(FullGraph(aliases), "pr", 0);
    } else {
      LinkIsAWord(i - 1);
      LinkExits(n, i - 1, listed);
    }
    assert FullGraph(aliases)[Link(i)] == LinkTo(i);
  }

  lemma LinkIsAccepted(n: nat, listed: set<string>)
    requires 0 < n <= MAX_DEPTH && BuiltinsFit(listed) && NoLinkIsCommand(listed)
    ensures Check(Link(n - 1), LinkTo(n - 1), LinkTable(n - 1), listed).None?
  {
    hide SplitWords, HeadWord, BuiltinsFrom, BuiltinsFit, CheckExpansion, CheckName, FullGraph, NoLinkIsCommand,
      Exits, Trim;
    LinkIsFree(n - 1, listed);
    LinkExits(n, n - 1, listed);
    LinkToIsAWord(n - 1);
    if n > 1 {
      LinkTableHas(n - 1, n - 2);
    } else {
      PrIsACommand(listed);
    }
    hide Link, LinkTo;
    AcceptsWhenItEnds(Link(n - 1), LinkTo(n - 1), LinkTo(n - 1), LinkTable(n - 1), listed, n);
  }

  lemma LinkToIsAWord(i: nat)
    requires i < MAX_DEPTH
    ensures SplitWords(LinkTo(i)) == Ok([LinkTo(i)]) && !StartsWithDash(LinkTo(i)) && Trim(LinkTo(i)) == LinkTo(i)
  {
    hide SplitWords, HeadWord, Trim;
    LinkIsAWord(if i == 0 then i else i - 1);
  }

  /** Each of the ten edits is accepted. */
  lemma {:induction false} LinksAreAccepted(n: nat, listed: set<string>)
    requires n <= MAX_DEPTH && BuiltinsFit(listed) && NoLinkIsCommand(listed)
    ensures History(Links(n), listed) == LinkTable(n)
  {
    hide SplitWords, HeadWord, BuiltinsFit, Check, Trim, NoLinkIsCommand, Link, LinkTo, CheckName;
    if n > 0 {
      LinksAreAccepted(n - 1, listed);
      LinkIsAccepted(n, listed);
      LinkIsAWord(n - 1);
      LinkToIsAWord(n - 1);
      var edits := Links(n);
      assert edits[..|edits| - 1] == Links(n - 1) && edits[|edits| - 1] == (Set(Link(n - 1), LinkTo(n - 1)), true);
      assert Apply(edits[|edits| - 1].0, LinkTable(n - 1), listed) == LinkTable(n);
      hide Apply, Links, LinkTable;
    }
  }

  lemma LinkIsFree(i: nat, listed: set<string>)
    requires i < MAX_DEPTH && NoLinkIsCommand(listed)
    ensures CheckName(Link(i), listed).None?
  {
    LinkIsAWord(i);
  }

  lemma PrIsACommand(listed: set<string>)
    requires BuiltinsFit(listed)
    ensures "pr" in listed
  {
  }

  /** Ten aliases, each accepted when it was set, and the last of them cannot be run with any arguments. */
  lemma TenAcceptedAliasesNeverRun(listed: set<string>, args: seq<string>)
    requires BuiltinsFit(listed) && NoLinkIsCommand(listed)
    ensures History(Links(MAX_DEPTH), listed) == LinkTable(MAX_DEPTH) && |LinkTable(MAX_DEPTH)| == MAX_DEPTH
    ensures Safe(History(Links(MAX_DEPTH), listed), listed)
    ensures Expand(Read(WithBuiltins(History(Links(MAX_DEPTH), listed))), Link(9), args) == Err(TooDeep)
  {
    hide History, Links, LinkTable, SplitWords, Expanded, BuiltinsFit;
    LinksAreAccepted(MAX_DEPTH, listed);
    HistoriesAreSafe(Links(MAX_DEPTH), listed);
    LinkTableSize(MAX_DEPTH);
    LinksGiveUp(9, [], args, MAX_DEPTH);
  }

  lemma {:induction false} LinkTableSize(n: nat)
    requires n <= MAX_DEPTH
    ensures |LinkTable(n)| == n
  {
    if n > 0 {
      LinkTableSize(n - 1);
      if Link(n - 1) in LinkTable(n - 1) {
        LinkTableOnly(n - 1, Link(n - 1));
        var i: nat :| i < n - 1 && Link(n - 1) == Link(i);
        LinksDiffer(n - 1, i);
      }
    }
  }

  lemma {:induction false} LinksGiveUp(i: nat, seen: seq<string>, args: seq<string>, fuel: nat)
    requires i < MAX_DEPTH && fuel == i + 1
    requires forall j: nat | j <= i :: Link(j) !in seen
    ensures Expanded(Read(WithBuiltins(LinkTable(MAX_DEPTH))), seen, State(Link(i), args), fuel) == Err(TooDeep)
    decreases i
  {
    hide SplitWords, BuiltinsFrom, LinkTable, Hop;
    var table := Read(WithBuiltins(LinkTable(MAX_DEPTH)));
    LinkTableHas(MAX_DEPTH, i);
    LinkIsAWord(i);
    if i > 0 {
      LinkIsAWord(i - 1);
    }
    LinkHop(table, i, args);
    if i > 0 {
      forall j: nat | j <= i - 1 ensures Link(j) !in seen + [Link(i)] {
        if Link(j) == Link(i) {
          LinksDiffer(j, i);
        }
      }
      LinksGiveUp(i - 1, seen + [Link(i)], args, fuel - 1);
    }
  }

  lemma LinkHop(table: Table, i: nat, args: seq<string>)
    requires i < MAX_DEPTH && Link(i) in table && table[Link(i)] == Ok([LinkTo(i)])
    ensures Hop(table, State(Link(i), args)) == Ok(State(LinkTo(i), args))
  {
    var word := LinkTo(i);
    assert '$' !in word;
    OneWordHop(table, Link(i), word, args);
  }

  lemma OneWordHop(table: Table, name: string, word: string, args: seq<string>)
    requires name in table && table[name] == Ok([word]) && '$' !in word
    ensures Hop(table, State(name, args)) == Ok(State(word, args))
  {
    NoDollarIsPlain(word);
    var words := [word];
    assert words[1..] == [] && NamedIn(words) == {};
    hide Slots;
    DemandExact(words, |args|);
    PlainRendersAsIs(word, args);
    UnnamedOfNothing(args, 0);
    assert [] + args == args && AllBelow({}, |args|);
    assert RenderedWords(words, args) == [word];
  }
}
