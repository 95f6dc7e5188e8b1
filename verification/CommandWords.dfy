/**
 The two lists of command words: the one `alias set` checks a name against, made from the tree
 completions are generated from, and the words `gea` answers to. They differ by `web`, and
 since aliases are expanded before anything is parsed, that is a command an alias can hide.
 */
module CommandWords {
  import opened Wrappers
  import opened Text
  import opened Splitter
  import opened Substitution
  import opened Expansion
  import opened AliasGraph
  import opened ExpansionLaws
  import opened AliasStore
  import opened AliasHistories

  /** What `command_names` returns: `api`, `raw` with its other name, and the porcelain groups. */
  const LISTED: set<string> :=
    {"api", "raw", "x", "auth", "config", "alias", "completion", "status", "repo", "pr", "issue", "label", "milestone",
     "project", "release", "run", "ci", "workflow", "secret", "variable", "org", "team", "user", "notification",
     "search", "browse", "times", "stopwatch", "wiki", "mirror", "package", "nodeinfo", "webhook", "deploy-key",
     "git-hook", "topic", "reaction", "block", "transfer", "admin"}

  /** What `gea` answers to. */
  const ANSWERED: set<string> := LISTED + {"web"}

  lemma CommandsAreListed()
    ensures {"pr", "label", "milestone", "auth"} <= LISTED
  {
  }

  lemma WebIsNotListed()
    ensures "web" !in LISTED
  {
  }

  lemma ShortNamesAreNotListed()
    ensures "y" !in LISTED && "$1" !in LISTED
  {
  }

  lemma LinkIsNotListed(i: nat)
    requires i < MAX_DEPTH
    ensures Link(i) !in LISTED
  {
    assert |Link(i)| == 2 && Link(i)[0] == 'l';
  }

  lemma BuiltinIsNotListed(i: nat)
    requires i < |BUILTIN|
    ensures BUILTIN[i].0 !in LISTED
  {
    FirstBuiltinsAreNotListed();
    LastBuiltinsAreNotListed();
    hide LISTED;
    assert BUILTIN[i].0 in {"pull", "labels", "ms", "login", "whoami"};
  }

  lemma FirstBuiltinsAreNotListed()
    ensures "pull" !in LISTED && "labels" !in LISTED && "ms" !in LISTED
  {
  }

  lemma LastBuiltinsAreNotListed()
    ensures "login" !in LISTED && "whoami" !in LISTED
  {
  }

  /** The list is as the theorems about histories ask for. */
  lemma ListFits()
    ensures BuiltinsFit(LISTED) && NoLinkIsCommand(LISTED)
    ensures "web" !in LISTED && "y" !in LISTED && "$1" !in LISTED
  {
    WebIsNotListed();
    ShortNamesAreNotListed();
    CommandsAreListed();
    hide LISTED;
    forall i | 0 <= i < |BUILTIN| ensures BUILTIN[i].0 !in LISTED {
      BuiltinIsNotListed(i);
    }
    forall i: nat | i < MAX_DEPTH ensures Link(i) !in LISTED {
      LinkIsNotListed(i);
    }
  }

  lemma ListIsPlain()
    ensures AllPlain(LISTED)
  {
    forall w | w in LISTED ensures PlainWord(w) {
      assert '$' !in w;
      NoDollarIsPlain(w);
    }
  }

  // ------------------------------------------------------------- what aliases can hide

  /** Some alias has the name of a word that would otherwise be a command. */
  ghost predicate Hides(aliases: Aliases, answered: set<string>) {
    exists w :: w in aliases && w in answered
  }

  predicate NamesPass(aliases: Aliases, listed: set<string>) {
    forall k | k in aliases :: CheckName(k, listed).None?
  }

  lemma {:induction false} ImportKeepsNames(entries: seq<(string, string)>, clobber: bool, aliases: Aliases,
                                            listed: set<string>)
    requires NamesPass(aliases, listed)
    ensures NamesPass(Imported(entries, clobber, aliases, listed), listed)
    decreases |entries|
  {
    hide CheckName, CheckExpansion;
    if entries != [] {
      var first := entries[0];
      ImportKeepsNames(entries[1..], clobber,
                       if Taken(first, clobber, aliases, listed) then aliases[first.0 := first.1] else aliases, listed);
    }
  }

  /** Every name a history leaves has passed the check, whatever happened since. */
  lemma {:induction false} HistoriesKeepNames(edits: seq<(Edit, bool)>, listed: set<string>)
    ensures NamesPass(History(edits, listed), listed)
    decreases |edits|
  {
    hide CheckName, CheckExpansion, Trim, Imported;
    if edits != [] {
      var before := History(edits[..|edits| - 1], listed);
      HistoriesKeepNames(edits[..|edits| - 1], listed);
      var (edit, saves) := edits[|edits| - 1];
      if saves && edit.Import? {
        ImportKeepsNames(edit.entries, edit.clobber, before, listed);
      }
    }
  }

  /** A word that passes can be set, to a command. */
  lemma PassingWordIsTaken(w: string, listed: set<string>)
    requires BuiltinsFit(listed) && CheckName(w, listed).None?
    ensures History([(Import([(w, "pr")], false), true)], listed) == map[w := "pr"]
  {
    hide SplitWords, BuiltinsFrom, FullGraph, CheckExpansion;
    var aliases: Aliases := map[w := "pr"];
    LowerCaseWord("pr");
    assert w !in listed && "pr" in listed;
    assert map[][w := "pr"] == aliases;
    SetChangesOneEdge(map[], w, "pr");
    CommandsLeadNowhere(aliases, listed);
    assert Exits(FullGraph(aliases), "pr", 0) && Exits(FullGraph(aliases), w, 1);
    AcceptsWhenItEnds(w, "pr", "pr", map[], listed, 1);
    var edits := [(Import([(w, "pr")], false), true)];
    assert edits[..0] == [] && History([], listed) == map[];
    assert [(w, "pr")][1..] == [];
    assert Imported([(w, "pr")], false, map[], listed) == Imported([], false, aliases, listed);
  }

  /**
   No history of edits ever hides a word `gea` answers to if and only if every such word would
   be refused as a name.
   */
  lemma NothingHiddenExactly(listed: set<string>, answered: set<string>)
    requires BuiltinsFit(listed)
    ensures (forall edits :: !Hides(History(edits, listed), answered))
            <==> forall w | w in answered :: CheckName(w, listed).Some?
  {
    hide CheckName, History;
    if forall w | w in answered :: CheckName(w, listed).Some? {
      forall edits ensures !Hides(History(edits, listed), answered) {
        HistoriesKeepNames(edits, listed);
      }
    } else {
      var w :| w in answered && CheckName(w, listed).None?;
      PassingWordIsTaken(w, listed);
      assert w in History([(Import([(w, "pr")], false), true)], listed);
    }
  }

  /** With the lists as they are: `web` is the only command a history can hide. */
  lemma OnlyWebCanBeHidden(edits: seq<(Edit, bool)>, w: string)
    requires w in ANSWERED && w in History(edits, LISTED)
    ensures w == "web"
  {
    hide History, LISTED;
    HistoriesKeepNames(edits, LISTED);
  }

  lemma WebPasses()
    ensures Trim("web") == "web" && CheckName("web", LISTED).None?
  {
    ListFits();
    assert "web"[1..] == "eb" && "eb"[1..] == "b" && "b"[1..] == "";
    assert WordCount("b", true) == 0 && WordCount("eb", true) == 0;
    assert "web"[..2] == "we" && !IsSpace('w') && !IsSpace('b');
  }

  /** `gea alias set web pr` is accepted, and from then on `gea web` is `gea pr`, whatever follows. */
  lemma WebIsHidden(args: seq<string>)
    ensures var aliases := History([(Set("web", "pr"), true)], LISTED);
            && Safe(aliases, LISTED) && Hides(aliases, ANSWERED)
            && Expand(Read(WithBuiltins(aliases)), "web", args) == Ok(["pr"] + args)
  {
    hide SplitWords, BuiltinsFrom, FullGraph, CheckExpansion, CheckName, LISTED, Trim, Imported, Hop;
    ListFits();
    WebPasses();
    TrimPr();
    LowerCaseWord("pr");
    var edits := [(Set("web", "pr"), true)];
    HistoriesAreSafe(edits, LISTED);
    PassingWordIsTaken("web", LISTED);
    SetIsImport("web", "pr");
    var aliases: Aliases := map["web" := "pr"];
    assert History(edits, LISTED) == aliases;
    var table := Read(WithBuiltins(aliases));
    CommandsAreListed();
    PrIsNoAlias();
    OneWordHop(table, "web", "pr", args);
  }

  lemma SetIsImport(w: string, expansion: string)
    requires Trim(w) == w && Trim(expansion) == expansion
    ensures History([(Set(w, expansion), true)], LISTED) == History([(Import([(w, expansion)], false), true)], LISTED)
  {
    hide CheckName, CheckExpansion, Trim, LISTED;
    var one, other := [(Set(w, expansion), true)], [(Import([(w, expansion)], false), true)];
    assert one[..0] == [] && other[..0] == [] && History([], LISTED) == map[];
    assert [(w, expansion)][1..] == [];
    var next := Apply(Set(w, expansion), map[], LISTED);
    assert Imported([(w, expansion)], false, map[], LISTED) == Imported([], false, next, LISTED);
  }

  lemma PrIsNoAlias()
    ensures "pr" !in WithBuiltins(map["web" := "pr"])
  {
    hide BuiltinsFrom;
    ListFits();
    hide LISTED;
    CommandsAreListed();
    if "pr" in BuiltinsFrom(0) {
      BuiltinsPointAtCommands("pr", LISTED);
    }
  }

  /** And the other way round, an alias for `web` is refused, as pointing at nothing. */
  lemma WebIsUnknown(name: string, expansion: string, existing: Aliases)
    requires HeadOf(expansion) == Some("web") && "web" !in existing && name != "web"
    ensures CheckExpansion(name, expansion, existing, LISTED) == Some(UnknownHead)
  {
    hide SplitWords, LISTED, Cycle;
    ListFits();
    BuiltinIsNotWeb();
  }

  lemma BuiltinIsNotWeb()
    ensures "web" !in BuiltinsFrom(0)
  {
    hide BuiltinsFrom;
    if "web" in BuiltinsFrom(0) {
      BuiltinIsListed(0, "web");
    }
  }
}
