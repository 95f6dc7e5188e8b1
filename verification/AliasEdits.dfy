/**
 What one edit of the alias table does, written out: when it is accepted, and what it leaves of
 every other entry.
 */
module AliasEdits {
  import opened Wrappers
  import opened Text
  import opened Splitter
  import opened Substitution
  import opened Expansion
  import opened AliasGraph
  import opened ExpansionLaws
  import opened AliasStore

  predicate Blank(s: string) {
    forall c | c in s :: IsSpace(c)
  }

  predicate Solid(s: string) {
    s != "" && forall c | c in s :: !IsSpace(c)
  }

  predicate Trimmed(s: string) {
    s == "" || (!IsSpace(s[0]) && !IsSpace(s[|s| - 1]))
  }

  lemma {:induction false} TrimStartMeans(s: string) returns (front: string)
    ensures Blank(front) && s == front + TrimStart(s) && (TrimStart(s) == "" || !IsSpace(TrimStart(s)[0]))
  {
    hide IsSpace;
    if s != "" && IsSpace(s[0]) {
      var more := TrimStartMeans(s[1..]);
      front := [s[0]] + more;
      assert s == [s[0]] + s[1..];
      Associate([s[0]], more, TrimStart(s[1..]));
    } else {
      front := "";
    }
  }

  lemma {:induction false} TrimEndMeans(s: string) returns (back: string)
    ensures Blank(back) && s == TrimEnd(s) + back && (TrimEnd(s) == "" || !IsSpace(TrimEnd(s)[|TrimEnd(s)| - 1]))
    ensures TrimEnd(s) != "" ==> TrimEnd(s)[0] == s[0]
  {
    if s != "" && IsSpace(s[|s| - 1]) {
      var init := s[..|s| - 1];
      back := TrimEndMeans(init);
      back := back + [s[|s| - 1]];
      assert s == init + [s[|s| - 1]];
    } else {
      back := "";
    }
  }

  /** Trimming takes whitespace off both ends, and only that, and all of it. */
  lemma TrimMeans(s: string) returns (front: string, back: string)
    ensures Blank(front) && Blank(back) && s == front + Trim(s) + back && Trimmed(Trim(s))
  {
    front := TrimStartMeans(s);
    back := TrimEndMeans(TrimStart(s));
    Associate(front, Trim(s), back);
  }

  lemma {:induction false} BlanksBefore(front: string, s: string)
    requires Blank(front)
    ensures WordCount(front + s, false) == WordCount(s, false)
  {
    if front == "" {
      assert front + s == s;
    } else {
      assert front[0] in front && (front + s)[1..] == front[1..] + s;
      BlanksBefore(front[1..], s);
    }
  }

  lemma {:induction false} BlanksBehind(s: string, back: string, inside: bool)
    requires Blank(back)
    ensures WordCount(s + back, inside) == WordCount(s, inside)
    decreases |s|
  {
    if s == "" {
      assert s + back == back;
      if back != "" {
        assert back[0] in back;
        BlanksBefore(back[1..], "");
        assert back[1..] + "" == back[1..];
      }
    } else {
      assert (s + back)[1..] == s[1..] + back;
      BlanksBehind(s[1..], back, !IsSpace(s[0]));
    }
  }

  lemma {:induction false} NoMoreWords(s: string, inside: bool)
    requires s == "" || !IsSpace(s[|s| - 1])
    ensures WordCount(s, inside) == 0 <==> s == "" || (inside && Solid(s))
    decreases |s|
  {
    if s != "" {
      NoMoreWords(s[1..], !IsSpace(s[0]));
      assert s == [s[0]] + s[1..];
    }
  }

  lemma OneWordExactly(s: string)
    ensures WordCount(s, false) == 1 <==> Solid(Trim(s))
  {
    hide Trim, IsSpace;
    var front, back := TrimMeans(s);
    var t := Trim(s);
    BlanksBehind(front + t, back, false);
    BlanksBefore(front, t);
    if t != "" {
      NoMoreWords(t[1..], true);
      assert t == [t[0]] + t[1..];
      assert WordCount(t, false) == 1 + WordCount(t[1..], true);
    }
  }

  /** A name is usable if it is one word, does not begin with a dash and is no listed command. */
  lemma NameMeans(name: string, listed: set<string>)
    ensures CheckName(name, listed)
            == if name == "" || name[0] == '-' || !Solid(Trim(name)) then Some(UnusableName)
               else if name in listed then Some(RealCommand) else None
  {
    hide Trim;
    OneWordExactly(name);
  }

  /** The built-ins, by name, for every name the user has not taken. */
  lemma BuiltinsMean(user: Aliases, k: string)
    ensures At(WithBuiltins(user), k)
            == if k in user then Some(user[k])
               else if k == "pull" then Some("pr")
               else if k == "labels" then Some("label")
               else if k == "ms" then Some("milestone")
               else if k == "login" then Some("auth login")
               else if k == "whoami" then Some("auth status")
               else None
  {
    BuiltinsAre();
    hide BuiltinsFrom;
  }

  lemma BuiltinsAre()
    ensures BuiltinsFrom(0) == map["pull" := "pr", "labels" := "label", "ms" := "milestone",
                                   "login" := "auth login", "whoami" := "auth status"]
  {
    assert BuiltinsFrom(5) == map[];
    assert BuiltinsFrom(4) == map["whoami" := "auth status"];
    assert BuiltinsFrom(3) == map["login" := "auth login", "whoami" := "auth status"];
    assert BuiltinsFrom(2) == map["ms" := "milestone", "login" := "auth login", "whoami" := "auth status"];
  }

  function At(aliases: Aliases, k: string): Option<string> {
    if k in aliases then Some(aliases[k]) else None
  }

  /** Some head word the program or the table knows. */
  predicate Known(head: string, existing: Aliases, listed: set<string>) {
    head in listed || head in existing || head in {"pull", "labels", "ms", "login", "whoami"}
  }

  /**
   An entry is accepted if and only if its name is usable, its text can be read and has a first
   word that is no option and is known, and the chain from the name, with this entry and the
   built-ins in place, leaves the table after at most ten aliases.
   */
  lemma AcceptedExactly(name: string, expansion: string, existing: Aliases, listed: set<string>)
    ensures Check(name, expansion, existing, listed).None?
            <==> && CheckName(name, listed).None?
                 && SplitWords(expansion).Ok? && SplitWords(expansion).value != []
                 && !StartsWithDash(SplitWords(expansion).value[0])
                 && (Known(SplitWords(expansion).value[0], existing, listed) || SplitWords(expansion).value[0] == name)
                 && EndsWithin(FullGraph(existing[name := expansion]), name, 10)
  {
    hide SplitWords, BuiltinsFrom, CheckName, Cycle, EndsWithin;
    BuiltinsAre();
    if SplitWords(expansion).Ok? && SplitWords(expansion).value != [] {
      assert HeadOf(expansion).Some?;
      SetChangesOneEdge(existing, name, expansion);
      var g := FullGraph(existing[name := expansion]);
      assert g == Graph(Read(WithBuiltins(existing)[name := expansion]));
      CycleFoundExactly(g, name);
      hide Graph, Read, WithBuiltins, FullGraph, HeadOf;
      assert CheckExpansion(name, expansion, existing, listed).None? ==> Cycle(g, name).None?;
    }
  }

  /** `set` changes the one entry, if it is accepted; both texts are trimmed first. */
  lemma SetMeans(name: string, expansion: string, existing: Aliases, listed: set<string>, k: string)
    ensures var after := Apply(Set(name, expansion), existing, listed);
            At(after, k) == if k == Trim(name) && Check(Trim(name), Trim(expansion), existing, listed).None?
                            then Some(Trim(expansion)) else At(existing, k)
  {
    hide Check, Trim;
  }

  /** `delete` takes the one entry away. */
  lemma DeleteMeans(name: string, existing: Aliases, listed: set<string>, k: string)
    ensures At(Apply(Delete(name), existing, listed), k) == if k == Trim(name) then None else At(existing, k)
  {
    hide Trim;
  }

  /** So deleting what was just set leaves the table as it was, but for an entry that was replaced. */
  lemma DeleteUndoesSet(name: string, expansion: string, existing: Aliases, listed: set<string>)
    ensures Apply(Delete(name), Apply(Set(name, expansion), existing, listed), listed) == existing - {Trim(name)}
  {
    hide Check, Trim;
  }

  /** An import takes its entries one after another, each judged against the table so far. */
  lemma {:induction false} ImportGrows(entries: seq<(string, string)>, e: (string, string), clobber: bool,
                                       existing: Aliases, listed: set<string>)
    ensures var so_far := Apply(Import(entries, clobber), existing, listed);
            var taken := (e.0 !in so_far || clobber) && Check(e.0, e.1, so_far, listed).None?;
            && Apply(Import([], clobber), existing, listed) == existing
            && Apply(Import(entries + [e], clobber), existing, listed) == (if taken then so_far[e.0 := e.1] else so_far)
            && Skipped(entries + [e], clobber, existing, listed)
               == Skipped(entries, clobber, existing, listed) + if taken then [] else [e.0]
    decreases |entries|
  {
    hide Check, Imported, Skipped;
    var all := entries + [e];
    ImportStep(all, 0, clobber, existing, listed);
    assert all[0..] == all;
    ImportEnds([], clobber, existing, listed);
    if entries == [] {
      var next := if Taken(e, clobber, existing, listed) then existing[e.0 := e.1] else existing;
      ImportEnds(all[1..], clobber, next, listed);
      assert all[0] == e && [e.0] + [] == [e.0] && [] + [e.0] == [e.0];
    } else {
      ImportStep(entries, 0, clobber, existing, listed);
      assert entries[0..] == entries && all[1..] == entries[1..] + [e];
      var first := entries[0];
      var next := if Taken(first, clobber, existing, listed) then existing[first.0 := first.1] else existing;
      ImportGrows(entries[1..], e, clobber, next, listed);
      hide Taken;
      var own := if Taken(first, clobber, existing, listed) then [] else [first.0];
      var so_far := Imported(entries, clobber, existing, listed);
      var taken := (e.0 !in so_far || clobber) && Check(e.0, e.1, so_far, listed).None?;
      Associate(own, Skipped(entries[1..], clobber, next, listed), if taken then [] else [e.0]);
    }
  }

  /** Without `--clobber` an import leaves every entry that was there as it was. */
  lemma {:induction false} ImportKeepsEntries(entries: seq<(string, string)>, existing: Aliases, listed: set<string>, k: string)
    requires k in existing
    ensures At(Apply(Import(entries, false), existing, listed), k) == Some(existing[k])
    decreases |entries|
  {
    hide Check;
    if entries != [] {
      var first := entries[0];
      ImportKeepsEntries(entries[1..], if Taken(first, false, existing, listed) then existing[first.0 := first.1] else existing,
                         listed, k);
    }
  }

  /** Everything an import leaves was there or is one of its entries, with its text. */
  lemma {:induction false} ImportAddsOnlyEntries(entries: seq<(string, string)>, clobber: bool, existing: Aliases,
                                                 listed: set<string>, k: string)
    ensures var after := Apply(Import(entries, clobber), existing, listed);
            At(after, k) == At(existing, k) || (k in after && (k, after[k]) in entries)
    decreases |entries|
  {
    hide Check;
    if entries != [] {
      var first := entries[0];
      ImportAddsOnlyEntries(entries[1..], clobber,
                            if Taken(first, clobber, existing, listed) then existing[first.0 := first.1] else existing,
                            listed, k);
      assert first in entries;
    }
  }
}
