/**
 The global flags, added around names the layer-2 subtree already claims: `taken`, `named`
 and `args`.
 */
module GlobalFlags {
  import opened Wrappers
  import opened FlagNames
  import opened Text

  /** An argument, as far as its names go. */
  datatype Arg = Arg(long: Option<string>, aliases: seq<string>, short: Option<char>)

  datatype Command = Command(args: seq<Arg>, subcommands: seq<Command>)

  /** A global flag as declared: its long name, its short, and a hidden alias. */
  datatype Global = Global(long: string, short: Option<char>, hidden: Option<string>)

  const GLOBALS: seq<Global> := [
    Global("host", None, Some("hostname")), Global("login", None, None), Global("repo", Some('R'), None),
    Global("json", None, None), Global("jq", Some('q'), None), Global("template", Some('t'), None),
    Global("color", None, None), Global("sudo", None, None), Global("otp", None, None), Global("debug", None, None),
    Global("no-retry", None, None), Global("max-retries", None, None), Global("insecure-skip-tls-verify", None, None),
    Global("paginate", None, None), Global("limit", None, None), Global("output", None, None),
    Global("force", None, None)
  ]

  function ShortName(c: char): string {
    ['-', c]
  }

  /** Every name an argument answers to; shorts with a dash, so they cannot pass for longs. */
  function NamesOf(a: Arg): seq<string> {
    (if a.long.Some? then [a.long.value] else []) + a.aliases
    + (if a.short.Some? then [ShortName(a.short.value)] else [])
  }

  function NamesOfAll(args: seq<Arg>): seq<string> {
    if args == [] then [] else NamesOf(args[0]) + NamesOfAll(args[1..])
  }

  lemma SetOfNone()
    ensures ToSet([]) == {}
  {
  }

  lemma SetOfArgs(args: seq<Arg>, i: nat)
    requires i < |args|
    ensures ToSet(NamesOfAll(args[i..])) == ToSet(NamesOf(args[i])) + ToSet(NamesOfAll(args[i + 1..]))
  {
    assert args[i..][0] == args[i] && args[i..][1..] == args[i + 1..];
  }

  /** The names claimed anywhere in a command tree. */
  function Names(c: Command): set<string> {
    ToSet(NamesOfAll(c.args)) + NamesBelow(c.subcommands)
  }

  function NamesBelow(cs: seq<Command>): set<string> {
    if cs == [] then {} else Names(cs[0]) + NamesBelow(cs[1..])
  }

  /** The set `taken` fills while it walks the tree. */
  class Taken {
    var out: set<string>

    constructor ()
      ensures out == {}
    {
      out := {};
    }

    method Insert(a: Arg)
      modifies this
      ensures out == old(out) + ToSet(NamesOf(a))
    {
      if a.long.Some? {
        out := out + {a.long.value};
      }
      out := out + set n | n in a.aliases;
      if a.short.Some? {
        out := out + {ShortName(a.short.value)};
      }
    }

    method Walk(c: Command)
      modifies this
      ensures out == old(out) + Names(c)
      decreases c
    {
      hide ToSet, NamesOf;
      var i := 0;
      assert c.args[0..] == c.args;
      while i < |c.args|
        invariant 0 <= i <= |c.args|
        invariant out + ToSet(NamesOfAll(c.args[i..])) == old(out) + ToSet(NamesOfAll(c.args))
      {
        Insert(c.args[i]);
        SetOfArgs(c.args, i);
        i := i + 1;
      }
      assert c.args[i..] == [];
      SetOfNone();
      WalkAll(c);
    }

    method WalkAll(c: Command)
      modifies this
      ensures out == old(out) + NamesBelow(c.subcommands)
      decreases c, 0
    {
      var i := 0;
      while i < |c.subcommands|
        invariant 0 <= i <= |c.subcommands|
        invariant out + NamesBelow(c.subcommands[i..]) == old(out) + NamesBelow(c.subcommands)
      {
        assert c.subcommands[i..][0] == c.subcommands[i] && c.subcommands[i..][1..] == c.subcommands[i + 1..];
        Walk(c.subcommands[i]);
        i := i + 1;
      }
      assert c.subcommands[i..] == [];
    }
  }

  /** A global with whichever of its names is free, or nothing if neither long nor short is. */
  function Named(g: Global, taken: set<string>): Option<Arg> {
    var longFree := g.long !in taken;
    var shortFree := g.short.Some? && ShortName(g.short.value) !in taken;
    if !longFree && !shortFree then None
    else
      Some(Arg(if longFree then Some(g.long) else None,
               if g.hidden.Some? && g.hidden.value !in taken then [g.hidden.value] else [],
               if shortFree then g.short else None))
  }

  function ArgsFrom(globals: seq<Global>, taken: set<string>): seq<Arg> {
    if globals == [] then []
    else (match Named(globals[0], taken) case None => [] case Some(a) => [a]) + ArgsFrom(globals[1..], taken)
  }

  /** The source's run of `push(named(..))`. */
  method ArgsOf(globals: seq<Global>, taken: set<string>) returns (out: seq<Arg>)
    ensures out == ArgsFrom(globals, taken)
  {
    hide Named;
    out := [];
    var i := 0;
    assert globals[0..] == globals;
    while i < |globals|
      invariant 0 <= i <= |globals|
      invariant out + ArgsFrom(globals[i..], taken) == ArgsFrom(globals, taken)
    {
      assert globals[i..][0] == globals[i] && globals[i..][1..] == globals[i + 1..];
      var a := Named(globals[i], taken);
      if a.Some? {
        out := out + [a.value];
      }
      i := i + 1;
    }
    assert globals[i..] == [] && out + [] == out;
  }

  // ------------------------------------------------------------------ nothing is doubled

  /** The names a global could use itself. */
  function Own(g: Global): seq<string> {
    [g.long] + (if g.hidden.Some? then [g.hidden.value] else [])
    + (if g.short.Some? then [ShortName(g.short.value)] else [])
  }

  /** All names the globals could use. */
  function Declared(globals: seq<Global>): seq<string> {
    if globals == [] then [] else Own(globals[0]) + Declared(globals[1..])
  }

  /** `a` is `b` with some elements left out. */
  predicate Thinned(a: seq<string>, b: seq<string>) {
    a == [] || (b != [] && ((a[0] == b[0] && Thinned(a[1..], b[1..])) || Thinned(a, b[1..])))
  }

  lemma {:induction false} ThinnedMembers(a: seq<string>, b: seq<string>, x: string)
    requires Thinned(a, b) && x in a
    ensures x in b
  {
    if a[0] == b[0] && Thinned(a[1..], b[1..]) {
      if x != a[0] {
        ThinnedMembers(a[1..], b[1..], x);
      }
    } else {
      ThinnedMembers(a, b[1..], x);
    }
  }

  lemma DistinctCons(x: string, rest: seq<string>)
    ensures Distinct([x] + rest) <==> x !in rest && Distinct(rest)
  {
    var s := [x] + rest;
    assert s[0] == x && forall i | 0 <= i < |rest| :: s[i + 1] == rest[i];
    if Distinct(s) {
      forall i, j | 0 <= i < j < |rest| ensures rest[i] != rest[j] {
        assert s[i + 1] != s[j + 1];
      }
    }
  }

  lemma {:induction false} ThinnedDistinct(a: seq<string>, b: seq<string>)
    requires Thinned(a, b) && Distinct(b)
    ensures Distinct(a)
  {
    if a != [] {
      assert b == [b[0]] + b[1..] && a == [a[0]] + a[1..];
      DistinctCons(b[0], b[1..]);
      if a[0] == b[0] && Thinned(a[1..], b[1..]) {
        ThinnedDistinct(a[1..], b[1..]);
        if a[0] in a[1..] {
          ThinnedMembers(a[1..], b[1..], a[0]);
        }
        DistinctCons(a[0], a[1..]);
      } else {
        ThinnedDistinct(a, b[1..]);
      }
    }
  }

  lemma {:induction false} ThinnedAppend(a: seq<string>, b: seq<string>, c: seq<string>, d: seq<string>)
    requires Thinned(a, b) && Thinned(c, d)
    ensures Thinned(a + c, b + d)
    decreases |b|
  {
    if b == [] {
      assert a + c == c && b + d == d;
    } else {
      assert (b + d)[0] == b[0] && (b + d)[1..] == b[1..] + d;
      if a != [] && a[0] == b[0] && Thinned(a[1..], b[1..]) {
        assert (a + c)[1..] == a[1..] + c;
        ThinnedAppend(a[1..], b[1..], c, d);
      } else {
        ThinnedAppend(a, b[1..], c, d);
      }
    }
  }

  lemma NamedIsThinned(g: Global, taken: set<string>)
    ensures Thinned(NamesOfAll(ArgsFrom([g], taken)), Declared([g]))
    ensures NoneTaken(NamesOfAll(ArgsFrom([g], taken)), taken)
  {
    assert [g][1..] == [];
    var named := Named(g, taken);
    if named.None? {
      assert ArgsFrom([g], taken) == [];
    } else {
      var a := named.value;
      assert ArgsFrom([g], taken) == [a] && [a][1..] == [];
      var names := NamesOf(a);
      assert NamesOfAll([a]) == names + [] == names;
      assert Declared([g]) == Own(g) + [] == Own(g);
      var l, h, s := [g.long], if g.hidden.Some? then [g.hidden.value] else [],
                     if g.short.Some? then [ShortName(g.short.value)] else [];
      var l', h', s' := if a.long.Some? then [a.long.value] else [], a.aliases,
                        if a.short.Some? then [ShortName(a.short.value)] else [];
      ThinnedAppend(l', l, h', h);
      ThinnedAppend(l' + h', l + h, s', s);
      assert Own(g) == l + h + s;
    }
  }

  lemma {:induction false} NamesOfAllAppend(a: seq<Arg>, b: seq<Arg>)
    ensures NamesOfAll(a + b) == NamesOfAll(a) + NamesOfAll(b)
  {
    if a == [] {
      assert a + b == b;
    } else {
      assert (a + b)[1..] == a[1..] + b;
      NamesOfAllAppend(a[1..], b);
    }
  }

  lemma ArgsFromCons(globals: seq<Global>, taken: set<string>)
    requires globals != []
    ensures ArgsFrom(globals, taken) == ArgsFrom([globals[0]], taken) + ArgsFrom(globals[1..], taken)
  {
    hide Named;
    var one := [globals[0]];
    assert one[1..] == [];
    var first: seq<Arg> := match Named(globals[0], taken) case None => [] case Some(a) => [a];
    assert ArgsFrom(one, taken) == first + ArgsFrom([], taken) == first;
    assert ArgsFrom(globals, taken) == first + ArgsFrom(globals[1..], taken);
  }

  predicate NoneTaken(names: seq<string>, taken: set<string>) {
    forall n | n in names :: n !in taken
  }

  lemma {:induction false} GlobalNames(globals: seq<Global>, taken: set<string>)
    ensures Thinned(NamesOfAll(ArgsFrom(globals, taken)), Declared(globals))
    ensures NoneTaken(NamesOfAll(ArgsFrom(globals, taken)), taken)
  {
    if globals != [] {
      var g, rest := globals[0], globals[1..];
      NamedIsThinned(g, taken);
      GlobalNames(rest, taken);
      DeclaredCons(globals);
      ArgsFromCons(globals, taken);
      hide Thinned, NamesOfAll, ArgsFrom, Declared;
      var first := ArgsFrom([g], taken);
      NamesOfAllAppend(first, ArgsFrom(rest, taken));
      ThinnedAppend(NamesOfAll(first), Declared([g]), NamesOfAll(ArgsFrom(rest, taken)), Declared(rest));
    }
  }

  lemma DeclaredCons(globals: seq<Global>)
    requires globals != []
    ensures Declared(globals) == Declared([globals[0]]) + Declared(globals[1..])
  {
    hide Own;
    var first := [globals[0]];
    assert Declared(globals) == Own(globals[0]) + Declared(globals[1..]);
    assert first[1..] == [] && Declared(first) == Own(globals[0]) + Declared(first[1..]);
    assert Declared(first[1..]) == [] && Own(globals[0]) + [] == Own(globals[0]);
  }

  /** The global flags' own names, in the order they are declared. */
  const DECLARED: seq<string> :=
    ["host", "hostname", "login", "repo", "-R", "json", "jq", "-q", "template", "-t", "color", "sudo", "otp", "debug",
     "no-retry", "max-retries", "insecure-skip-tls-verify", "paginate", "limit", "output", "force"]

  lemma DeclaredPlain(globals: seq<Global>, names: seq<string>, i: nat, k: nat)
    requires i < |globals| && k < |names|
    requires globals[i] == Global(names[k], None, None)
    requires Declared(globals[i + 1..]) == names[k + 1..]
    ensures Declared(globals[i..]) == names[k..]
  {
    assert globals[i..][0] == globals[i] && globals[i..][1..] == globals[i + 1..];
    assert Own(globals[i]) == [names[k]];
    hide Own;
    assert Declared(globals[i..]) == [names[k]] + names[k + 1..];
  }

  /** A global with a second name, long or short. */
  lemma DeclaredPair(globals: seq<Global>, names: seq<string>, i: nat, k: nat)
    requires i < |globals| && k + 1 < |names| && globals[i].long == names[k]
    requires || (globals[i].short.None? && globals[i].hidden == Some(names[k + 1]))
             || (globals[i].hidden.None? && globals[i].short.Some? && ShortName(globals[i].short.value) == names[k + 1])
    requires Declared(globals[i + 1..]) == names[k + 2..]
    ensures Declared(globals[i..]) == names[k..]
  {
    assert globals[i..][0] == globals[i] && globals[i..][1..] == globals[i + 1..];
    assert Own(globals[i]) == [names[k], names[k + 1]];
    hide Own;
    assert Declared(globals[i..]) == [names[k], names[k + 1]] + names[k + 2..];
  }

  predicate IsPlain(i: nat, k: nat) {
    i < |GLOBALS| && k < |DECLARED| && GLOBALS[i] == Global(DECLARED[k], None, None)
  }

  predicate IsLater(i: nat) {
    IsPlain(i, i + 4)
  }

  predicate IsPair(i: nat, k: nat) {
    && i < |GLOBALS| && k + 1 < |DECLARED| && GLOBALS[i].long == DECLARED[k]
    && (|| (GLOBALS[i].short.None? && GLOBALS[i].hidden == Some(DECLARED[k + 1]))
        || (GLOBALS[i].hidden.None? && GLOBALS[i].short.Some? && ShortName(GLOBALS[i].short.value) == DECLARED[k + 1]))
  }

  lemma FirstGlobals()
    ensures IsPair(0, 0) && IsPlain(1, 2) && IsPair(2, 3) && IsPlain(3, 5) && IsPair(4, 6) && IsPair(5, 8)
  {
  }

  lemma MiddleGlobals()
    ensures forall i: nat | 6 <= i < 12 :: IsLater(i)
  {
  }

  lemma LastGlobals()
    ensures forall i: nat | 12 <= i < 17 :: IsLater(i)
    ensures |GLOBALS| == 17 && |DECLARED| == 21
  {
  }

  /** From the sixth on, one name each. */
  lemma {:induction false} DeclaredFrom(i: nat)
    requires 6 <= i <= |GLOBALS| == 17 && |DECLARED| == 21
    ensures Declared(GLOBALS[i..]) == DECLARED[i + 4..]
    decreases |GLOBALS| - i
  {
    hide GLOBALS, DECLARED, Declared, Own;
    if i == |GLOBALS| {
      assert GLOBALS[i..] == [] && DECLARED[i + 4..] == [];
      NoneDeclared();
    } else {
      MiddleGlobals();
      LastGlobals();
      assert IsLater(i);
      DeclaredFrom(i + 1);
      DeclaredPlain(GLOBALS, DECLARED, i, i + 4);
    }
  }

  lemma NoneDeclared()
    ensures Declared([]) == []
  {
  }

  lemma DeclaredNames()
    ensures Declared(GLOBALS) == DECLARED
  {
    hide GLOBALS, DECLARED, Declared, Own;
    FirstGlobals();
    LastGlobals();
    DeclaredFrom(6);
    DeclaredPair(GLOBALS, DECLARED, 5, 8);
    DeclaredPair(GLOBALS, DECLARED, 4, 6);
    DeclaredPlain(GLOBALS, DECLARED, 3, 5);
    DeclaredPair(GLOBALS, DECLARED, 2, 3);
    DeclaredPlain(GLOBALS, DECLARED, 1, 2);
    DeclaredPair(GLOBALS, DECLARED, 0, 0);
    assert GLOBALS[0..] == GLOBALS && DECLARED[0..] == DECLARED;
  }

  predicate DistinctBetween(names: seq<string>, lo: nat, hi: nat) {
    forall i, j | 0 <= i < j < |names| && lo <= j < hi :: names[i] != names[j]
  }

  lemma DistinctEarly()
    ensures DistinctBetween(DECLARED, 0, 11)
  {
  }

  lemma DistinctMiddle()
    ensures DistinctBetween(DECLARED, 11, 16)
  {
  }

  lemma DistinctLate()
    ensures DistinctBetween(DECLARED, 16, 21)
  {
  }

  lemma DeclaredDistinct()
    ensures Distinct(DECLARED)
  {
    DistinctEarly();
    DistinctMiddle();
    DistinctLate();
  }

  /** `c` is `root` or a command somewhere below it. */
  predicate InTree(c: Command, root: Command) {
    c == root || InAny(c, root.subcommands)
  }

  predicate InAny(c: Command, roots: seq<Command>) {
    roots != [] && (InTree(c, roots[0]) || InAny(c, roots[1..]))
  }

  /** The walk misses no command, however deep. */
  lemma {:induction false} WalkReaches(c: Command, root: Command)
    requires InTree(c, root)
    ensures ToSet(NamesOfAll(c.args)) <= Names(root)
    decreases root
  {
    if c != root {
      WalkReachesAny(c, root.subcommands);
    }
  }

  lemma {:induction false} WalkReachesAny(c: Command, roots: seq<Command>)
    requires InAny(c, roots)
    ensures ToSet(NamesOfAll(c.args)) <= NamesBelow(roots)
    decreases roots
  {
    if InTree(c, roots[0]) {
      WalkReaches(c, roots[0]);
    } else {
      WalkReachesAny(c, roots[1..]);
    }
  }

  lemma DistinctAppend(a: seq<string>, b: seq<string>)
    requires Distinct(a) && Distinct(b) && ToSet(a) !! ToSet(b)
    ensures Distinct(a + b)
  {
    var s := a + b;
    forall i, j | 0 <= i < j < |s| ensures s[i] != s[j] {
      if i < |a| <= j {
        assert s[i] in ToSet(a) && s[j] == b[j - |a|] && b[j - |a|] in ToSet(b);
      } else if |a| <= i {
        assert s[i] == b[i - |a|] && s[j] == b[j - |a|];
      }
    }
  }

  /**
   The globals reach every command below the root, and none of those then answers to one
   name twice, if none did before.
   */
  lemma NoNameTwice(root: Command, c: Command)
    requires InTree(c, root) && Distinct(NamesOfAll(c.args))
    ensures Distinct(NamesOfAll(c.args + ArgsFrom(GLOBALS, Names(root))))
  {
    hide NamesOfAll, ArgsFrom, Declared, InTree;
    var taken := Names(root);
    var own, added := NamesOfAll(c.args), NamesOfAll(ArgsFrom(GLOBALS, taken));
    WalkReaches(c, root);
    GlobalNames(GLOBALS, taken);
    DeclaredNames();
    DeclaredDistinct();
    ThinnedDistinct(added, Declared(GLOBALS));
    DistinctAppend(own, added);
    NamesOfAllAppend(c.args, ArgsFrom(GLOBALS, taken));
  }

  /** What a parameter's long name becomes: a flag with no other name. */
  function LongFlags(longs: seq<string>): (r: seq<Arg>)
  {
    if longs == [] then [] else [Arg(Some(longs[0]), [], None)] + LongFlags(longs[1..])
  }

  lemma {:induction false} LongFlagsNames(longs: seq<string>)
    ensures NamesOfAll(LongFlags(longs)) == longs
  {
    if longs != [] {
      LongFlagsNames(longs[1..]);
      assert NamesOf(Arg(Some(longs[0]), [], None)) == [longs[0]];
      assert LongFlags(longs)[1..] == LongFlags(longs[1..]);
      assert longs == [longs[0]] + longs[1..];
    }
  }

  /**
   The claim clap checks with a panic: a leaf built for any operation at all, anywhere in a
   tree, has no long, alias or short twice once the globals are on it.
   */
  lemma LeafNeverClashes(root: Command, leaf: Command, op: Operation, names: seq<string>)
    requires GivenInTurn(ToSet(Reserved(op)), Requests(op), names)
    requires leaf.args == LongFlags(names + Reserved(op)) && InTree(leaf, root)
    ensures Distinct(NamesOfAll(leaf.args + ArgsFrom(GLOBALS, Names(root))))
  {
    LongsAreDistinct(op, names);
    LongFlagsNames(names + Reserved(op));
    NoNameTwice(root, leaf);
  }

  /** A global keeps its long, and its short, exactly when the tree has not claimed that name. */
  lemma {:induction false} GlobalsKeepFreeNames(globals: seq<Global>, g: Global, taken: set<string>)
    requires g in globals
    ensures g.long in NamesOfAll(ArgsFrom(globals, taken)) <==> g.long !in taken
    ensures g.short.Some? ==>
              (ShortName(g.short.value) in NamesOfAll(ArgsFrom(globals, taken)) <==> ShortName(g.short.value) !in taken)
  {
    GlobalNames(globals, taken);
    ArgsFromCons(globals, taken);
    NamesOfAllAppend(ArgsFrom([globals[0]], taken), ArgsFrom(globals[1..], taken));
    if g != globals[0] {
      GlobalsKeepFreeNames(globals[1..], g, taken);
    }
  }

  /** No global becomes a positional: each one added has a long or a short. */
  lemma {:induction false} GlobalsAreFlags(globals: seq<Global>, taken: set<string>, a: Arg)
    requires a in ArgsFrom(globals, taken)
    ensures a.long.Some? || a.short.Some?
  {
    if Named(globals[0], taken) != Some(a) {
      GlobalsAreFlags(globals[1..], taken, a);
    }
  }

  // ------------------------------------------------------------------ the names, one by one

  /** An argument answers to its long, its aliases and its short with a dash. */
  lemma NamesMean(a: Arg, n: string)
    ensures n in NamesOf(a) <==> a.long == Some(n) || n in a.aliases || (a.short.Some? && n == ['-', a.short.value])
  {
  }

  lemma {:induction false} NamesOfAllMean(args: seq<Arg>, n: string)
    ensures n in NamesOfAll(args) <==> exists a :: a in args && n in NamesOf(a)
  {
    if args != [] {
      hide NamesOf;
      NamesOfAllMean(args[1..], n);
      assert args == [args[0]] + args[1..];
    }
  }

  /** What the walk collects are the names of the commands of the tree, and no others. */
  lemma {:induction false} NamesExactly(root: Command, n: string)
    ensures n in Names(root) <==> exists c :: InTree(c, root) && n in NamesOfAll(c.args)
    decreases root
  {
    hide NamesOfAll;
    NamesBelowExactly(root.subcommands, n);
    forall c | InTree(c, root) && n in NamesOfAll(c.args) ensures n in Names(root) {
      WalkReaches(c, root);
    }
    if n in NamesOfAll(root.args) {
      assert InTree(root, root);
    } else if n in Names(root) {
      var c :| InAny(c, root.subcommands) && n in NamesOfAll(c.args);
      assert InTree(c, root);
    }
  }

  lemma {:induction false} NamesBelowExactly(roots: seq<Command>, n: string)
    ensures n in NamesBelow(roots) <==> exists c :: InAny(c, roots) && n in NamesOfAll(c.args)
    decreases roots
  {
    hide NamesOfAll, Names;
    if roots != [] {
      NamesExactly(roots[0], n);
      NamesBelowExactly(roots[1..], n);
      if n in Names(roots[0]) {
        var c :| InTree(c, roots[0]) && n in NamesOfAll(c.args);
        assert InAny(c, roots);
      } else if n in NamesBelow(roots[1..]) {
        var c :| InAny(c, roots[1..]) && n in NamesOfAll(c.args);
        assert InAny(c, roots);
      }
    }
  }

  /** One global is added with each of its names that is free, and left out if neither its long nor its short is. */
  lemma OneGlobalMeans(g: Global, taken: set<string>, n: string)
    ensures var dash: seq<string> := if g.short.Some? then [['-', g.short.value]] else [];
            var comes := g.long !in taken || (exists s | s in dash :: s !in taken);
            && (ArgsFrom([g], taken) == [] <==> !comes)
            && (n in NamesOfAll(ArgsFrom([g], taken))
                <==> comes && n !in taken && (n == g.long || Some(n) == g.hidden || n in dash))
  {
    assert [g][1..] == [];
    var args := ArgsFrom([g], taken);
    if args != [] {
      assert args == [args[0]] && args[1..] == [];
      NamesOfAllMean(args, n);
      NamesMean(args[0], n);
    }
  }
}
