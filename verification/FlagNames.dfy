/**
 Long flag names for one operation: `unique_long` and the claims `leaf_command` makes.

 clap panics on a duplicate long name, so what matters is that no name is given twice,
 whatever the generated tables contain, and that the search for a free one ends.
 */
module FlagNames {
  import opened Text

  function Decimal(n: nat): string {
    if n < 10 then [Digit(n)] else Decimal(n / 10) + [Digit(n % 10)]
  }

  function Digit(d: nat): char
    requires d < 10
  {
    "0123456789"[d]
  }

  /** Different numbers are written differently. */
  lemma {:induction false} DecimalInjective(a: nat, b: nat)
    requires Decimal(a) == Decimal(b)
    ensures a == b
    decreases a
  {
    var s, t := Decimal(a), Decimal(b);
    if a < 10 && b < 10 {
      assert s[0] == t[0];
    } else if a >= 10 && b >= 10 {
      assert s[|s| - 1] == Digit(a % 10) && t[|t| - 1] == Digit(b % 10);
      assert s[..|s| - 1] == Decimal(a / 10) && t[..|t| - 1] == Decimal(b / 10);
      DecimalInjective(a / 10, b / 10);
    }
  }

  // ----------------------------------------------------------------------- unique_long

  function Candidates(preferred: string, kind: string): seq<string> {
    [preferred] + (if preferred == "limit" then ["per-page"] else []) + [kind + "-" + preferred]
  }

  function Numbered(preferred: string, n: nat): string {
    preferred + "-" + Decimal(n)
  }

  predicate AllTaken(names: seq<string>, used: set<string>) {
    forall n | n in names :: n in used
  }

  predicate NumbersTaken(preferred: string, used: set<string>, n: nat) {
    forall m: nat | 2 <= m < n :: Numbered(preferred, m) in used
  }

  /** `name` is the first of `cs` that is free. */
  predicate FirstFree(cs: seq<string>, used: set<string>, name: string) {
    name !in used && exists i | 0 <= i < |cs| :: name == cs[i] && AllTaken(cs[..i], used)
  }

  /** `name` is numbered with the least number that is free, and that number is small. */
  predicate LeastNumber(preferred: string, used: set<string>, name: string) {
    && name !in used
    && exists n: nat | 2 <= n <= |used| + 2 :: name == Numbered(preferred, n) && NumbersTaken(preferred, used, n)
  }

  /** `name` is what the source's search settles on. */
  predicate Allocates(used: set<string>, preferred: string, kind: string, name: string) {
    var cs := Candidates(preferred, kind);
    FirstFree(cs, used, name) || (AllTaken(cs, used) && LeastNumber(preferred, used, name))
  }

  /** The taken numbers are that many different names. */
  lemma {:induction false} TakenNumbersAreMany(preferred: string, used: set<string>, n: nat) returns (names: set<string>)
    requires n >= 2 && NumbersTaken(preferred, used, n)
    ensures names <= used && |names| == n - 2
    ensures forall x | x in names :: exists m: nat :: 2 <= m < n && x == Numbered(preferred, m)
    decreases n
  {
    if n == 2 {
      names := {};
    } else {
      var fewer := TakenNumbersAreMany(preferred, used, n - 1);
      var last := Numbered(preferred, n - 1);
      if last in fewer {
        var m: nat :| 2 <= m < n - 1 && last == Numbered(preferred, m);
        NumberedInjective(preferred, m, n - 1);
        assert false;
      }
      names := fewer + {last};
    }
  }

  lemma NumberedInjective(preferred: string, a: nat, b: nat)
    requires Numbered(preferred, a) == Numbered(preferred, b)
    ensures a == b
  {
    var k := |preferred| + 1;
    assert Numbered(preferred, a)[k..] == Decimal(a) && Numbered(preferred, b)[k..] == Decimal(b);
    DecimalInjective(a, b);
  }

  lemma SubsetSize(a: set<string>, b: set<string>)
    requires a <= b
    ensures |a| <= |b|
  {
    if a != {} {
      var x :| x in a;
      SubsetSize(a - {x}, b - {x});
    }
  }

  /** Pigeonhole: there are no more taken numbers than used names. */
  lemma TakenNumbersAreFew(preferred: string, used: set<string>, n: nat)
    requires n >= 2 && NumbersTaken(preferred, used, n)
    ensures n - 2 <= |used|
  {
    var names := TakenNumbersAreMany(preferred, used, n);
    SubsetSize(names, used);
  }

  /** The names claimed so far for one command. */
  class Claims {
    var used: set<string>

    constructor (reserved: set<string>)
      ensures used == reserved
    {
      used := reserved;
    }

    method UniqueLong(preferred: string, kind: string) returns (name: string)
      modifies this
      ensures Allocates(old(used), preferred, kind, name)
      ensures used == old(used) + {name}
    {
      var candidates := Candidates(preferred, kind);
      var i := 0;
      while i < |candidates|
        invariant 0 <= i <= |candidates|
        invariant used == old(used) && AllTaken(candidates[..i], used)
      {
        name := candidates[i];
        if name !in used {
          used := used + {name};
          return;
        }
        assert candidates[..i + 1] == candidates[..i] + [candidates[i]];
        i := i + 1;
      }
      assert candidates[..i] == candidates;
      var n := 2;
      TakenNumbersAreFew(preferred, used, n);
      while true
        invariant used == old(used)
        invariant 2 <= n <= |used| + 2 && NumbersTaken(preferred, used, n)
        decreases |used| + 2 - n
      {
        name := Numbered(preferred, n);
        if name !in used {
          used := used + {name};
          return;
        }
        assert NumbersTaken(preferred, used, n + 1);
        TakenNumbersAreFew(preferred, used, n + 1);
        n := n + 1;
      }
    }
  }

  /** A preferred name is changed exactly when it was already claimed. */
  lemma PreferredUnlessClaimed(used: set<string>, preferred: string, kind: string, name: string)
    requires Allocates(used, preferred, kind, name)
    ensures name == preferred <==> preferred !in used
  {
    var cs := Candidates(preferred, kind);
    assert cs[0] == preferred;
    forall i | 0 < i < |cs| ensures preferred in cs[..i] {
      assert cs[..i][0] == preferred;
    }
    assert preferred in cs;
  }

  /** What the search settles on is determined by what is claimed. */
  lemma AllocationIsDetermined(used: set<string>, preferred: string, kind: string, a: string, b: string)
    requires Allocates(used, preferred, kind, a) && Allocates(used, preferred, kind, b)
    ensures a == b
  {
  }

  // ---------------------------------------------------------------------- leaf_command

  /** The flags an operation asks for, by where their values go. */
  datatype Operation = Operation(path: seq<string>, query: seq<string>, form: seq<string>, body: seq<string>, paged: bool)

  datatype Request = Request(preferred: string, kind: string)

  function Kinded(flags: seq<string>, kind: string): (r: seq<Request>)
  {
    if flags == [] then [] else [Request(flags[0], kind)] + Kinded(flags[1..], kind)
  }

  /** Every name asked for, in the order it is claimed. */
  function Requests(op: Operation): seq<Request> {
    Kinded(op.path, "param") + Kinded(op.query, "query") + Kinded(op.form, "form") + Kinded(op.body, "body")
  }

  /** The names the engine itself puts on the command. */
  function Reserved(op: Operation): seq<string> {
    ["body-file", "dry-run"] + if op.paged then ["paginate", "limit"] else []
  }

  /** Names given one after another, each with all earlier ones claimed. */
  predicate GivenInTurn(claimed: set<string>, requests: seq<Request>, names: seq<string>) {
    && |names| == |requests|
    && forall i | 0 <= i < |names| ::
         Allocates(claimed + ToSet(names[..i]), requests[i].preferred, requests[i].kind, names[i])
  }

  lemma GivenInTurnAppend(claimed: set<string>, requests: seq<Request>, names: seq<string>, r: Request, name: string)
    requires GivenInTurn(claimed, requests, names)
    requires Allocates(claimed + ToSet(names), r.preferred, r.kind, name)
    ensures GivenInTurn(claimed, requests + [r], names + [name])
    ensures ToSet(names + [name]) == ToSet(names) + {name}
  {
    hide Allocates;
    var all := names + [name];
    forall i | 0 <= i < |all|
      ensures Allocates(claimed + ToSet(all[..i]), (requests + [r])[i].preferred, (requests + [r])[i].kind, all[i])
    {
      if i < |names| {
        assert all[..i] == names[..i];
      } else {
        assert all[..i] == names;
      }
    }
    assert forall n :: n in all <==> n in names || n == name;
  }

  /** One of `leaf_command`'s loops. */
  method ClaimEach(claims: Claims, flags: seq<string>, kind: string,
                   ghost reserved: set<string>, ghost requests: seq<Request>, names: seq<string>)
    returns (more: seq<string>)
    requires GivenInTurn(reserved, requests, names) && claims.used == reserved + ToSet(names)
    modifies claims
    ensures names <= more && GivenInTurn(reserved, requests + Kinded(flags, kind), more)
    ensures claims.used == reserved + ToSet(more)
  {
    hide GivenInTurn, Allocates, ToSet;
    more := names;
    ghost var done := requests;
    assert requests + Kinded(flags, kind) == done + Kinded(flags[0..], kind) by { assert flags[0..] == flags; }
    var i := 0;
    while i < |flags|
      invariant 0 <= i <= |flags| && names <= more
      invariant GivenInTurn(reserved, done, more) && claims.used == reserved + ToSet(more)
      invariant requests + Kinded(flags, kind) == done + Kinded(flags[i..], kind)
    {
      assert flags[i..][0] == flags[i] && flags[i..][1..] == flags[i + 1..];
      var name := claims.UniqueLong(flags[i], kind);
      GivenInTurnAppend(reserved, done, more, Request(flags[i], kind), name);
      more := more + [name];
      done := done + [Request(flags[i], kind)];
      i := i + 1;
    }
    assert flags[i..] == [] && done + [] == done;
  }

  /** The longs of one full command: the parameters' in order, then the engine's own. */
  method LeafLongs(op: Operation) returns (longs: seq<string>)
    ensures exists names :: GivenInTurn(ToSet(Reserved(op)), Requests(op), names) && longs == names + Reserved(op)
  {
    hide Allocates, Kinded;
    ghost var reserved := ToSet(Reserved(op));
    var claims := new Claims(set n | n in Reserved(op));
    assert ToSet([]) == {} && reserved + {} == reserved;
    var names := ClaimEach(claims, op.path, "param", reserved, [], []);
    names := ClaimEach(claims, op.query, "query", reserved, [] + Kinded(op.path, "param"), names);
    names := ClaimEach(claims, op.form, "form", reserved,
                       [] + Kinded(op.path, "param") + Kinded(op.query, "query"), names);
    names := ClaimEach(claims, op.body, "body", reserved,
                       [] + Kinded(op.path, "param") + Kinded(op.query, "query") + Kinded(op.form, "form"), names);
    assert [] + Kinded(op.path, "param") == Kinded(op.path, "param");
    assert GivenInTurn(ToSet(Reserved(op)), Requests(op), names);
    longs := names + Reserved(op);
  }

  predicate Distinct(names: seq<string>) {
    forall i, j | 0 <= i < j < |names| :: names[i] != names[j]
  }

  /** No long of a command is given twice, whatever the operation asks for. */
  lemma LongsAreDistinct(op: Operation, names: seq<string>)
    requires GivenInTurn(ToSet(Reserved(op)), Requests(op), names)
    ensures Distinct(names + Reserved(op))
  {
    var reserved := Reserved(op);
    var all := names + reserved;
    forall i | 0 <= i < |names| ensures names[i] !in ToSet(reserved) && names[i] !in names[..i] {
    }
    forall i, j | 0 <= i < j < |all| ensures all[i] != all[j] {
      if j < |names| {
        assert names[..j][i] == names[i];
      } else if i < |names| {
        assert all[j] == reserved[j - |names|] && reserved[j - |names|] in ToSet(reserved);
      } else {
        assert all[i] == reserved[i - |names|] && all[j] == reserved[j - |names|];
      }
    }
  }

  /** A flag keeps the name it prefers exactly when nobody before it, nor the engine, has it. */
  lemma PreferredNamesAreKept(op: Operation, names: seq<string>, i: nat)
    requires GivenInTurn(ToSet(Reserved(op)), Requests(op), names) && i < |names|
    ensures names[i] == Requests(op)[i].preferred
            <==> Requests(op)[i].preferred !in Reserved(op) && Requests(op)[i].preferred !in names[..i]
  {
    var r := Requests(op)[i];
    PreferredUnlessClaimed(ToSet(Reserved(op)) + ToSet(names[..i]), r.preferred, r.kind, names[i]);
  }

  // ---------------------------------------------------------------- what is given, by name

  /** The name for a flag, case by case. */
  lemma AllocationMeans(used: set<string>, preferred: string, kind: string, name: string)
    requires Allocates(used, preferred, kind, name)
    ensures if preferred !in used then name == preferred
            else if preferred == "limit" && "per-page" !in used then name == "per-page"
            else if kind + "-" + preferred !in used then name == kind + "-" + preferred
            else
              && name !in used
              && exists n: nat :: 2 <= n && name == preferred + "-" + Decimal(n) && NumbersTaken(preferred, used, n)
  {
    var cs := Candidates(preferred, kind);
    assert preferred == cs[0] && preferred in cs && kind + "-" + preferred == cs[|cs| - 1];
    PreferredUnlessClaimed(used, preferred, kind, name);
    if preferred in used && FirstFree(cs, used, name) {
      var i :| 0 <= i < |cs| && name == cs[i] && AllTaken(cs[..i], used);
      assert i > 1 ==> cs[..i][1] == cs[1] && cs[1] in cs[..i];
    }
    if AllTaken(cs, used) {
      assert cs[1] in cs && cs[|cs| - 1] in cs;
    }
  }

  lemma {:induction false} KindedMeans(flags: seq<string>, kind: string)
    ensures |Kinded(flags, kind)| == |flags|
    ensures forall i | 0 <= i < |flags| :: Kinded(flags, kind)[i] == Request(flags[i], kind)
  {
    if flags != [] {
      KindedMeans(flags[1..], kind);
    }
  }

  /** The names the engine claims for itself. */
  function Engine(op: Operation): set<string> {
    {"body-file", "dry-run"} + if op.paged then {"paginate", "limit"} else {}
  }

  /** The `k`-th long is the one for this flag, given those before it and the engine's own. */
  predicate NamedFor(op: Operation, names: seq<string>, k: nat, flag: string, kind: string) {
    k < |names| && Allocates(Engine(op) + ToSet(names[..k]), flag, kind, names[k])
  }

  /** The longs from the `from`-th on are those for these flags. */
  predicate NamedInTurn(op: Operation, names: seq<string>, from: nat, flags: seq<string>, kind: string) {
    forall i | 0 <= i < |flags| :: NamedFor(op, names, from + i, flags[i], kind)
  }

  lemma OneKind(op: Operation, names: seq<string>, front: seq<Request>, flags: seq<string>, kind: string, rest: seq<Request>)
    requires GivenInTurn(ToSet(Reserved(op)), front + Kinded(flags, kind) + rest, names)
    ensures NamedInTurn(op, names, |front|, flags, kind)
  {
    hide Allocates, Kinded;
    KindedMeans(flags, kind);
    assert ToSet(Reserved(op)) == Engine(op);
    var all := front + Kinded(flags, kind) + rest;
    forall i | 0 <= i < |flags| ensures NamedFor(op, names, |front| + i, flags[i], kind) {
      assert all[|front| + i] == Request(flags[i], kind);
    }
  }

  /** Each flag has one long: first the path's, then the query's, the form's and the body's, each kind in its order. */
  lemma EachFlagHasItsLong(op: Operation, names: seq<string>)
    requires GivenInTurn(ToSet(Reserved(op)), Requests(op), names)
    ensures var (p, q, f) := (|op.path|, |op.query|, |op.form|);
            && |names| == p + q + f + |op.body|
            && NamedInTurn(op, names, 0, op.path, "param") && NamedInTurn(op, names, p, op.query, "query")
            && NamedInTurn(op, names, p + q, op.form, "form") && NamedInTurn(op, names, p + q + f, op.body, "body")
  {
    hide Requests, GivenInTurn, NamedInTurn, Reserved, Kinded;
    AsManyAsFlags(op, names);
    InFourParts(op);
    FourKinds(op, names, Requests(op));
  }

  lemma InFourParts(op: Operation)
    ensures Requests(op)
            == Kinded(op.path, "param") + Kinded(op.query, "query") + Kinded(op.form, "form") + Kinded(op.body, "body")
  {
  }

  lemma FourKinds(op: Operation, names: seq<string>, all: seq<Request>)
    requires GivenInTurn(ToSet(Reserved(op)), all, names)
    requires all == Kinded(op.path, "param") + Kinded(op.query, "query") + Kinded(op.form, "form") + Kinded(op.body, "body")
    ensures var (a, b, c) := (Kinded(op.path, "param"), Kinded(op.query, "query"), Kinded(op.form, "form"));
            && NamedInTurn(op, names, 0, op.path, "param") && NamedInTurn(op, names, |a|, op.query, "query")
            && NamedInTurn(op, names, |a + b|, op.form, "form") && NamedInTurn(op, names, |a + b + c|, op.body, "body")
  {
    hide GivenInTurn, NamedInTurn, Reserved, ToSet;
    var (a, b) := (Kinded(op.path, "param"), Kinded(op.query, "query"));
    var (c, d) := (Kinded(op.form, "form"), Kinded(op.body, "body"));
    Apart(a, b, c, d);
    OneKind(op, names, [], op.path, "param", b + c + d);
    OneKind(op, names, a, op.query, "query", c + d);
    OneKind(op, names, a + b, op.form, "form", d);
    OneKind(op, names, a + b + c, op.body, "body", []);
  }

  lemma Apart<T>(a: seq<T>, b: seq<T>, c: seq<T>, d: seq<T>)
    ensures a + b + c + d == [] + a + (b + c + d)
    ensures a + b + c + d == a + b + (c + d)
    ensures a + b + c + d == a + b + c + d + []
  {
  }

  lemma AsManyAsFlags(op: Operation, names: seq<string>)
    requires GivenInTurn(ToSet(Reserved(op)), Requests(op), names)
    ensures |names| == |op.path| + |op.query| + |op.form| + |op.body|
    ensures |Kinded(op.path, "param")| == |op.path| && |Kinded(op.query, "query")| == |op.query|
    ensures |Kinded(op.form, "form")| == |op.form|
  {
    hide Kinded, Allocates, ToSet, Reserved;
    KindedMeans(op.path, "param");
    KindedMeans(op.query, "query");
    KindedMeans(op.form, "form");
    KindedMeans(op.body, "body");
  }

  /**
   The query's `limit` is `--per-page` where the engine has `--limit`, and `--limit` where not,
   if nobody before it took the name.
   */
  lemma LimitIsPerPage(op: Operation, names: seq<string>, i: nat)
    requires GivenInTurn(ToSet(Reserved(op)), Requests(op), names)
    requires i < |op.query| && op.query[i] == "limit"
    ensures |op.path| + i < |names|
    ensures var k := |op.path| + i;
            && (op.paged && "per-page" !in names[..k] ==> names[k] == "per-page")
            && (!op.paged && "limit" !in names[..k] ==> names[k] == "limit")
  {
    hide Allocates, GivenInTurn, Requests, Reserved;
    EachFlagHasItsLong(op, names);
    var k := |op.path| + i;
    assert NamedFor(op, names, k, op.query[i], "query");
    var used := Engine(op) + ToSet(names[..k]);
    assert "per-page" in used <==> "per-page" in names[..k];
    assert "limit" in used <==> op.paged || "limit" in names[..k];
    AllocationMeans(used, "limit", "query", names[k]);
  }
}
