/**
 The report as a whole: `diff`, `diff_named` and `diff_operations`. Empty exactly when the
 documents have the same operations, shared responses and definitions; exchanged when the
 documents are.
 */
module SpecReport {
  import opened Wrappers
  import opened JsonTree
  import opened KeyOrder
  import opened Ordering
  import opened SpecDiff
  import opened Text

  // ----------------------------------------------------------- describing one difference

  /** Parameters by name and place; a later duplicate counts. */
  function ParamsOf(items: seq<Json>): map<string, Json> {
    if items == [] then map[]
    else
      var before, p := items[..|items| - 1], items[|items| - 1];
      ParamsOf(before)[StrOf(p, "name") + " (" + StrOf(p, "in") + ")" := p]
  }

  function ParamsByKey(op: Json): map<string, Json> {
    match Member(op, "parameters")
    case Some(Arr(items)) => ParamsOf(items)
    case _ => map[]
  }

  function OperationLines(was: Json, now: Json): seq<Line> {
    var (a, b) := (StrOf(was, "operationId"), StrOf(now, "operationId"));
    var lines := (if a == b then [] else [IdLine(Move(a, b))])
      + AllMemberLines(Parameter, ParamsByKey(was), ParamsByKey(now))
      + AllMemberLines(Response, EntriesAt(was, "responses"), EntriesAt(now, "responses"));
    if lines == [] then [MetadataOnly] else lines
  }

  function DefinitionLines(was: Json, now: Json): seq<Line> {
    var (a, b) := (RequiredList(was), RequiredList(now));
    var lines := AllMemberLines(Property, EntriesAt(was, "properties"), EntriesAt(now, "properties"))
      + (if a == b then [] else [RequiredLine(a, b)]);
    if lines != [] then lines else SchemaLines(DescribeSchema(was), DescribeSchema(now))
  }

  function SchemaLines(was: string, now: string): seq<Line> {
    if was == now then [MetadataOnly] else [SchemaLine(Move(was, now))]
  }

  function ResponseLines(was: Json, now: Json): seq<Line> {
    SchemaLines(DescribeResponse(was), DescribeResponse(now))
  }

  method DiffOperation(was: Json, now: Json) returns (lines: seq<Line>)
    ensures lines == OperationLines(was, now)
  {
    hide AllMemberLines, ParamsByKey;
    lines := [];
    var oldId, newId := StrOf(was, "operationId"), StrOf(now, "operationId");
    if oldId != newId {
      lines := lines + [IdLine(Move(oldId, newId))];
    }
    var more := DiffMembers(Parameter, ParamsByKey(was), ParamsByKey(now));
    lines := lines + more;
    more := DiffMembers(Response, EntriesAt(was, "responses"), EntriesAt(now, "responses"));
    lines := lines + more;
    if lines == [] {
      lines := [MetadataOnly];
    }
  }

  method DiffDefinition(was: Json, now: Json) returns (lines: seq<Line>)
    ensures lines == DefinitionLines(was, now)
  {
    hide AllMemberLines, DescribeSchema;
    lines := DiffMembers(Property, EntriesAt(was, "properties"), EntriesAt(now, "properties"));
    if RequiredList(was) != RequiredList(now) {
      lines := lines + [RequiredLine(RequiredList(was), RequiredList(now))];
    }
    if lines == [] {
      lines := SchemaLines(DescribeSchema(was), DescribeSchema(now));
    }
  }

  /** "Metadata only" is said of an operation exactly when nothing a caller depends on moved. */
  lemma MetadataOnlyExactly(was: Json, now: Json)
    ensures OperationLines(was, now) == [MetadataOnly]
            <==> && StrOf(was, "operationId") == StrOf(now, "operationId")
                 && ParamsByKey(was) == ParamsByKey(now)
                 && EntriesAt(was, "responses") == EntriesAt(now, "responses")
  {
    MembersSilentExactly(Parameter, ParamsByKey(was), ParamsByKey(now));
    MembersSilentExactly(Response, EntriesAt(was, "responses"), EntriesAt(now, "responses"));
    NeverMetadata(Parameter, ParamsByKey(was), ParamsByKey(now), Sorted(ParamsByKey(was).Keys + ParamsByKey(now).Keys));
    NeverMetadata(Response, EntriesAt(was, "responses"), EntriesAt(now, "responses"),
                  Sorted(EntriesAt(was, "responses").Keys + EntriesAt(now, "responses").Keys));
    var lines := OperationLines(was, now);
    if lines == [MetadataOnly] {
      assert lines[0] == MetadataOnly;
    }
  }

  lemma {:induction false} NeverMetadata(kind: Kind, was: map<string, Json>, now: map<string, Json>, keys: seq<string>)
    ensures MetadataOnly !in MemberLines(kind, was, now, keys)
    decreases |keys|
  {
    hide Describe;
    if keys != [] {
      NeverMetadata(kind, was, now, keys[..|keys| - 1]);
    }
  }

  lemma MentionsOnly(a: seq<Line>, b: seq<Line>, kind: Kind, key: string)
    requires forall line | line in a :: line.IdLine? || line.RequiredLine?
    ensures Mentions(a + b, kind, key) <==> Mentions(b, kind, key)
    ensures Mentions(b + a, kind, key) <==> Mentions(b, kind, key)
  {
    MentionsAppend(a, b, kind, key);
    MentionsAppend(b, a, kind, key);
  }

  /** An operation's lines mention exactly the parameters and the responses that differ. */
  lemma OperationMentionsExactly(was: Json, now: Json, key: string)
    ensures Mentions(OperationLines(was, now), Parameter, key)
            <==> At(ParamsByKey(was), key) != At(ParamsByKey(now), key)
    ensures Mentions(OperationLines(was, now), Response, key)
            <==> At(EntriesAt(was, "responses"), key) != At(EntriesAt(now, "responses"), key)
  {
    hide ParamsByKey, MemberLines;
    var p, q := ParamsByKey(was), ParamsByKey(now);
    var r, s := EntriesAt(was, "responses"), EntriesAt(now, "responses");
    var (a, b) := (StrOf(was, "operationId"), StrOf(now, "operationId"));
    var id: seq<Line> := if a == b then [] else [IdLine(Move(a, b))];
    var params, responses := AllMemberLines(Parameter, p, q), AllMemberLines(Response, r, s);
    EachDifferenceIsMentioned(Parameter, p, q, key);
    EachDifferenceIsMentioned(Response, r, s, key);
    OtherKindsUnmentioned(Parameter, p, q, Sorted(p.Keys + q.Keys), Response, key);
    OtherKindsUnmentioned(Response, r, s, Sorted(r.Keys + s.Keys), Parameter, key);
    forall kind ensures Mentions(id + params + responses, kind, key)
                        <==> Mentions(params, kind, key) || Mentions(responses, kind, key) {
      MentionsOnly(id, params, kind, key);
      MentionsAppend(id + params, responses, kind, key);
    }
    MetadataMentionsNothing(key);
  }

  lemma MetadataMentionsNothing(key: string)
    ensures forall kind :: !Mentions([MetadataOnly], kind, key) && !Mentions([], kind, key)
  {
  }

  /** A definition's lines mention exactly the properties that differ. */
  lemma DefinitionMentionsExactly(was: Json, now: Json, key: string)
    ensures Mentions(DefinitionLines(was, now), Property, key)
            <==> At(EntriesAt(was, "properties"), key) != At(EntriesAt(now, "properties"), key)
  {
    hide MemberLines, DescribeSchema, RequiredList, EntriesAt, At;
    var p, q := EntriesAt(was, "properties"), EntriesAt(now, "properties");
    var (a, b) := (RequiredList(was), RequiredList(now));
    var required: seq<Line> := if a == b then [] else [RequiredLine(a, b)];
    EachDifferenceIsMentioned(Property, p, q, key);
    MentionsOnly(required, AllMemberLines(Property, p, q), Property, key);
    MetadataMentionsNothing(key);
    assert !Mentions(SchemaLines(DescribeSchema(was), DescribeSchema(now)), Property, key);
  }

  // --------------------------------------------------------------- walking two name maps

  datatype Section = Section(added: seq<string>, removed: seq<string>, changed: map<string, seq<Line>>)

  const EMPTY := Section([], [], map[])

  /** The names under which the entries at `keys` appear in the report. */
  function Shown(m: map<string, Json>, keys: seq<string>, show: (string, Json) -> string): (r: seq<string>)
    requires forall k | k in keys :: k in m
  {
    if keys == [] then []
    else
      var before, k := keys[..|keys| - 1], keys[|keys| - 1];
      Shown(m, before, show) + [show(k, m[k])]
  }

  predicate Differs(was: map<string, Json>, now: map<string, Json>, k: string) {
    k in was && k in now && was[k] != now[k]
  }

  /** The changed entries, a later one of the same shown name in place of an earlier. */
  function ChangedAt(was: map<string, Json>, now: map<string, Json>, keys: seq<string>,
                     show: (string, Json) -> string, describe: (Json, Json) -> seq<Line>): map<string, seq<Line>>
    decreases |keys|
  {
    if keys == [] then map[]
    else
      var before, k := keys[..|keys| - 1], keys[|keys| - 1];
      var rest := ChangedAt(was, now, before, show, describe);
      if Differs(was, now, k) && describe(was[k], now[k]) != []
      then rest[show(k, now[k]) := describe(was[k], now[k])] else rest
  }

  function Diffed(was: map<string, Json>, now: map<string, Json>,
                  show: (string, Json) -> string, describe: (Json, Json) -> seq<Line>): Section
  {
    Section(Shown(now, Sorted(now.Keys - was.Keys), show), Shown(was, Sorted(was.Keys - now.Keys), show),
            ChangedAt(was, now, Sorted(was.Keys), show, describe))
  }

  lemma ShownSnoc(m: map<string, Json>, keys: seq<string>, k: string, show: (string, Json) -> string)
    requires k in m && forall x | x in keys :: x in m
    ensures Shown(m, keys + [k], show) == Shown(m, keys, show) + [show(k, m[k])]
  {
    assert (keys + [k])[..|keys|] == keys;
  }

  /** The keys of one map that the other lacks, shown in key order. */
  method OnlyIn(m: map<string, Json>, other: map<string, Json>, show: (string, Json) -> string) returns (names: seq<string>)
    ensures names == Shown(m, Sorted(m.Keys - other.Keys), show)
  {
    hide OnlySoFar, Shown, Ascending, ToSet, Below, Sorted;
    var keys := Sorted(m.Keys);
    SortedAscends(m.Keys);
    names := [];
    ghost var only: seq<string> := [];
    NoneYet(m, show);
    NoneOnly(m, other, keys);
    for i := 0 to |keys|
      invariant OnlySoFar(m, other, keys, i, only)
      invariant (forall k | k in only :: k in m) && names == Shown(m, only, show)
    {
      var k := keys[i];
      NextOnly(m, other, keys, i, only);
      if k !in other {
        ShownSnoc(m, only, k, show);
        names := names + [show(k, m[k])];
        only := only + [k];
      }
    }
    AllOnly(m, other, keys, only);
  }

  /** The keys of `m` among the first `i` that the other map lacks. */
  ghost predicate OnlySoFar(m: map<string, Json>, other: map<string, Json>, keys: seq<string>, i: nat, only: seq<string>) {
    i <= |keys| && Ascending(only) && ToSet(only) == ToSet(keys[..i]) - other.Keys
  }

  lemma NoneOnly(m: map<string, Json>, other: map<string, Json>, keys: seq<string>)
    ensures OnlySoFar(m, other, keys, 0, [])
  {
  }

  lemma NextOnly(m: map<string, Json>, other: map<string, Json>, keys: seq<string>, i: nat, only: seq<string>)
    requires Ascending(keys) && i < |keys| && OnlySoFar(m, other, keys, i, only)
    ensures OnlySoFar(m, other, keys, i + 1, if keys[i] in other then only else only + [keys[i]])
  {
    hide Ascending, Below, ToSet;
    KeptInOrder(keys, only, keys[i], i);
  }

  lemma AllOnly(m: map<string, Json>, other: map<string, Json>, keys: seq<string>, only: seq<string>)
    requires ToSet(keys) == m.Keys && OnlySoFar(m, other, keys, |keys|, only)
    ensures only == Sorted(m.Keys - other.Keys)
  {
    hide Ascending, ToSet;
    assert keys[..|keys|] == keys;
    AscendingIsSorted(only);
  }

  lemma NoneYet(m: map<string, Json>, show: (string, Json) -> string)
    ensures Shown(m, [], show) == [] && Ascending([]) && ToSet([]) == {}
  {
  }

  lemma AscendingSplits(keys: seq<string>, i: nat)
    requires i < |keys|
    ensures ToSet(keys[..i + 1]) == ToSet(keys[..i]) + {keys[i]}
  {
    assert keys[..i + 1] == keys[..i] + [keys[i]];
  }

  lemma ChangedNone(was: map<string, Json>, now: map<string, Json>,
                    show: (string, Json) -> string, describe: (Json, Json) -> seq<Line>)
    ensures ChangedAt(was, now, [], show, describe) == map[]
  {
  }

  lemma ChangedSnoc(was: map<string, Json>, now: map<string, Json>, before: seq<string>, k: string,
                    show: (string, Json) -> string, describe: (Json, Json) -> seq<Line>)
    ensures ChangedAt(was, now, before + [k], show, describe)
            == if Differs(was, now, k) && describe(was[k], now[k]) != []
               then ChangedAt(was, now, before, show, describe)[show(k, now[k]) := describe(was[k], now[k])]
               else ChangedAt(was, now, before, show, describe)
  {
    assert (before + [k])[..|before|] == before;
  }

  method ChangedOnes(was: map<string, Json>, now: map<string, Json>, keys: seq<string>,
                     show: (string, Json) -> string, describe: (Json, Json) -> seq<Line>)
    returns (changed: map<string, seq<Line>>)
    requires forall k | k in keys :: k in was
    ensures changed == ChangedAt(was, now, keys, show, describe)
  {
    hide ChangedAt;
    changed := map[];
    ChangedNone(was, now, show, describe);
    assert keys[..0] == [];
    for i := 0 to |keys|
      invariant changed == ChangedAt(was, now, keys[..i], show, describe)
    {
      var k := keys[i];
      ChangedSnoc(was, now, keys[..i], k, show, describe);
      assert keys[..i + 1] == keys[..i] + [k];
      if k in now && was[k] != now[k] {
        var lines := describe(was[k], now[k]);
        if lines != [] {
          changed := changed[show(k, now[k]) := lines];
        }
      }
    }
    assert keys[..|keys|] == keys;
  }

  /** `diff_named`, and `diff_operations` with its display names. */
  method DiffMaps(was: map<string, Json>, now: map<string, Json>,
                  show: (string, Json) -> string, describe: (Json, Json) -> seq<Line>) returns (r: Section)
    ensures r == Diffed(was, now, show, describe)
  {
    hide Shown, ChangedAt;
    var removed := OnlyIn(was, now, show);
    var changed := ChangedOnes(was, now, Sorted(was.Keys), show, describe);
    var added := OnlyIn(now, was, show);
    r := Section(added, removed, changed);
  }

  /** Differing values always have something said of them. */
  ghost predicate Speaks(describe: (Json, Json) -> seq<Line>) {
    forall a, b :: describe(a, b) != []
  }

  /** `k` differs and is what the report says under the name `d`. */
  predicate Says(was: map<string, Json>, now: map<string, Json>, changed: map<string, seq<Line>>, k: string, d: string,
                 show: (string, Json) -> string, describe: (Json, Json) -> seq<Line>)
  {
    Differs(was, now, k) && d in changed && show(k, now[k]) == d && changed[d] == describe(was[k], now[k])
  }

  lemma {:induction false} ChangesAreSaid(was: map<string, Json>, now: map<string, Json>, keys: seq<string>,
                                          show: (string, Json) -> string, describe: (Json, Json) -> seq<Line>, k: string)
    requires Speaks(describe) && k in keys && Differs(was, now, k)
    ensures show(k, now[k]) in ChangedAt(was, now, keys, show, describe)
    decreases |keys|
  {
    var before, last := keys[..|keys| - 1], keys[|keys| - 1];
    if k != last {
      assert keys == before + [last];
      ChangesAreSaid(was, now, before, show, describe, k);
    } else {
      assert describe(was[k], now[k]) != [];
    }
  }

  lemma {:induction false} OnlyChangesAreSaid(was: map<string, Json>, now: map<string, Json>, keys: seq<string>,
                                              show: (string, Json) -> string, describe: (Json, Json) -> seq<Line>, d: string)
    returns (k: string)
    requires d in ChangedAt(was, now, keys, show, describe)
    ensures k in keys && Says(was, now, ChangedAt(was, now, keys, show, describe), k, d, show, describe)
    ensures ChangedAt(was, now, keys, show, describe)[d] != []
    decreases |keys|
  {
    var before, last := keys[..|keys| - 1], keys[|keys| - 1];
    if Differs(was, now, last) && describe(was[last], now[last]) != [] && show(last, now[last]) == d {
      k := last;
    } else {
      k := OnlyChangesAreSaid(was, now, before, show, describe, d);
      assert k in before && keys == before + [last];
    }
  }

  /** Nothing is reported exactly when the two maps are equal. */
  lemma EmptyExactly(was: map<string, Json>, now: map<string, Json>,
                     show: (string, Json) -> string, describe: (Json, Json) -> seq<Line>)
    requires Speaks(describe)
    ensures Diffed(was, now, show, describe) == EMPTY <==> was == now
  {
    var r := Diffed(was, now, show, describe);
    if r == EMPTY {
      assert |Sorted(was.Keys - now.Keys)| == 0 && |Sorted(now.Keys - was.Keys)| == 0;
      assert was.Keys == now.Keys by {
        forall k ensures k in was.Keys <==> k in now.Keys {
          assert k !in Sorted(was.Keys - now.Keys) && k !in Sorted(now.Keys - was.Keys);
        }
      }
      forall k | k in was ensures was[k] == now[k] {
        if was[k] != now[k] {
          ChangesAreSaid(was, now, Sorted(was.Keys), show, describe, k);
        }
      }
    }
    if was == now {
      assert was.Keys - now.Keys == {} && now.Keys - was.Keys == {};
      if r.changed != map[] {
        var d :| d in r.changed;
        var k := OnlyChangesAreSaid(was, now, Sorted(was.Keys), show, describe, d);
      }
    }
  }

  /** Every entry that differs is in the report under its name, with lines, and nothing else is. */
  lemma ChangesAreExactlyShown(was: map<string, Json>, now: map<string, Json>,
                               show: (string, Json) -> string, describe: (Json, Json) -> seq<Line>, d: string)
    requires Speaks(describe)
    ensures var changed := Diffed(was, now, show, describe).changed;
            && (d in changed <==> exists k :: Differs(was, now, k) && show(k, now[k]) == d)
            && (d in changed ==> changed[d] != [] && exists k :: Says(was, now, changed, k, d, show, describe))
  {
    var keys := Sorted(was.Keys);
    if d in ChangedAt(was, now, keys, show, describe) {
      var k := OnlyChangesAreSaid(was, now, keys, show, describe, d);
    }
    if k :| Differs(was, now, k) && show(k, now[k]) == d {
      ChangesAreSaid(was, now, keys, show, describe, k);
    }
  }

  /** `k` differs, is shown as `d`, and is the last in key order of which that is true. */
  ghost predicate LastShown(was: map<string, Json>, now: map<string, Json>, show: (string, Json) -> string,
                            d: string, k: string)
  {
    && Differs(was, now, k) && show(k, now[k]) == d
    && forall x | Differs(was, now, x) && show(x, now[x]) == d :: x == k || Below(x, k)
  }

  /** Of the entries from position `i` on, the one there counts if no other is shown like it. */
  lemma {:induction false} LaterEntriesCount(was: map<string, Json>, now: map<string, Json>, keys: seq<string>,
                                             show: (string, Json) -> string, describe: (Json, Json) -> seq<Line>, i: nat)
    requires Speaks(describe) && i < |keys| && Differs(was, now, keys[i])
    requires forall j | i < j < |keys| && Differs(was, now, keys[j]) ::
               show(keys[j], now[keys[j]]) != show(keys[i], now[keys[i]])
    ensures Says(was, now, ChangedAt(was, now, keys, show, describe), keys[i], show(keys[i], now[keys[i]]), show, describe)
    decreases |keys|
  {
    var before, last := keys[..|keys| - 1], keys[|keys| - 1];
    assert keys == before + [last];
    if i < |before| {
      LaterEntriesCount(was, now, before, show, describe, i);
    } else {
      assert describe(was[last], now[last]) != [];
    }
  }

  /** What is reported under a name are the lines of the last key, in key order, that differs and is shown so. */
  lemma LastOneCounts(was: map<string, Json>, now: map<string, Json>,
                      show: (string, Json) -> string, describe: (Json, Json) -> seq<Line>, d: string, k: string)
    requires Speaks(describe) && LastShown(was, now, show, d, k)
    ensures Says(was, now, Diffed(was, now, show, describe).changed, k, d, show, describe)
  {
    hide ChangedAt, Below;
    var keys := Sorted(was.Keys);
    SortedAscends(was.Keys);
    var i :| 0 <= i < |keys| && keys[i] == k;
    forall j | i < j < |keys| && Differs(was, now, keys[j]) ensures show(keys[j], now[keys[j]]) != d {
      BelowAsymmetric(k, keys[j]);
    }
    LaterEntriesCount(was, now, keys, show, describe, i);
  }

  lemma {:induction false} SomeLastShown(was: map<string, Json>, now: map<string, Json>, show: (string, Json) -> string,
                                         k: string, keys: set<string>) returns (last: string)
    requires Differs(was, now, k) && keys <= was.Keys
    requires forall x | Differs(was, now, x) && x !in keys && show(x, now[x]) == show(k, now[k]) :: x == k || Below(x, k)
    ensures LastShown(was, now, show, show(k, now[k]), last) && (last == k || Below(k, last))
    decreases |keys|
  {
    var d := show(k, now[k]);
    if x :| x in keys && Differs(was, now, x) && show(x, now[x]) == d && x != k && !Below(x, k) {
      BelowTotal(x, k);
      forall y | Differs(was, now, y) && y !in keys - {x} && show(y, now[y]) == d ensures y == x || Below(y, x) {
        if y != x && y != k {
          BelowTransitive(y, k, x);
        }
      }
      last := SomeLastShown(was, now, show, x, keys - {x});
      if last != x {
        BelowTransitive(k, x, last);
      }
    } else {
      last := k;
    }
  }

  /** An entry that differs is reported with its own lines exactly when the last one shown like it has the same. */
  lemma OwnLines(was: map<string, Json>, now: map<string, Json>,
                 show: (string, Json) -> string, describe: (Json, Json) -> seq<Line>, k: string) returns (last: string)
    requires Speaks(describe) && Differs(was, now, k)
    ensures LastShown(was, now, show, show(k, now[k]), last) && (last == k || Below(k, last))
    ensures Says(was, now, Diffed(was, now, show, describe).changed, k, show(k, now[k]), show, describe)
            <==> describe(was[k], now[k]) == describe(was[last], now[last])
  {
    hide ChangedAt, Below;
    last := SomeLastShown(was, now, show, k, was.Keys);
    LastOneCounts(was, now, show, describe, show(k, now[k]), last);
  }

  // ------------------------------------------------------------------------- operations

  const METHODS := ["get", "post", "put", "patch", "delete", "head", "options"]

  function Verb(m: string): string {
    if m == "get" then "GET" else if m == "post" then "POST" else if m == "put" then "PUT"
    else if m == "patch" then "PATCH" else if m == "delete" then "DELETE" else if m == "head" then "HEAD" else "OPTIONS"
  }

  function OpKey(m: string, path: string): string {
    Verb(m) + " " + path
  }

  lemma VerbsEnd(m: string, path: string, n: string, other: string)
    requires m in METHODS && n in METHODS && OpKey(m, path) == OpKey(n, other)
    ensures m == n && path == other
  {
    var a, b := OpKey(m, path), OpKey(n, other);
    assert a[0] == Verb(m)[0] && a[1] == Verb(m)[1] && b[0] == Verb(n)[0] && b[1] == Verb(n)[1];
    assert a[|Verb(m)| + 1..] == path && b[|Verb(n)| + 1..] == other;
  }

  predicate HasOp(paths: map<string, Json>, path: string, m: string) {
    path in paths && m in Entries(paths[path])
  }

  function OfPath(paths: map<string, Json>, p: string, ms: seq<string>): map<string, Json> {
    if ms == [] then map[]
    else
      var before, m := OfPath(paths, p, ms[..|ms| - 1]), ms[|ms| - 1];
      if HasOp(paths, p, m) then before[OpKey(m, p) := Entries(paths[p])[m]] else before
  }

  function OfPaths(paths: map<string, Json>, ps: seq<string>, ms: seq<string>): map<string, Json> {
    if ps == [] then map[]
    else
      var before, p := ps[..|ps| - 1], ps[|ps| - 1];
      OfPaths(paths, before, ms) + OfPath(paths, p, ms)
  }

  /** The operations of a document, by `METHOD /path`. */
  function Operations(spec: Json): map<string, Json> {
    OfPaths(EntriesAt(spec, "paths"), Sorted(EntriesAt(spec, "paths").Keys), METHODS)
  }

  method ListPath(paths: map<string, Json>, p: string, ms: seq<string>, before: map<string, Json>)
    returns (out: map<string, Json>)
    requires p in paths
    ensures out == before + OfPath(paths, p, ms)
  {
    hide OpKey;
    out := before;
    for j := 0 to |ms|
      invariant out == before + OfPath(paths, p, ms[..j])
    {
      assert ms[..j + 1][..j] == ms[..j];
      if ms[j] in Entries(paths[p]) {
        out := out[OpKey(ms[j], p) := Entries(paths[p])[ms[j]]];
      }
    }
    assert ms[..|ms|] == ms;
  }

  method ListOperations(spec: Json) returns (out: map<string, Json>)
    ensures out == Operations(spec)
  {
    hide OfPath;
    var paths, ms := EntriesAt(spec, "paths"), METHODS;
    var ps := Sorted(paths.Keys);
    out := map[];
    for i := 0 to |ps|
      invariant out == OfPaths(paths, ps[..i], ms)
    {
      assert ps[..i + 1][..i] == ps[..i];
      out := ListPath(paths, ps[i], ms, out);
    }
    assert ps[..|ps|] == ps;
  }

  predicate MethodsOnly(ms: seq<string>) {
    forall m | m in ms :: m in METHODS
  }

  lemma {:induction false} OfPathIs(paths: map<string, Json>, p: string, ms: seq<string>, path: string, m: string)
    requires MethodsOnly(ms) && m in METHODS
    ensures OpKey(m, path) in OfPath(paths, p, ms) <==> m in ms && path == p && HasOp(paths, p, m)
    ensures OpKey(m, path) in OfPath(paths, p, ms) ==> OfPath(paths, p, ms)[OpKey(m, path)] == Entries(paths[p])[m]
    decreases |ms|
  {
    if ms != [] {
      hide OpKey;
      var before, last := ms[..|ms| - 1], ms[|ms| - 1];
      assert ms == before + [last];
      assert last in ms;
      OfPathIs(paths, p, before, path, m);
      if OpKey(last, p) == OpKey(m, path) {
        VerbsEnd(last, p, m, path);
      }
    }
  }

  lemma {:induction false} OfPathsIs(paths: map<string, Json>, ps: seq<string>, path: string, m: string)
    requires m in METHODS
    ensures OpKey(m, path) in OfPaths(paths, ps, METHODS) <==> path in ps && HasOp(paths, path, m)
    ensures OpKey(m, path) in OfPaths(paths, ps, METHODS)
            ==> OfPaths(paths, ps, METHODS)[OpKey(m, path)] == Entries(paths[path])[m]
    decreases |ps|
  {
    if ps != [] {
      hide OpKey, OfPath;
      var before, last := ps[..|ps| - 1], ps[|ps| - 1];
      assert ps == before + [last];
      OfPathsIs(paths, before, path, m);
      OfPathIs(paths, last, METHODS, path, m);
    }
  }

  /** Every method the source looks for, under every path, is an operation with a key of its own. */
  lemma OperationsExactly(spec: Json, path: string, m: string)
    requires m in METHODS
    ensures OpKey(m, path) in Operations(spec) <==> HasOp(EntriesAt(spec, "paths"), path, m)
    ensures OpKey(m, path) in Operations(spec)
            ==> Operations(spec)[OpKey(m, path)] == Entries(EntriesAt(spec, "paths")[path])[m]
  {
    hide OfPaths, OpKey;
    OfPathsIs(EntriesAt(spec, "paths"), Sorted(EntriesAt(spec, "paths").Keys), path, m);
  }

  function Display(key: string, op: Json): string {
    key + " (" + StrOf(op, "operationId") + ")"
  }

  lemma ParenthesisEndsTheKey(key: string, op: Json)
    requires '(' !in key
    ensures var s := Display(key, op);
            |s| > |key| + 1 && s[|key| + 1] == '(' && forall i | 0 <= i <= |key| :: s[i] != '('
  {
  }

  /** Where keys hold no parenthesis, different operations are shown under different names. */
  lemma DisplaysDiffer(a: string, x: Json, b: string, y: Json)
    requires '(' !in a && '(' !in b && Display(a, x) == Display(b, y)
    ensures a == b
  {
    var s, t := Display(a, x), Display(b, y);
    ParenthesisEndsTheKey(a, x);
    ParenthesisEndsTheKey(b, y);
    assert s[..|a|] == a && t[..|b|] == b;
  }

  // ------------------------------------------------------- who uses a shared response

  predicate Refers(op: Json, name: string) {
    exists status | status in EntriesAt(op, "responses") ::
      StrOf(EntriesAt(op, "responses")[status], "$ref") == "#/responses/" + name
  }

  /** The operations at these keys that refer to a shared response, as they are shown, after those found so far. */
  function UsersFrom(found: seq<string>, ops: map<string, Json>, keys: seq<string>, name: string): seq<string>
    decreases |keys|
  {
    if keys == [] then found
    else
      var before, k := UsersFrom(found, ops, keys[..|keys| - 1], name), keys[|keys| - 1];
      if k in ops && Refers(ops[k], name) && Display(k, ops[k]) !in before then before + [Display(k, ops[k])] else before
  }

  /** In either document, the old one first, each once. */
  function Users(was: map<string, Json>, now: map<string, Json>, name: string): seq<string> {
    UsersFrom(UsersFrom([], was, Sorted(was.Keys), name), now, Sorted(now.Keys), name)
  }

  method ListUsers(was: map<string, Json>, now: map<string, Json>, name: string) returns (users: seq<string>)
    ensures users == Users(was, now, name)
  {
    users := AddUsers([], was, name);
    users := AddUsers(users, now, name);
  }

  method AddUsers(found: seq<string>, ops: map<string, Json>, name: string) returns (users: seq<string>)
    ensures users == UsersFrom(found, ops, Sorted(ops.Keys), name)
  {
    hide Refers, Display;
    var keys := Sorted(ops.Keys);
    users := found;
    for i := 0 to |keys|
      invariant users == UsersFrom(found, ops, keys[..i], name)
    {
      assert keys[..i + 1][..i] == keys[..i];
      if Refers(ops[keys[i]], name) && Display(keys[i], ops[keys[i]]) !in users {
        users := users + [Display(keys[i], ops[keys[i]])];
      }
    }
    assert keys[..|keys|] == keys;
  }

  predicate UsedIn(ops: map<string, Json>, keys: seq<string>, name: string, d: string) {
    exists k | k in keys :: k in ops && Refers(ops[k], name) && Display(k, ops[k]) == d
  }

  lemma {:induction false} UsersFromExactly(found: seq<string>, ops: map<string, Json>, keys: seq<string>, name: string, d: string)
    ensures d in UsersFrom(found, ops, keys, name) <==> d in found || UsedIn(ops, keys, name, d)
    decreases |keys|
  {
    hide Refers, Display;
    if keys != [] {
      var before, k := keys[..|keys| - 1], keys[|keys| - 1];
      UsersFromExactly(found, ops, before, name, d);
      assert keys == before + [k];
    }
  }

  /** A shared response is said to be used by exactly the operations, of either document, that refer to it. */
  lemma UsersExactly(was: map<string, Json>, now: map<string, Json>, name: string, d: string)
    ensures d in Users(was, now, name)
            <==> || (exists k | k in was :: Refers(was[k], name) && Display(k, was[k]) == d)
                 || (exists k | k in now :: Refers(now[k], name) && Display(k, now[k]) == d)
  {
    hide Refers, Display, UsersFrom;
    UsersFromExactly([], was, Sorted(was.Keys), name, d);
    UsersFromExactly(UsersFrom([], was, Sorted(was.Keys), name), now, Sorted(now.Keys), name, d);
    UsedInAll(was, name, d);
    UsedInAll(now, name, d);
  }

  lemma UsedInAll(ops: map<string, Json>, name: string, d: string)
    ensures UsedIn(ops, Sorted(ops.Keys), name, d) <==> exists k | k in ops :: Refers(ops[k], name) && Display(k, ops[k]) == d
  {
    hide Refers, Display;
  }

  function UserLines(users: seq<string>): seq<Line> {
    if users == [] then [] else [UsedBy(users)]
  }

  /** The changed responses, each with who uses it, if anybody does. */
  function WithUsers(changed: map<string, seq<Line>>, was: map<string, Json>, now: map<string, Json>): map<string, seq<Line>> {
    map name | name in changed :: changed[name] + UserLines(Users(was, now, name))
  }

  method AddUsedBy(changed: map<string, seq<Line>>, was: map<string, Json>, now: map<string, Json>)
    returns (r: map<string, seq<Line>>)
    ensures r == WithUsers(changed, was, now)
  {
    hide Users, UserLines, WithUsers, ToSet;
    r := map[];
    var names := Sorted(changed.Keys);
    SetOfSorted(changed.Keys);
    assert names[..0] == [];
    for i := 0 to |names|
      invariant r.Keys == ToSet(names[..i])
      invariant forall name | name in r :: name in changed && r[name] == changed[name] + UserLines(Users(was, now, name))
    {
      AscendingSplits(names, i);
      var users := ListUsers(was, now, names[i]);
      r := r[names[i] := changed[names[i]] + UserLines(users)];
    }
    assert names[..|names|] == names;
    WithUsersIs(changed, r, was, now);
  }

  lemma SetOfSorted(s: set<string>)
    ensures ToSet(Sorted(s)) == s && ToSet([]) == {}
  {
  }

  lemma WithUsersIs(changed: map<string, seq<Line>>, r: map<string, seq<Line>>, was: map<string, Json>, now: map<string, Json>)
    requires r.Keys == changed.Keys
    requires forall name | name in r :: r[name] == changed[name] + UserLines(Users(was, now, name))
    ensures r == WithUsers(changed, was, now)
  {
    hide Users, UserLines;
  }

  // ------------------------------------------------------------------------- the report

  datatype Report = Report(operations: Section, responses: Section, definitions: Section)

  function NameOnly(k: string, v: Json): string {
    k
  }

  /** The section on shared responses. */
  function ResponsesDiffed(was: Json, now: Json): Section {
    var r := Diffed(EntriesAt(was, "responses"), EntriesAt(now, "responses"), NameOnly, ResponseLines);
    r.(changed := WithUsers(r.changed, Operations(was), Operations(now)))
  }

  lemma ResponsesDiffer(was: Json, now: Json)
    ensures var r := Diffed(EntriesAt(was, "responses"), EntriesAt(now, "responses"), NameOnly, ResponseLines);
            ResponsesDiffed(was, now).added == r.added && ResponsesDiffed(was, now).removed == r.removed
    ensures ResponsesDiffed(was, now).changed.Keys
            == Diffed(EntriesAt(was, "responses"), EntriesAt(now, "responses"), NameOnly, ResponseLines).changed.Keys
    ensures ResponsesDiffed(was, now) == EMPTY
            <==> Diffed(EntriesAt(was, "responses"), EntriesAt(now, "responses"), NameOnly, ResponseLines) == EMPTY
  {
    hide Diffed, Users, Operations, EntriesAt, ResponseLines;
    var r := Diffed(EntriesAt(was, "responses"), EntriesAt(now, "responses"), NameOnly, ResponseLines);
    var w := ResponsesDiffed(was, now);
    assert w.changed.Keys == r.changed.Keys;
    assert r.changed == map[] <==> r.changed.Keys == {};
    assert w.changed == map[] <==> w.changed.Keys == {};
  }

  function Reported(was: Json, now: Json): Report {
    Report(Diffed(Operations(was), Operations(now), Display, OperationLines),
           ResponsesDiffed(was, now),
           Diffed(EntriesAt(was, "definitions"), EntriesAt(now, "definitions"), NameOnly, DefinitionLines))
  }

  method Diff(was: Json, now: Json) returns (r: Report)
    ensures r == Reported(was, now)
  {
    hide Diffed, Operations, WithUsers;
    var before := ListOperations(was);
    var after := ListOperations(now);
    var operations := DiffMaps(before, after, Display, OperationLines);
    var responses := DiffMaps(EntriesAt(was, "responses"), EntriesAt(now, "responses"), NameOnly, ResponseLines);
    var changed := AddUsedBy(responses.changed, before, after);
    responses := Section(responses.added, responses.removed, changed);
    var definitions := DiffMaps(EntriesAt(was, "definitions"), EntriesAt(now, "definitions"), NameOnly, DefinitionLines);
    r := Report(operations, responses, definitions);
  }

  lemma EverythingSpeaks()
    ensures Speaks(OperationLines) && Speaks(ResponseLines) && Speaks(DefinitionLines)
  {
    hide AllMemberLines, ParamsByKey, DescribeSchema, DescribeResponse, RequiredList;
  }

  /** The report, apart from warnings, is empty exactly when nothing differs. */
  lemma DriftIsNeverMissed(was: Json, now: Json)
    ensures Reported(was, now) == Report(EMPTY, EMPTY, EMPTY)
            <==> && Operations(was) == Operations(now)
                 && EntriesAt(was, "responses") == EntriesAt(now, "responses")
                 && EntriesAt(was, "definitions") == EntriesAt(now, "definitions")
  {
    hide Diffed, Operations, ResponsesDiffed;
    EverythingSpeaks();
    ResponsesDiffer(was, now);
    EmptyExactly(Operations(was), Operations(now), Display, OperationLines);
    EmptyExactly(EntriesAt(was, "responses"), EntriesAt(now, "responses"), NameOnly, ResponseLines);
    EmptyExactly(EntriesAt(was, "definitions"), EntriesAt(now, "definitions"), NameOnly, DefinitionLines);
  }

  /**
   Each operation that differs is reported, with its own lines exactly when the last one shown
   under its name has the same; and that is itself unless one of the two keys holds a
   parenthesis.
   */
  lemma OperationIsReported(was: Json, now: Json, k: string) returns (last: string)
    requires Differs(Operations(was), Operations(now), k)
    ensures var a, b := Operations(was), Operations(now);
            && LastShown(a, b, Display, Display(k, b[k]), last) && (last == k || Below(k, last))
            && (Says(a, b, Reported(was, now).operations.changed, k, Display(k, b[k]), Display, OperationLines)
                <==> OperationLines(a[k], b[k]) == OperationLines(a[last], b[last]))
            && ('(' !in k && '(' !in last ==> last == k)
  {
    hide Operations, OperationLines, Diffed;
    var a, b := Operations(was), Operations(now);
    EverythingSpeaks();
    last := OwnLines(a, b, Display, OperationLines, k);
    if '(' !in k && '(' !in last {
      DisplaysDiffer(last, b[last], k, b[k]);
    }
  }

  /** A document whose only path items are these two, each with one `get`. */
  function TwoPaths(p: string, op: Json, q: string, other: Json): Json {
    Obj(map["paths" := Obj(map[p := Obj(map["get" := op]), q := Obj(map["get" := other])])])
  }

  lemma TwoOperations(p: string, op: Json, q: string, other: Json)
    requires p != q
    ensures var ops := Operations(TwoPaths(p, op, q, other));
            && OpKey("get", p) in ops && ops[OpKey("get", p)] == op
            && OpKey("get", q) in ops && ops[OpKey("get", q)] == other
  {
    hide Operations, OpKey;
    var spec := TwoPaths(p, op, q, other);
    assert EntriesAt(spec, "paths") == map[p := Obj(map["get" := op]), q := Obj(map["get" := other])];
    assert "get" in METHODS;
    OperationsExactly(spec, p, "get");
    OperationsExactly(spec, q, "get");
  }

  function WithId(id: string, summary: string): Json {
    Obj(map["operationId" := Str(id), "summary" := Str(summary)])
  }

  /**
   Two operations that both changed can be shown under one name, and then one of them is
   missing: here `GET /x`, whose identifier changed, and `GET /x (a`, whose did not.
   */
  lemma SharedNameLosesLines()
    ensures var a := Operations(TwoPaths("/x", WithId("x", ""), "/x (a", WithId("b", "")));
            var b := Operations(TwoPaths("/x", WithId("a (b", ""), "/x (a", WithId("b", "new")));
            var changed := Diffed(a, b, Display, OperationLines).changed;
            && Differs(a, b, "GET /x") && Differs(a, b, "GET /x (a")
            && !(Says(a, b, changed, "GET /x", "GET /x (a (b)", Display, OperationLines)
                 && Says(a, b, changed, "GET /x (a", "GET /x (a (b)", Display, OperationLines))
            && Display("GET /x", b["GET /x"]) == Display("GET /x (a", b["GET /x (a"]) == "GET /x (a (b)"
  {
    hide Operations, Diffed, OperationLines, TwoPaths;
    assert OpKey("get", "/x") == "GET /x" && OpKey("get", "/x (a") == "GET /x (a";
    TwoOperations("/x", WithId("x", ""), "/x (a", WithId("b", ""));
    TwoOperations("/x", WithId("a (b", ""), "/x (a", WithId("b", "new"));
    DifferentLines();
    ReadId("x", "");
    ReadId("a (b", "");
    ReadId("b", "");
    ReadId("b", "new");
    SameDisplay();
  }

  lemma ReadId(id: string, summary: string)
    ensures StrOf(WithId(id, summary), "operationId") == id && StrOf(WithId(id, summary), "summary") == summary
    ensures ParamsByKey(WithId(id, summary)) == map[] && EntriesAt(WithId(id, summary), "responses") == map[]
  {
  }

  lemma SameDisplay()
    ensures Display("GET /x", WithId("a (b", "")) == Display("GET /x (a", WithId("b", "new")) == "GET /x (a (b)"
  {
    ReadId("a (b", "");
    ReadId("b", "new");
    hide StrOf, WithId;
    assert "GET /x" + " (" + "a (b" + ")" == "GET /x (a (b)" == "GET /x (a" + " (" + "b" + ")";
  }

  lemma DifferentLines()
    ensures OperationLines(WithId("x", ""), WithId("a (b", "")) != OperationLines(WithId("b", ""), WithId("b", "new"))
  {
    ReadId("x", "");
    ReadId("a (b", "");
    ReadId("b", "");
    ReadId("b", "new");
    hide WithId, OperationLines, ParamsByKey, EntriesAt, StrOf;
    MetadataOnlyExactly(WithId("x", ""), WithId("a (b", ""));
    MetadataOnlyExactly(WithId("b", ""), WithId("b", "new"));
  }

  lemma SectionsExchange(was: map<string, Json>, now: map<string, Json>,
                         show: (string, Json) -> string, describe: (Json, Json) -> seq<Line>)
    ensures Diffed(was, now, show, describe).added == Diffed(now, was, show, describe).removed
    ensures Diffed(was, now, show, describe).removed == Diffed(now, was, show, describe).added
  {
  }

  lemma NamesAreKeys(was: map<string, Json>, now: map<string, Json>, describe: (Json, Json) -> seq<Line>, k: string)
    requires Speaks(describe)
    ensures k in Diffed(was, now, NameOnly, describe).changed <==> Differs(was, now, k)
  {
    ChangesAreExactlyShown(was, now, NameOnly, describe, k);
  }

  /**
   Exchanging the documents exchanges what was added with what was removed, and keeps which
   names changed.
   */
  lemma ExchangeExchanges(was: Json, now: Json)
    ensures var r, s := Reported(was, now), Reported(now, was);
            && r.operations.added == s.operations.removed && r.operations.removed == s.operations.added
            && r.responses.added == s.responses.removed && r.responses.removed == s.responses.added
            && r.definitions.added == s.definitions.removed && r.definitions.removed == s.definitions.added
            && r.responses.changed.Keys == s.responses.changed.Keys
            && r.definitions.changed.Keys == s.definitions.changed.Keys
  {
    hide Operations, OperationLines, ResponseLines, DefinitionLines, ResponsesDiffed, Diffed, EntriesAt;
    EverythingSpeaks();
    ResponsesDiffer(was, now);
    ResponsesDiffer(now, was);
    SectionsExchange(Operations(was), Operations(now), Display, OperationLines);
    SectionsExchange(EntriesAt(was, "responses"), EntriesAt(now, "responses"), NameOnly, ResponseLines);
    SectionsExchange(EntriesAt(was, "definitions"), EntriesAt(now, "definitions"), NameOnly, DefinitionLines);
    forall k ensures k in Reported(was, now).responses.changed <==> k in Reported(now, was).responses.changed {
      NamesAreKeys(EntriesAt(was, "responses"), EntriesAt(now, "responses"), ResponseLines, k);
      NamesAreKeys(EntriesAt(now, "responses"), EntriesAt(was, "responses"), ResponseLines, k);
    }
    forall k ensures k in Reported(was, now).definitions.changed <==> k in Reported(now, was).definitions.changed {
      NamesAreKeys(EntriesAt(was, "definitions"), EntriesAt(now, "definitions"), DefinitionLines, k);
      NamesAreKeys(EntriesAt(now, "definitions"), EntriesAt(was, "definitions"), DefinitionLines, k);
    }
  }

  /** An operation that changed one way has changed the other way, and is shown both ways by what it then was called. */
  lemma ChangedOperationsExchange(was: Json, now: Json, k: string)
    ensures var a, b := Operations(was), Operations(now);
            && (Differs(a, b, k) <==> Differs(b, a, k))
            && (Differs(a, b, k) ==> Display(k, b[k]) in Reported(was, now).operations.changed
                                     && Display(k, a[k]) in Reported(now, was).operations.changed)
  {
    hide Operations, OperationLines, ResponseLines, DefinitionLines, Diffed;
    var a, b := Operations(was), Operations(now);
    EverythingSpeaks();
    if Differs(a, b, k) {
      ChangesAreExactlyShown(a, b, Display, OperationLines, Display(k, b[k]));
      ChangesAreExactlyShown(b, a, Display, OperationLines, Display(k, a[k]));
    }
  }
}
