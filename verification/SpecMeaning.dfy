/**
 What the drift report says, in terms of the two documents alone: which operations, responses
 and definitions are listed where, and which lines stand under them. A document is read here
 by following member names from its root, and nothing else.
 */
module SpecMeaning {
  import opened Wrappers
  import opened JsonTree
  import opened KeyOrder
  import opened Ordering
  import opened SpecDiff
  import opened SpecReport

  // --------------------------------------------------------------------- the documents

  predicate IsMethod(m: string) {
    m in {"get", "post", "put", "patch", "delete", "head", "options"}
  }

  function Upper(c: char): char {
    if 'a' <= c <= 'z' then (c as int - 'a' as int + 'A' as int) as char else c
  }

  function UpperCase(s: string): string {
    seq(|s|, i requires 0 <= i < |s| => Upper(s[i]))
  }

  lemma UpperIs(s: string, t: string)
    requires |s| == |t| && forall i | 0 <= i < |s| :: Upper(s[i]) == t[i]
    ensures UpperCase(s) == t
  {
  }

  lemma VerbIsUpperCase(m: string)
    requires IsMethod(m)
    ensures m in METHODS && Verb(m) == UpperCase(m)
  {
    hide UpperCase;
    if m == "get" {
      UpperIs("get", "GET");
    } else if m == "post" {
      UpperIs("post", "POST");
    } else if m == "put" {
      UpperIs("put", "PUT");
    } else if m == "patch" {
      UpperIs("patch", "PATCH");
    } else if m == "delete" {
      UpperIs("delete", "DELETE");
    } else if m == "head" {
      UpperIs("head", "HEAD");
    } else {
      UpperIs("options", "OPTIONS");
    }
  }

  function OpAt(spec: Json, path: string, m: string): Option<Json> {
    Get(spec, ["paths", path, m])
  }

  /** How an operation is named: `GET /x (id)`. */
  function NameOf(path: string, m: string, op: Json): string {
    UpperCase(m) + " " + path + " (" + TextAt(op, "operationId") + ")"
  }

  lemma GetThree(v: Json, a: string, b: string, c: string)
    ensures Get(v, [a, b, c]) == if b in EntriesAt(v, a) then At(Entries(EntriesAt(v, a)[b]), c) else None
  {
    assert [a, b, c][1..] == [b, c];
    if v.Obj? && a in v.fields {
      GetTwo(v.fields[a], b, c);
      assert Get(v, [a, b, c]) == Get(v.fields[a], [b, c]);
    }
  }

  lemma OpAtIs(spec: Json, path: string, m: string)
    requires IsMethod(m)
    ensures OpAt(spec, path, m) == At(Operations(spec), OpKey(m, path))
  {
    hide Operations, OpKey;
    VerbIsUpperCase(m);
    GetThree(spec, "paths", path, m);
    OperationsExactly(spec, path, m);
  }

  ghost predicate IsOpKey(k: string) {
    exists m, path :: IsMethod(m) && k == OpKey(m, path)
  }

  lemma {:induction false} KeysOfPath(paths: map<string, Json>, p: string, ms: seq<string>, k: string)
    requires MethodsOnly(ms) && k in OfPath(paths, p, ms)
    ensures IsOpKey(k)
    decreases |ms|
  {
    var before, last := ms[..|ms| - 1], ms[|ms| - 1];
    assert last in ms && ms == before + [last];
    if k in OfPath(paths, p, before) {
      KeysOfPath(paths, p, before, k);
    } else {
      assert IsMethod(last) && k == OpKey(last, p);
    }
  }

  lemma {:induction false} KeysOfPaths(paths: map<string, Json>, ps: seq<string>, k: string)
    requires k in OfPaths(paths, ps, METHODS)
    ensures IsOpKey(k)
    decreases |ps|
  {
    hide OfPath, IsOpKey;
    var before, last := ps[..|ps| - 1], ps[|ps| - 1];
    if k in OfPath(paths, last, METHODS) {
      KeysOfPath(paths, last, METHODS, k);
    } else {
      KeysOfPaths(paths, before, k);
    }
  }

  /** An operation is found in the document exactly if it is there, and there are no others. */
  lemma OperationsAreThose(spec: Json, k: string)
    ensures k in Operations(spec) <==> exists path, m :: IsMethod(m) && k == OpKey(m, path) && OpAt(spec, path, m).Some?
  {
    hide OpKey, OpAt;
    if k in Operations(spec) {
      KeysOfPaths(EntriesAt(spec, "paths"), Sorted(EntriesAt(spec, "paths").Keys), k);
      var m, path :| IsMethod(m) && k == OpKey(m, path);
      hide Operations;
      OpAtIs(spec, path, m);
    }
    hide Operations;
    if path, m :| IsMethod(m) && k == OpKey(m, path) && OpAt(spec, path, m).Some? {
      OpAtIs(spec, path, m);
    }
  }

  lemma NameIsDisplay(path: string, m: string, op: Json)
    requires IsMethod(m)
    ensures NameOf(path, m, op) == Display(OpKey(m, path), op)
  {
    VerbIsUpperCase(m);
    MemberIsGet(op, "operationId");
  }

  // -------------------------------------------------------------- who is listed, and where

  lemma {:induction false} ShownExactly(m: map<string, Json>, keys: seq<string>, show: (string, Json) -> string, d: string)
    requires forall k | k in keys :: k in m
    ensures d in Shown(m, keys, show) <==> exists k :: k in keys && show(k, m[k]) == d
    decreases |keys|
  {
    if keys != [] {
      var before, last := keys[..|keys| - 1], keys[|keys| - 1];
      ShownExactly(m, before, show, d);
      assert keys == before + [last];
    }
  }

  /** Added is what only the new side has, removed what only the old side has. */
  lemma SidesExactly(was: map<string, Json>, now: map<string, Json>,
                     show: (string, Json) -> string, describe: (Json, Json) -> seq<Line>, d: string)
    ensures d in Diffed(was, now, show, describe).added <==> exists k :: k in now && k !in was && show(k, now[k]) == d
    ensures d in Diffed(was, now, show, describe).removed <==> exists k :: k in was && k !in now && show(k, was[k]) == d
  {
    ShownExactly(now, Sorted(now.Keys - was.Keys), show, d);
    ShownExactly(was, Sorted(was.Keys - now.Keys), show, d);
  }

  /** `d` names an operation that the second document has and the first has not. */
  ghost predicate NewIn(first: Json, second: Json, d: string) {
    exists path, m :: IsMethod(m) && OpAt(first, path, m).None? && OpAt(second, path, m).Some?
                      && d == NameOf(path, m, OpAt(second, path, m).value)
  }

  lemma NewInIs(first: Json, second: Json, d: string)
    ensures NewIn(first, second, d)
            <==> exists k :: k in Operations(second) && k !in Operations(first) && Display(k, Operations(second)[k]) == d
  {
    hide Operations, OpKey, OpAt, Display, NameOf;
    if NewIn(first, second, d) {
      var path, m :| IsMethod(m) && OpAt(first, path, m).None? && OpAt(second, path, m).Some?
                     && d == NameOf(path, m, OpAt(second, path, m).value);
      OpAtIs(first, path, m);
      OpAtIs(second, path, m);
      NameIsDisplay(path, m, OpAt(second, path, m).value);
      assert OpKey(m, path) in Operations(second);
    }
    if k :| k in Operations(second) && k !in Operations(first) && Display(k, Operations(second)[k]) == d {
      OperationsAreThose(second, k);
      var path, m :| IsMethod(m) && k == OpKey(m, path) && OpAt(second, path, m).Some?;
      OpAtIs(first, path, m);
      OpAtIs(second, path, m);
      NameIsDisplay(path, m, OpAt(second, path, m).value);
    }
  }

  /** An operation is listed as added exactly if only the new document has it, as removed if only the old one has. */
  lemma AddedAndRemovedOperations(was: Json, now: Json, d: string)
    ensures d in Reported(was, now).operations.added <==> NewIn(was, now, d)
    ensures d in Reported(was, now).operations.removed <==> NewIn(now, was, d)
  {
    hide Operations, NewIn, Diffed, ResponsesDiffed, Display;
    SidesExactly(Operations(was), Operations(now), Display, OperationLines, d);
    NewInIs(was, now, d);
    NewInIs(now, was, d);
  }

  /** `d` names, by its new name, an operation both documents have, and not alike. */
  ghost predicate ChangedBetween(was: Json, now: Json, d: string) {
    exists path, m :: IsMethod(m) && OpAt(was, path, m).Some? && OpAt(now, path, m).Some?
                      && OpAt(was, path, m) != OpAt(now, path, m) && d == NameOf(path, m, OpAt(now, path, m).value)
  }

  lemma ChangedOperations(was: Json, now: Json, d: string)
    ensures d in Reported(was, now).operations.changed <==> ChangedBetween(was, now, d)
  {
    hide Operations, OpKey, OpAt, Display, NameOf, Diffed, ResponsesDiffed, OperationLines;
    EverythingSpeaks();
    ChangesAreExactlyShown(Operations(was), Operations(now), Display, OperationLines, d);
    ChangedBetweenIs(was, now, d);
    hide ChangedBetween, Differs;
  }

  lemma ChangedBetweenIs(was: Json, now: Json, d: string)
    ensures ChangedBetween(was, now, d)
            <==> exists k :: Differs(Operations(was), Operations(now), k) && Display(k, Operations(now)[k]) == d
  {
    hide Operations, OpKey, OpAt, Display, NameOf;
    var a, b := Operations(was), Operations(now);
    if ChangedBetween(was, now, d) {
      var path, m :| IsMethod(m) && OpAt(was, path, m).Some? && OpAt(now, path, m).Some?
                     && OpAt(was, path, m) != OpAt(now, path, m) && d == NameOf(path, m, OpAt(now, path, m).value);
      OpAtIs(was, path, m);
      OpAtIs(now, path, m);
      NameIsDisplay(path, m, OpAt(now, path, m).value);
      assert Differs(a, b, OpKey(m, path));
    }
    if k :| Differs(a, b, k) && Display(k, b[k]) == d {
      OperationsAreThose(now, k);
      var path, m :| IsMethod(m) && k == OpKey(m, path) && OpAt(now, path, m).Some?;
      OpAtIs(was, path, m);
      OpAtIs(now, path, m);
      NameIsDisplay(path, m, OpAt(now, path, m).value);
    }
  }

  lemma NamedExactly(was: map<string, Json>, now: map<string, Json>, describe: (Json, Json) -> seq<Line>, name: string)
    requires Speaks(describe)
    ensures var r := Diffed(was, now, NameOnly, describe);
            && (name in r.added <==> name in now && name !in was)
            && (name in r.removed <==> name in was && name !in now)
            && (name in r.changed <==> name in was && name in now && was[name] != now[name])
  {
    SidesExactly(was, now, NameOnly, describe, name);
    NamesAreKeys(was, now, describe, name);
    hide Diffed;
  }

  /** Shared responses and definitions: by name, as `ResponsesAndDefinitions` says of each. */
  predicate ListedRight(section: Section, name: string, before: Option<Json>, after: Option<Json>) {
    && (name in section.added <==> before.None? && after.Some?)
    && (name in section.removed <==> before.Some? && after.None?)
    && (name in section.changed <==> before.Some? && after.Some? && before != after)
  }

  lemma ResponsesAndDefinitions(was: Json, now: Json, name: string)
    ensures var r := Reported(was, now);
            && ListedRight(r.responses, name, Get(was, ["responses", name]), Get(now, ["responses", name]))
            && ListedRight(r.definitions, name, Get(was, ["definitions", name]), Get(now, ["definitions", name]))
  {
    hide Diffed, ResponsesDiffed, Get, EntriesAt, ResponseLines, DefinitionLines, Operations;
    EverythingSpeaks();
    ResponsesDiffer(was, now);
    NamedExactly(EntriesAt(was, "responses"), EntriesAt(now, "responses"), ResponseLines, name);
    NamedExactly(EntriesAt(was, "definitions"), EntriesAt(now, "definitions"), DefinitionLines, name);
    GetTwo(was, "responses", name);
    GetTwo(now, "responses", name);
    GetTwo(was, "definitions", name);
    GetTwo(now, "definitions", name);
  }

  lemma {:induction false} NamesInOrder(m: map<string, Json>, keys: seq<string>)
    requires forall k | k in keys :: k in m
    ensures Shown(m, keys, NameOnly) == keys
    decreases |keys|
  {
    if keys != [] {
      var before, last := keys[..|keys| - 1], keys[|keys| - 1];
      NamesInOrder(m, before);
      assert keys == before + [last];
    }
  }

  /** Names are listed in order, each once. */
  lemma ListsAscend(was: Json, now: Json)
    ensures var r := Reported(was, now);
            && Ascending(r.responses.added) && Ascending(r.responses.removed)
            && Ascending(r.definitions.added) && Ascending(r.definitions.removed)
  {
    hide Ascending, Operations;
    ResponsesDiffer(was, now);
    var a, b := EntriesAt(was, "responses"), EntriesAt(now, "responses");
    SidesAscend(a, b, ResponseLines);
    a, b := EntriesAt(was, "definitions"), EntriesAt(now, "definitions");
    SidesAscend(a, b, DefinitionLines);
    hide Diffed, ResponsesDiffed;
  }

  lemma SidesAscend(was: map<string, Json>, now: map<string, Json>, describe: (Json, Json) -> seq<Line>)
    ensures var r := Diffed(was, now, NameOnly, describe); Ascending(r.added) && Ascending(r.removed)
  {
    NamesInOrder(now, Sorted(now.Keys - was.Keys));
    NamesInOrder(was, Sorted(was.Keys - now.Keys));
    SortedAscends(now.Keys - was.Keys);
    SortedAscends(was.Keys - now.Keys);
    hide Ascending;
  }

  // ---------------------------------------------------------------------- what is said

  function ParamName(p: Json): string {
    TextAt(p, "name") + " (" + TextAt(p, "in") + ")"
  }

  /** The last parameter of that name and place. */
  predicate LastParam(items: seq<Json>, i: nat, k: string) {
    i < |items| && ParamName(items[i]) == k && forall j | i < j < |items| :: ParamName(items[j]) != k
  }

  lemma ParamsSnoc(before: seq<Json>, last: Json)
    ensures ParamsOf(before + [last]) == ParamsOf(before)[ParamName(last) := last]
  {
    ParamNameIs(last);
    assert (before + [last])[..|before|] == before;
  }

  lemma {:induction false} LastParamIsThere(items: seq<Json>, i: nat, k: string)
    requires LastParam(items, i, k)
    ensures k in ParamsOf(items) && ParamsOf(items)[k] == items[i]
    decreases |items|
  {
    hide ParamName, ParamsOf;
    var before, last := items[..|items| - 1], items[|items| - 1];
    assert items == before + [last];
    ParamsSnoc(before, last);
    if i < |before| {
      LastParamIsThere(before, i, k);
    }
  }

  lemma {:induction false} ThereIsALastParam(items: seq<Json>, k: string) returns (i: nat)
    requires k in ParamsOf(items)
    ensures LastParam(items, i, k)
    decreases |items|
  {
    if items == [] {
      assert false;
    } else {
      hide ParamName, ParamsOf;
      var before, last := items[..|items| - 1], items[|items| - 1];
      assert items == before + [last];
      ParamsSnoc(before, last);
      if ParamName(last) == k {
        i := |before|;
      } else {
        i := ThereIsALastParam(before, k);
      }
    }
  }

  lemma ParamsExactly(items: seq<Json>, k: string)
    ensures k in ParamsOf(items) <==> exists i: nat :: LastParam(items, i, k)
    ensures forall i: nat :: LastParam(items, i, k) ==> k in ParamsOf(items) && ParamsOf(items)[k] == items[i]
  {
    hide ParamsOf, ParamName;
    if k in ParamsOf(items) {
      var i := ThereIsALastParam(items, k);
    }
    forall i: nat | LastParam(items, i, k) ensures k in ParamsOf(items) && ParamsOf(items)[k] == items[i] {
      LastParamIsThere(items, i, k);
    }
  }

  lemma ParamNameIs(p: Json)
    ensures StrOf(p, "name") + " (" + StrOf(p, "in") + ")" == ParamName(p)
  {
    MemberIsGet(p, "name");
    MemberIsGet(p, "in");
  }

  /** An operation's parameters are those of its array, one for each name and place, the last of them. */
  lemma ParametersMean(op: Json, k: string)
    ensures var ps := Get(op, ["parameters"]);
            if ps.Some? && ps.value.Arr? then
              && (k in ParamsByKey(op) <==> exists i: nat :: LastParam(ps.value.items, i, k))
              && forall i: nat :: LastParam(ps.value.items, i, k) ==> At(ParamsByKey(op), k) == Some(ps.value.items[i])
            else ParamsByKey(op) == map[]
  {
    hide ParamsOf, LastParam;
    MemberIsGet(op, "parameters");
    var ps := Get(op, ["parameters"]);
    if ps.Some? && ps.value.Arr? {
      ParamsExactly(ps.value.items, k);
    }
  }

  /** Every line of an operation, and why it is there. */
  lemma OperationSays(was: Json, now: Json, line: Line)
    ensures var (a, b) := (TextAt(was, "operationId"), TextAt(now, "operationId"));
            var (p, q) := (ParamsByKey(was), ParamsByKey(now));
            var (r, s) := (EntriesAt(was, "responses"), EntriesAt(now, "responses"));
            line in OperationLines(was, now)
            <==> || (a != b && line == IdLine(Move(a, b)))
                 || line in AllMemberLines(Parameter, p, q) || line in AllMemberLines(Response, r, s)
                 || (a == b && p == q && r == s && line == MetadataOnly)
  {
    hide ParamsByKey, EntriesAt, AllMemberLines;
    MemberIsGet(was, "operationId");
    MemberIsGet(now, "operationId");
    MembersSilentExactly(Parameter, ParamsByKey(was), ParamsByKey(now));
    MembersSilentExactly(Response, EntriesAt(was, "responses"), EntriesAt(now, "responses"));
  }

  /** Every line of a definition, and why it is there. */
  lemma DefinitionSays(was: Json, now: Json, line: Line)
    ensures var (a, b) := (RequiredList(was), RequiredList(now));
            var (p, q) := (EntriesAt(was, "properties"), EntriesAt(now, "properties"));
            var (x, y) := (DescribeSchema(was), DescribeSchema(now));
            line in DefinitionLines(was, now)
            <==> || line in AllMemberLines(Property, p, q)
                 || (a != b && line == RequiredLine(a, b))
                 || (p == q && a == b && line == if x == y then MetadataOnly else SchemaLine(Move(x, y)))
  {
    hide RequiredList, EntriesAt, AllMemberLines, DescribeSchema;
    MembersSilentExactly(Property, EntriesAt(was, "properties"), EntriesAt(now, "properties"));
  }

  /** The responses of an operation, line by line, as the documents have them. */
  lemma ResponsesSay(was: Json, now: Json, status: string, what: Option<string>)
    ensures var (o, n) := (Get(was, ["responses", status]), Get(now, ["responses", status]));
            && (Gone(Response, status, what) in OperationLines(was, now)
                <==> o.Some? && n.None? && what == Some(DescribeResponse(o.value)))
            && (Came(Response, status, what) in OperationLines(was, now)
                <==> o.None? && n.Some? && what == Some(DescribeResponse(n.value)))
  {
    hide ParamsByKey, EntriesAt, AllMemberLines, OperationLines, DescribeResponse, Get, DescribeParam;
    var (r, s) := (EntriesAt(was, "responses"), EntriesAt(now, "responses"));
    var (p, q) := (ParamsByKey(was), ParamsByKey(now));
    GetTwo(was, "responses", status);
    GetTwo(now, "responses", status);
    GoneExactly(Response, r, s, status, what);
    CameExactly(Response, r, s, status, what);
    OperationSays(was, now, Gone(Response, status, what));
    OperationSays(was, now, Came(Response, status, what));
    NotOfKind(Parameter, p, q, Gone(Response, status, what));
    NotOfKind(Parameter, p, q, Came(Response, status, what));
  }

  lemma NotOfKind(kind: Kind, was: map<string, Json>, now: map<string, Json>, line: Line)
    requires (line.Gone? || line.Came? || line.Changed?) && line.kind != kind
    ensures line !in AllMemberLines(kind, was, now)
  {
    hide AllMemberLines, MemberLine;
    SaidOfKey(kind, was, now, line);
    if SaidAt(kind, was, now, line.key, line) {
      SaidOfItself(kind, was, now, line.key, line);
    }
  }

  // ------------------------------------------------------------------ the shared responses

  ghost predicate RefersTo(op: Json, name: string) {
    exists status :: Get(op, ["responses", status]).Some?
                     && TextAt(Get(op, ["responses", status]).value, "$ref") == "#/responses/" + name
  }

  /** `d` names an operation of this document that refers to the shared response. */
  ghost predicate UserIn(spec: Json, name: string, d: string) {
    exists path, m :: IsMethod(m) && OpAt(spec, path, m).Some? && RefersTo(OpAt(spec, path, m).value, name)
                      && d == NameOf(path, m, OpAt(spec, path, m).value)
  }

  lemma RefersIs(op: Json, name: string)
    ensures Refers(op, name) <==> RefersTo(op, name)
  {
    hide Get, EntriesAt;
    forall status ensures Get(op, ["responses", status]) == At(EntriesAt(op, "responses"), status) {
      GetTwo(op, "responses", status);
    }
    forall v: Json ensures StrOf(v, "$ref") == TextAt(v, "$ref") {
      MemberIsGet(v, "$ref");
    }
    hide TextAt, StrOf;
    if Refers(op, name) {
      var status :| status in EntriesAt(op, "responses")
                    && StrOf(EntriesAt(op, "responses")[status], "$ref") == "#/responses/" + name;
      assert Get(op, ["responses", status]) == Some(EntriesAt(op, "responses")[status]);
    }
  }

  lemma UserInIs(spec: Json, name: string, d: string)
    ensures UserIn(spec, name, d)
            <==> exists k | k in Operations(spec) :: Refers(Operations(spec)[k], name) && Display(k, Operations(spec)[k]) == d
  {
    hide Operations, OpKey, OpAt, Display, NameOf, Refers, RefersTo;
    if UserIn(spec, name, d) {
      var path, m :| IsMethod(m) && OpAt(spec, path, m).Some? && RefersTo(OpAt(spec, path, m).value, name)
                     && d == NameOf(path, m, OpAt(spec, path, m).value);
      OpAtIs(spec, path, m);
      NameIsDisplay(path, m, OpAt(spec, path, m).value);
      RefersIs(OpAt(spec, path, m).value, name);
      assert OpKey(m, path) in Operations(spec);
    }
    if k :| k in Operations(spec) && Refers(Operations(spec)[k], name) && Display(k, Operations(spec)[k]) == d {
      OperationsAreThose(spec, k);
      var path, m :| IsMethod(m) && k == OpKey(m, path) && OpAt(spec, path, m).Some?;
      OpAtIs(spec, path, m);
      NameIsDisplay(path, m, OpAt(spec, path, m).value);
      RefersIs(OpAt(spec, path, m).value, name);
    }
  }

  /**
   A changed shared response is reported with how it changed, and then with the operations, of
   either document, that refer to it, if there are any.
   */
  lemma ChangedResponseSays(was: Json, now: Json, name: string) returns (users: seq<string>)
    requires Get(was, ["responses", name]).Some? && Get(now, ["responses", name]).Some?
    requires Get(was, ["responses", name]) != Get(now, ["responses", name])
    ensures forall d :: d in users <==> UserIn(was, name, d) || UserIn(now, name, d)
    ensures name in Reported(was, now).responses.changed
    ensures var x := DescribeResponse(Get(was, ["responses", name]).value);
            var y := DescribeResponse(Get(now, ["responses", name]).value);
            Reported(was, now).responses.changed[name]
            == [if x == y then MetadataOnly else SchemaLine(Move(x, y))] + if users == [] then [] else [UsedBy(users)]
  {
    hide Operations, DescribeResponse, Diffed, Get, EntriesAt, UserIn, Users, OperationLines, DefinitionLines;
    users := Users(Operations(was), Operations(now), name);
    forall d ensures d in users <==> UserIn(was, name, d) || UserIn(now, name, d) {
      UsersExactly(Operations(was), Operations(now), name, d);
      UserInIs(was, name, d);
      UserInIs(now, name, d);
    }
    GetTwo(was, "responses", name);
    GetTwo(now, "responses", name);
    var a, b := EntriesAt(was, "responses"), EntriesAt(now, "responses");
    EverythingSpeaks();
    ChangesAreExactlyShown(a, b, NameOnly, ResponseLines, name);
  }
}
