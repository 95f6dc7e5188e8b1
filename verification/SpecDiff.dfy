/**
 The difference report between two canonical specifications. What it must never do is miss a
 change; what it says about one is checked here down to the single parameter, response or
 property. Lines are kept as data; their wording is not modelled.
 */
module SpecDiff {
  import opened Wrappers
  import opened JsonTree
  import opened KeyOrder
  import opened Ordering
  import Text

  // --------------------------------------------------------------------- reading values

  function Entries(v: Json): map<string, Json> {
    if v.Obj? then v.fields else map[]
  }

  function Member(v: Json, k: string): Option<Json> {
    if k in Entries(v) then Some(Entries(v)[k]) else None
  }

  function EntriesAt(v: Json, k: string): map<string, Json> {
    match Member(v, k) case None => map[] case Some(m) => Entries(m)
  }

  function StrOf(v: Json, k: string): string {
    match Member(v, k)
    case Some(Str(s)) => s
    case _ => ""
  }

  /** What describing JSON null gives, which is what a missing `items` counts as. */
  const NOTHING := "(none)"

  function DescribeSchema(schema: Json): string {
    match Member(schema, "$ref")
    case Some(Str(r)) => r
    case _ =>
      var ty := StrOf(schema, "type");
      if ty == "array" then
        "array of " + (if schema.Obj? && "items" in schema.fields then DescribeSchema(schema.fields["items"]) else NOTHING)
      else if ty == "" then NOTHING
      else if StrOf(schema, "format") == "" then ty
      else ty + "/" + StrOf(schema, "format")
  }

  function DescribeAt(v: Json, k: string): string {
    match Member(v, k) case None => NOTHING case Some(schema) => DescribeSchema(schema)
  }

  function DescribeResponse(response: Json): string {
    match Member(response, "$ref")
    case Some(Str(r)) => r
    case _ => DescribeAt(response, "schema")
  }

  function DescribeParam(param: Json): string {
    match Member(param, "schema") case Some(schema) => DescribeSchema(schema) case None => DescribeSchema(param)
  }

  function IsRequired(param: Json): bool {
    Member(param, "required") == Some(Bool(true))
  }

  function Strings(items: seq<Json>): seq<string> {
    if items == [] then [] else (if items[0].Str? then [items[0].s] else []) + Strings(items[1..])
  }

  function RequiredList(def: Json): seq<string> {
    match Member(def, "required")
    case Some(Arr(items)) => Strings(items)
    case _ => []
  }

  // ------------------------------------------------------------------------------ lines

  datatype Kind = Parameter | Response | Property

  datatype Move = Move(was: string, now: string)

  datatype Detail = Detail(required: Option<bool>, schema: Option<Move>)

  datatype Line =
    | IdLine(id: Move)
    | Gone(kind: Kind, key: string, what: Option<string>)
    | Came(kind: Kind, key: string, what: Option<string>)
    | Changed(kind: Kind, key: string, detail: Detail)
    | RequiredLine(was: seq<string>, now: seq<string>)
    | SchemaLine(schema: Move)
    | UsedBy(operations: seq<string>)
    | MetadataOnly

  function Describe(kind: Kind, v: Json): string {
    match kind
    case Parameter => DescribeParam(v)
    case Response => DescribeResponse(v)
    case Property => DescribeSchema(v)
  }

  function Moved(was: string, now: string): Option<Move> {
    if was == now then None else Some(Move(was, now))
  }

  /** What is said of one parameter, response or property. */
  function MemberLine(kind: Kind, key: string, o: Option<Json>, n: Option<Json>): seq<Line> {
    match (o, n)
    case (Some(a), None) => [Gone(kind, key, if kind.Response? then Some(Describe(kind, a)) else None)]
    case (None, Some(b)) => [Came(kind, key, Some(Describe(kind, b)))]
    case (Some(a), Some(b)) =>
      if a == b then []
      else
        var required := if kind.Parameter? && IsRequired(a) != IsRequired(b) then Some(IsRequired(b)) else None;
        [Changed(kind, key, Detail(required, Moved(Describe(kind, a), Describe(kind, b))))]
    case (None, None) => []
  }

  function At(m: map<string, Json>, k: string): Option<Json> {
    if k in m then Some(m[k]) else None
  }

  function MemberLines(kind: Kind, was: map<string, Json>, now: map<string, Json>, keys: seq<string>): seq<Line> {
    if keys == [] then []
    else
      var before, last := keys[..|keys| - 1], keys[|keys| - 1];
      MemberLines(kind, was, now, before) + MemberLine(kind, last, At(was, last), At(now, last))
  }

  function AllMemberLines(kind: Kind, was: map<string, Json>, now: map<string, Json>): seq<Line> {
    MemberLines(kind, was, now, Sorted(was.Keys + now.Keys))
  }

  /** The loop of `diff_params`, `diff_responses` and the property part of `diff_definition`. */
  method DiffMembers(kind: Kind, was: map<string, Json>, now: map<string, Json>) returns (lines: seq<Line>)
    ensures lines == AllMemberLines(kind, was, now)
  {
    hide MemberLine;
    lines := [];
    var keys := Sorted(was.Keys + now.Keys);
    for i := 0 to |keys|
      invariant lines == MemberLines(kind, was, now, keys[..i])
    {
      assert keys[..i + 1][..i] == keys[..i];
      lines := lines + MemberLine(kind, keys[i], At(was, keys[i]), At(now, keys[i]));
    }
    assert keys[..|keys|] == keys;
  }

  predicate IsAbout(line: Line, kind: Kind, key: string) {
    (line.Gone? || line.Came? || line.Changed?) && line.kind == kind && line.key == key
  }

  predicate Mentions(lines: seq<Line>, kind: Kind, key: string) {
    exists line | line in lines :: IsAbout(line, kind, key)
  }

  lemma MentionsAppend(a: seq<Line>, b: seq<Line>, kind: Kind, key: string)
    ensures Mentions(a + b, kind, key) <==> Mentions(a, kind, key) || Mentions(b, kind, key)
  {
  }

  lemma MemberLineMentions(kind: Kind, k: string, o: Option<Json>, n: Option<Json>, key: string)
    ensures Mentions(MemberLine(kind, k, o, n), kind, key) <==> k == key && o != n
  {
    hide Describe, IsRequired;
    var lines := MemberLine(kind, k, o, n);
    if k == key && o != n {
      assert lines[0] in lines && IsAbout(lines[0], kind, key);
    }
  }

  lemma {:induction false} MemberLinesMention(kind: Kind, was: map<string, Json>, now: map<string, Json>,
                                              keys: seq<string>, key: string)
    ensures Mentions(MemberLines(kind, was, now, keys), kind, key) <==> key in keys && At(was, key) != At(now, key)
    decreases |keys|
  {
    if keys != [] {
      hide Mentions, MemberLine;
      var before, last := keys[..|keys| - 1], keys[|keys| - 1];
      MemberLinesMention(kind, was, now, before, key);
      MemberLineMentions(kind, last, At(was, last), At(now, last), key);
      MentionsAppend(MemberLines(kind, was, now, before), MemberLine(kind, last, At(was, last), At(now, last)), kind, key);
      assert keys == before + [last];
    }
  }

  /** A parameter, response or property is mentioned exactly when it differs. */
  lemma EachDifferenceIsMentioned(kind: Kind, was: map<string, Json>, now: map<string, Json>, key: string)
    ensures Mentions(AllMemberLines(kind, was, now), kind, key) <==> At(was, key) != At(now, key)
  {
    MemberLinesMention(kind, was, now, Sorted(was.Keys + now.Keys), key);
  }

  lemma {:induction false} OtherKindsUnmentioned(kind: Kind, was: map<string, Json>, now: map<string, Json>,
                                                 keys: seq<string>, other: Kind, key: string)
    requires other != kind
    ensures !Mentions(MemberLines(kind, was, now, keys), other, key)
    decreases |keys|
  {
    hide Describe, IsRequired;
    if keys != [] {
      OtherKindsUnmentioned(kind, was, now, keys[..|keys| - 1], other, key);
    }
  }

  lemma MembersSilentExactly(kind: Kind, was: map<string, Json>, now: map<string, Json>)
    ensures AllMemberLines(kind, was, now) == [] <==> was == now
  {
    var lines := AllMemberLines(kind, was, now);
    forall key ensures Mentions(lines, kind, key) <==> At(was, key) != At(now, key) {
      EachDifferenceIsMentioned(kind, was, now, key);
    }
    if lines == [] {
      forall key ensures At(was, key) == At(now, key) {
        assert !Mentions(lines, kind, key);
      }
      forall key ensures key in was <==> key in now {
        assert At(was, key) == At(now, key);
      }
      forall key | key in was ensures was[key] == now[key] {
        assert At(was, key) == At(now, key);
      }
      assert was == now;
    }
    if was == now {
      SilentWhenEqual(kind, was, Sorted(was.Keys + now.Keys));
    }
  }

  lemma {:induction false} SilentWhenEqual(kind: Kind, m: map<string, Json>, keys: seq<string>)
    ensures MemberLines(kind, m, m, keys) == []
    decreases |keys|
  {
    if keys != [] {
      SilentWhenEqual(kind, m, keys[..|keys| - 1]);
    }
  }

  // ------------------------------------------------------------------ what the lines say

  predicate SaidAt(kind: Kind, was: map<string, Json>, now: map<string, Json>, k: string, line: Line) {
    line in MemberLine(kind, k, At(was, k), At(now, k))
  }

  lemma {:induction false} SaidExactly(kind: Kind, was: map<string, Json>, now: map<string, Json>, keys: seq<string>, line: Line)
    ensures line in MemberLines(kind, was, now, keys) <==> exists k | k in keys :: SaidAt(kind, was, now, k, line)
    decreases |keys|
  {
    if keys != [] {
      var before, last := keys[..|keys| - 1], keys[|keys| - 1];
      SaidExactly(kind, was, now, before, line);
      assert keys == before + [last];
      assert line in MemberLines(kind, was, now, keys)
             <==> line in MemberLines(kind, was, now, before) || SaidAt(kind, was, now, last, line);
      hide MemberLines, SaidAt;
    }
  }

  lemma SaidOfItself(kind: Kind, was: map<string, Json>, now: map<string, Json>, k: string, line: Line)
    requires SaidAt(kind, was, now, k, line)
    ensures (line.Gone? || line.Came? || line.Changed?) && line.kind == kind && line.key == k
    ensures k in was || k in now
  {
    hide Describe, IsRequired;
  }

  lemma SaidOfKey(kind: Kind, was: map<string, Json>, now: map<string, Json>, line: Line)
    requires line.Gone? || line.Came? || line.Changed?
    ensures line in AllMemberLines(kind, was, now) <==> SaidAt(kind, was, now, line.key, line)
  {
    hide MemberLine, MemberLines;
    SaidExactly(kind, was, now, Sorted(was.Keys + now.Keys), line);
    forall k | SaidAt(kind, was, now, k, line) ensures k == line.key && k in was.Keys + now.Keys {
      SaidOfItself(kind, was, now, k, line);
    }
  }

  /** "Removed" is said exactly of what only the old side has; of a response, with what it was. */
  lemma GoneExactly(kind: Kind, was: map<string, Json>, now: map<string, Json>, key: string, what: Option<string>)
    ensures Gone(kind, key, what) in AllMemberLines(kind, was, now)
            <==> key in was && key !in now && what == (if kind == Response then Some(DescribeResponse(was[key])) else None)
  {
    hide MemberLines, AllMemberLines, DescribeResponse, DescribeParam, DescribeSchema;
    SaidOfKey(kind, was, now, Gone(kind, key, what));
  }

  /** "Added" exactly of what only the new side has, with what it is. */
  lemma CameExactly(kind: Kind, was: map<string, Json>, now: map<string, Json>, key: string, what: Option<string>)
    ensures Came(kind, key, what) in AllMemberLines(kind, was, now)
            <==> key in now && key !in was && what == Some(match kind
                                                            case Parameter => DescribeParam(now[key])
                                                            case Response => DescribeResponse(now[key])
                                                            case Property => DescribeSchema(now[key]))
  {
    hide MemberLines, AllMemberLines, DescribeResponse, DescribeParam, DescribeSchema;
    SaidOfKey(kind, was, now, Came(kind, key, what));
  }

  /**
   "Changed" exactly of what both have and not alike: from the old description to the new, if
   they differ, and, of a parameter, what required became.
   */
  lemma ChangedExactly(kind: Kind, was: map<string, Json>, now: map<string, Json>, key: string,
                       required: Option<bool>, schema: Option<Move>)
    ensures Changed(kind, key, Detail(required, schema)) in AllMemberLines(kind, was, now)
            <==> && key in was && key in now && was[key] != now[key]
                 && (required == if kind == Parameter && IsRequired(was[key]) != IsRequired(now[key])
                                 then Some(IsRequired(now[key])) else None)
                 && schema == if Describe(kind, was[key]) == Describe(kind, now[key]) then None
                              else Some(Move(Describe(kind, was[key]), Describe(kind, now[key])))
  {
    hide MemberLines, AllMemberLines, Describe, IsRequired;
    SaidOfKey(kind, was, now, Changed(kind, key, Detail(required, schema)));
  }

  /** Each line is about one of these keys. */
  predicate About(lines: seq<Line>, keys: seq<string>) {
    forall i | 0 <= i < |lines| :: (lines[i].Gone? || lines[i].Came? || lines[i].Changed?) && lines[i].key in keys
  }

  predicate KeysInOrder(lines: seq<Line>)
    requires forall i | 0 <= i < |lines| :: lines[i].Gone? || lines[i].Came? || lines[i].Changed?
  {
    forall i, j | 0 <= i < j < |lines| :: Below(lines[i].key, lines[j].key)
  }

  /** One line at most for each key, and the keys in order. */
  lemma {:induction false} LinesInOrder(kind: Kind, was: map<string, Json>, now: map<string, Json>, keys: seq<string>)
    requires Ascending(keys)
    ensures About(MemberLines(kind, was, now, keys), keys) && KeysInOrder(MemberLines(kind, was, now, keys))
    decreases |keys|
  {
    if keys != [] {
      hide Below, MemberLine, About, KeysInOrder, Ascending;
      var before, last := keys[..|keys| - 1], keys[|keys| - 1];
      BeforeTheLast(keys);
      LinesInOrder(kind, was, now, before);
      OneLineEach(kind, last, At(was, last), At(now, last));
      OneLineMore(MemberLines(kind, was, now, before), MemberLine(kind, last, At(was, last), At(now, last)), before, last);
    }
  }

  lemma BeforeTheLast(keys: seq<string>)
    requires keys != [] && Ascending(keys)
    ensures var before, last := keys[..|keys| - 1], keys[|keys| - 1];
            keys == before + [last] && Ascending(before) && forall k | k in before :: Below(k, last)
  {
    hide Below;
    var before, last := keys[..|keys| - 1], keys[|keys| - 1];
    forall k | k in before ensures Below(k, last) {
      var i :| 0 <= i < |before| && before[i] == k;
      assert keys[i] == k;
    }
  }

  lemma OneLineMore(a: seq<Line>, b: seq<Line>, before: seq<string>, last: string)
    requires About(a, before) && KeysInOrder(a) && |b| <= 1 && About(b, [last])
    requires forall k | k in before :: Below(k, last)
    ensures About(a + b, before + [last]) && KeysInOrder(a + b)
  {
    hide Below;
  }

  lemma OneLineEach(kind: Kind, key: string, o: Option<Json>, n: Option<Json>)
    ensures var lines := MemberLine(kind, key, o, n);
            |lines| <= 1 && About(lines, [key])
  {
    hide Describe, IsRequired;
  }

  /** What a schema is described as, by its members. */
  lemma SchemaMeans(schema: Json)
    ensures Get(schema, ["$ref"]).Some? && Get(schema, ["$ref"]).value.Str? ==>
              DescribeSchema(schema) == Get(schema, ["$ref"]).value.s
    ensures !IsText(Get(schema, ["$ref"])) && Get(schema, ["type"]) == Some(Str("array")) ==>
              DescribeSchema(schema)
              == "array of " + if Get(schema, ["items"]).Some? then DescribeSchema(Get(schema, ["items"]).value) else "(none)"
    ensures !IsText(Get(schema, ["$ref"])) && TextAt(schema, "type") == "" ==> DescribeSchema(schema) == "(none)"
    ensures !IsText(Get(schema, ["$ref"])) && TextAt(schema, "type") !in ["", "array"] ==>
              DescribeSchema(schema)
              == TextAt(schema, "type") + if TextAt(schema, "format") == "" then "" else "/" + TextAt(schema, "format")
  {
    MemberIsGet(schema, "$ref");
    MemberIsGet(schema, "type");
    MemberIsGet(schema, "items");
    MemberIsGet(schema, "format");
    hide Get;
    var ty := TextAt(schema, "type");
    assert ty + "" == ty;
    assert ty + ("/" + TextAt(schema, "format")) == ty + "/" + TextAt(schema, "format");
  }

  predicate IsText(v: Option<Json>) {
    v.Some? && v.value.Str?
  }

  /** The text at a member, or none. */
  function TextAt(v: Json, k: string): string {
    match Get(v, [k]) case Some(Str(s)) => s case _ => ""
  }

  lemma GetOne(v: Json, k: string)
    ensures Get(v, [k]) == At(Entries(v), k)
  {
    assert [k][1..] == [];
    if v.Obj? && k in v.fields {
      assert Get(v, [k]) == Get(v.fields[k], []);
    }
  }

  lemma GetTwo(v: Json, k: string, name: string)
    ensures Get(v, [k, name]) == At(EntriesAt(v, k), name)
  {
    assert [k, name][1..] == [name];
    if v.Obj? && k in v.fields {
      assert Get(v, [k, name]) == Get(v.fields[k], [name]);
      GetOne(v.fields[k], name);
    }
  }

  lemma MemberIsGet(v: Json, k: string)
    ensures Member(v, k) == Get(v, [k]) && StrOf(v, k) == TextAt(v, k)
    ensures v.Obj? && k in v.fields <==> Get(v, [k]).Some?
    ensures v.Obj? && k in v.fields ==> Get(v, [k]) == Some(v.fields[k])
  {
    GetOne(v, k);
  }

  /** A response is what it refers to, else its schema; a parameter its schema, else itself. */
  lemma ResponseAndParameterMean(v: Json)
    ensures DescribeResponse(v)
            == if IsText(Get(v, ["$ref"])) then TextAt(v, "$ref")
               else if Get(v, ["schema"]).Some? then DescribeSchema(Get(v, ["schema"]).value) else "(none)"
    ensures DescribeParam(v)
            == if Get(v, ["schema"]).Some? then DescribeSchema(Get(v, ["schema"]).value) else DescribeSchema(v)
    ensures IsRequired(v) <==> Get(v, ["required"]) == Some(Bool(true))
  {
    hide DescribeSchema;
    MemberIsGet(v, "$ref");
    MemberIsGet(v, "schema");
    MemberIsGet(v, "required");
  }

  lemma StringsOfOne(v: Json)
    ensures Strings([v]) == if v.Str? then [v.s] else []
  {
    assert [v][1..] == [];
  }

  /** The required list is the strings of the array there, in order. */
  lemma {:induction false} StringsAppend(a: seq<Json>, b: seq<Json>)
    ensures Strings(a + b) == Strings(a) + Strings(b)
  {
    if a == [] {
      assert a + b == b;
    } else {
      assert (a + b)[0] == a[0] && (a + b)[1..] == a[1..] + b;
      StringsAppend(a[1..], b);
      var first := if a[0].Str? then [a[0].s] else [];
      assert Strings(a) == first + Strings(a[1..]) && Strings(a + b) == first + Strings(a[1..] + b);
      hide Strings;
      Text.Associate(first, Strings(a[1..]), Strings(b));
    }
  }

  lemma RequiredListMeans(def: Json)
    ensures RequiredList(def)
            == if Get(def, ["required"]).Some? && Get(def, ["required"]).value.Arr?
               then Strings(Get(def, ["required"]).value.items) else []
  {
    MemberIsGet(def, "required");
  }
}
