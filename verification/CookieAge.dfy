/**
 `max_age_from`: the lifetime of a cookie, read out of the attributes it was set with. A
 remember token whose lifetime cannot be read is not kept.
 */
module CookieAge {
  import opened Wrappers
  import opened Text
  import FlagNames

  /** An instant, in nanoseconds since 1970. */
  type Instant = int

  const SECOND: int := 1_000_000_000

  /** The last instant that can be represented. */
  const LATEST: Instant := 253402207200 * SECOND + 999_999_999

  const MAX_I64: int := 0x7FFF_FFFF_FFFF_FFFF

  predicate AllDigits(s: string) {
    forall c | c in s :: '0' <= c <= '9'
  }

  function Number(digits: string): (n: nat)
    requires AllDigits(digits)
  {
    if digits == "" then 0
    else
      var init := digits[..|digits| - 1];
      assert forall c | c in init :: c in digits;
      assert digits[|digits| - 1] in digits;
      Number(init) * 10 + (digits[|digits| - 1] as int - '0' as int)
  }

  /** A signed 64-bit number in decimal digits, with or without a sign. */
  function ParseI64(s: string): Option<int> {
    var signed := s != "" && s[0] in {'+', '-'};
    var digits := if signed then s[1..] else s;
    if digits == "" || !AllDigits(digits) then None
    else
      var n: int := if signed && s[0] == '-' then -(Number(digits) as int) else Number(digits);
      if -MAX_I64 - 1 <= n <= MAX_I64 then Some(n) else None
  }

  function LowerChar(c: char): char {
    if 'A' <= c <= 'Z' then (c as int + 32) as char else c
  }

  predicate SameIgnoringCase(a: string, b: string) {
    |a| == |b| && forall i | 0 <= i < |a| :: LowerChar(a[i]) == LowerChar(b[i])
  }

  /** The attribute has a value. */
  predicate HasValue(part: string) {
    '=' in part
  }

  predicate NamesMaxAge(part: string) {
    && Find(part, '=').Some?
    && SameIgnoringCase(Trim(part[..Find(part, '=').value]), "max-age")
  }

  function Later(now: Instant, secs: int): Instant {
    now + secs * SECOND
  }

  /** When a cookie given `part` at `now` ends: nothing unless that is after now, and can be represented. */
  function EndOf(part: string, now: Instant): Option<Instant>
    requires NamesMaxAge(part)
  {
    match ParseI64(Trim(part[Find(part, '=').value + 1..]))
    case None => None
    case Some(secs) =>
      if secs <= 0 || Later(now, secs) > LATEST then None else Some(Later(now, secs))
  }

  /** The first `Max-Age` decides, unless an attribute without a value comes before it. */
  function EndIn(parts: seq<string>, now: Instant): Option<Instant> {
    if parts == [] || !HasValue(parts[0]) then None
    else if NamesMaxAge(parts[0]) then EndOf(parts[0], now)
    else EndIn(parts[1..], now)
  }

  function End(attrs: string, now: Instant): Option<Instant> {
    EndIn(SplitOn(attrs, ';'), now)
  }

  method MaxAgeFrom(attrs: string, now: Instant) returns (end: Option<Instant>)
    ensures end == End(attrs, now)
  {
    hide Find, SplitOn, Trim, ParseI64, SameIgnoringCase;
    var parts := SplitOn(attrs, ';');
    assert parts[0..] == parts;
    for i := 0 to |parts|
      invariant EndIn(parts, now) == EndIn(parts[i..], now)
    {
      assert parts[i..][0] == parts[i] && parts[i..][1..] == parts[i + 1..];
      var at := Find(parts[i], '=');
      if at.None? {
        return None;
      }
      if SameIgnoringCase(Trim(parts[i][..at.value]), "max-age") {
        var secs := ParseI64(Trim(parts[i][at.value + 1..]));
        if secs.None? || secs.value <= 0 {
          return None;
        }
        var sum := Later(now, secs.value);
        return if sum > LATEST then None else Some(sum);
      }
    }
    end := None;
  }

  /** The `i`-th attribute gives a lifetime: it is the first `Max-Age`, and every one before it has a value. */
  predicate ReadAt(parts: seq<string>, i: nat, now: Instant) {
    && i < |parts| && NamesMaxAge(parts[i]) && EndOf(parts[i], now).Some?
    && forall j | 0 <= j < i :: HasValue(parts[j]) && !NamesMaxAge(parts[j])
  }

  ghost predicate Readable(parts: seq<string>, now: Instant) {
    exists i: nat :: ReadAt(parts, i, now)
  }

  /** A lifetime is read exactly when the first `Max-Age` gives one and no bare attribute comes before it. */
  lemma {:induction false} ReadExactly(parts: seq<string>, now: Instant)
    ensures EndIn(parts, now).Some? <==> Readable(parts, now)
    ensures forall i: nat :: ReadAt(parts, i, now) ==> EndIn(parts, now) == EndOf(parts[i], now)
  {
    hide NamesMaxAge, EndOf, HasValue;
    if parts != [] {
      var rest := parts[1..];
      ReadExactly(rest, now);
      NamedHasValue(parts[0]);
      if HasValue(parts[0]) && !NamesMaxAge(parts[0]) {
        forall i: nat ensures ReadAt(rest, i, now) ==> ReadAt(parts, i + 1, now) {
          if ReadAt(rest, i, now) {
            forall j | 0 <= j < i + 1 ensures HasValue(parts[j]) && !NamesMaxAge(parts[j]) {
              if j > 0 {
                assert parts[j] == rest[j - 1];
              }
            }
          }
        }
        forall i: nat | ReadAt(parts, i, now) ensures i > 0 && ReadAt(rest, i - 1, now) {
          assert forall j | 0 <= j < i - 1 :: rest[j] == parts[j + 1];
        }
      } else if NamesMaxAge(parts[0]) && EndOf(parts[0], now).Some? {
        assert ReadAt(parts, 0, now);
      }
    }
  }

  lemma NamedHasValue(part: string)
    ensures NamesMaxAge(part) ==> HasValue(part)
  {
  }

  /** So the order of the attributes counts: a bare one in front hides every lifetime. */
  lemma BareAttributeHides(bare: string, attrs: string, now: Instant)
    requires ';' !in bare && !HasValue(bare)
    ensures End(bare + ";" + attrs, now).None?
    ensures End(attrs, now).Some? ==> End(attrs + ";" + bare, now) == End(attrs, now)
  {
    hide SplitOn, EndOf;
    SplitBetween(bare, ';', attrs);
    SplitBetween(attrs, ';', bare);
    SplitWhole(bare, ';');
    EndInFront(SplitOn(attrs, ';'), [bare], now);
  }

  lemma {:induction false} EndInFront(parts: seq<string>, more: seq<string>, now: Instant)
    ensures EndIn(parts, now).Some? ==> EndIn(parts + more, now) == EndIn(parts, now)
  {
    if parts != [] {
      assert (parts + more)[1..] == parts[1..] + more;
      EndInFront(parts[1..], more, now);
    }
  }

  lemma {:induction false} DecimalIsNumber(n: nat)
    ensures FlagNames.Decimal(n) != "" && AllDigits(FlagNames.Decimal(n)) && Number(FlagNames.Decimal(n)) == n
  {
    var s := FlagNames.Decimal(n);
    if n < 10 {
      assert s[..0] == "" && Number("") == 0;
    } else {
      DecimalIsNumber(n / 10);
      assert s[..|s| - 1] == FlagNames.Decimal(n / 10);
    }
  }

  lemma {:induction false} NoBlanksToTrim(s: string)
    requires forall c | c in s :: !IsSpace(c)
    ensures Trim(s) == s
  {
    if s != "" {
      assert s[0] in s && s[|s| - 1] in s;
    }
  }

  /**
   The lifetime is in seconds from now, in decimal digits; nothing that is not after now counts,
   nor what cannot be represented.
   */
  lemma MaxAgeMeans(name: string, secs: nat, now: Instant)
    requires SameIgnoringCase(name, "max-age")
    ensures End(name + "=" + FlagNames.Decimal(secs), now)
            == if 0 < secs <= MAX_I64 && Later(now, secs) <= LATEST then Some(Later(now, secs)) else None
  {
    var digits := FlagNames.Decimal(secs);
    DecimalIsNumber(secs);
    NameIsClean(name);
    hide FlagNames.Decimal;
    DigitsMean(name, digits, now);
  }

  lemma DigitsMean(name: string, digits: string, now: Instant)
    requires SameIgnoringCase(name, "max-age") && Trim(name) == name && '=' !in name && ';' !in name
    requires digits != "" && AllDigits(digits)
    ensures var secs := Number(digits);
            End(name + "=" + digits, now)
            == if 0 < secs <= MAX_I64 && Later(now, secs) <= LATEST then Some(Later(now, secs)) else None
  {
    Unsigned(digits);
    DigitsAreClean(digits);
    hide Number, ParseI64, AllDigits, SameIgnoringCase, Trim, IsSpace, EndOf, NamesMaxAge, HasValue, End, Later;
    PartMeans(name, digits, now);
    assert ';' !in name + "=" + digits;
    AloneMeans(name + "=" + digits, now);
  }

  lemma NameIsClean(name: string)
    requires SameIgnoringCase(name, "max-age")
    ensures Trim(name) == name && '=' !in name && ';' !in name
  {
    hide Trim;
    forall c | c in name ensures c == '-' || 'A' <= c <= 'Z' || 'a' <= c <= 'z' {
      var i :| 0 <= i < |name| && name[i] == c;
      assert LowerChar(name[i]) == "max-age"[i];
    }
    NoBlanksToTrim(name);
  }

  lemma UsualSpellings()
    ensures SameIgnoringCase("Max-Age", "max-age") && SameIgnoringCase("max-age", "max-age")
    ensures !SameIgnoringCase("Path", "max-age") && !SameIgnoringCase("Expires", "max-age")
    ensures forall now, secs :: Later(now, secs) == now + secs * 1_000_000_000
  {
    assert LowerChar("Expires"[0]) == 'e' && LowerChar("max-age"[0]) == 'm';
  }

  lemma DigitsAreClean(digits: string)
    requires AllDigits(digits)
    ensures ';' !in digits && forall c | c in digits :: !IsSpace(c)
  {
  }

  lemma PartMeans(name: string, value: string, now: Instant)
    requires SameIgnoringCase(name, "max-age") && Trim(name) == name && '=' !in name && forall c | c in value :: !IsSpace(c)
    ensures var part := name + "=" + value;
            && NamesMaxAge(part) && HasValue(part)
            && EndOf(part, now)
               == var secs := ParseI64(value);
                  if secs.None? || secs.value <= 0 || Later(now, secs.value) > LATEST then None
                  else Some(Later(now, secs.value))
  {
    hide Find, Trim, ParseI64, SameIgnoringCase, IsSpace;
    var part := name + "=" + value;
    FindAfter(name, '=', value);
    assert part[..|name|] == name && part[|name| + 1..] == value;
    NoBlanksToTrim(value);
  }

  lemma AloneMeans(part: string, now: Instant)
    requires ';' !in part && NamesMaxAge(part) && HasValue(part)
    ensures End(part, now) == EndOf(part, now)
  {
    hide NamesMaxAge, HasValue, EndOf;
    SplitWhole(part, ';');
  }

  lemma Unsigned(digits: string)
    requires digits != "" && AllDigits(digits)
    ensures ParseI64(digits) == if Number(digits) <= MAX_I64 then Some(Number(digits)) else None
    ensures ParseI64("-" + digits) == if Number(digits) <= MAX_I64 + 1 then Some(-(Number(digits) as int)) else None
    ensures ParseI64("+" + digits) == ParseI64(digits)
  {
    assert digits[0] in digits;
    assert ("-" + digits)[1..] == digits && ("+" + digits)[1..] == digits;
  }
}
