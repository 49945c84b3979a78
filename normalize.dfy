/** Normalisation of one upstream item into a buffered row, as `api_insertion`
    does it inline (Data/data.py:32-40): the rate string becomes an exact
    fraction and the record date is parsed with `strptime(..., "%Y-%m-%d")`. */
module Normalize {
  import opened Records

  /** Why an item could not be normalised; in the source each is an exception. */
  datatype ItemError =
    | MissingField(key: string)   // KeyError from item[key]
    | BadRate                     // float() ValueError, or .lower() on a non-string
    | BadDate                     // strptime ValueError or TypeError

  const RateKey := "avg_interest_rate_amt"
  const DateKey := "record_date"
  const TypeKey := "security_type_desc"
  const DescKey := "security_desc"

  // ---------------------------------------------------------------------------
  // Rate: float(raw.replace("%", "")) / 100 unless raw is falsy or "null"

  function AsciiLower(c: char): char
  {
    if 'A' <= c <= 'Z' then (c as int + 32) as char else c
  }

  /** `s.lower() == "null"`. No character outside ASCII lower-cases to
      'n', 'u' or 'l', so an ASCII case fold suffices. */
  predicate IsNullWord(s: string)
  {
    |s| == 4 && AsciiLower(s[0]) == 'n' && AsciiLower(s[1]) == 'u'
    && AsciiLower(s[2]) == 'l' && AsciiLower(s[3]) == 'l'
  }

  /** `s.replace("%", "")`. */
  function RemovePercent(s: string): (r: string)
    ensures forall i :: 0 <= i < |r| ==> r[i] != '%'
    ensures |r| <= |s|
  {
    if s == [] then []
    else (if s[0] == '%' then [] else [s[0]]) + RemovePercent(s[1..])
  }

  /** The ASCII characters Python's float() strips around a number. */
  predicate IsSpace(c: char)
  {
    c as int == 32 || 9 <= c as int <= 13 || 28 <= c as int <= 31
  }

  function StripLeft(s: string): (r: string)
    ensures |r| <= |s| && (r == [] || !IsSpace(r[0]))
  {
    if s != [] && IsSpace(s[0]) then StripLeft(s[1..]) else s
  }

  function StripRight(s: string): (r: string)
    ensures |r| <= |s| && (r == [] || !IsSpace(r[|r| - 1]))
  {
    if s != [] && IsSpace(s[|s| - 1]) then StripRight(s[..|s| - 1]) else s
  }

  function Strip(s: string): string
  {
    StripRight(StripLeft(s))
  }

  /** The exponent part of a float literal: empty, or e/E, an optional sign and digits. */
  function ParseExponent(s: string): Option<int>
  {
    if s == [] then Some(0)
    else if s[0] != 'e' && s[0] != 'E' then None
    else
      var v := s[1..];
      var w := if v != [] && (v[0] == '+' || v[0] == '-') then v[1..] else v;
      if w != [] && AllDigits(w) then
        Some(if v != [] && v[0] == '-' then -(DigitsValue(w) as int) else DigitsValue(w))
      else None
  }

  function MakeDecimal(negative: bool, digits: nat, scale: int): Decimal
  {
    var units := if scale >= 0 then digits else digits * Pow10(-scale);
    Decimal(if negative then -units else units, if scale >= 0 then scale else 0)
  }

  /** The text after an optional leading sign. */
  function Unsigned(t: string): string
  {
    if t != [] && (t[0] == '+' || t[0] == '-') then t[1..] else t
  }

  /** The text after an optional leading decimal point. */
  function AfterPoint(s: string): string
  {
    if s != [] && s[0] == '.' then s[1..] else s
  }

  /** An unsigned float literal: integer digits, an optional point and
      fraction digits (at least one digit in all) and an optional exponent;
      the digits as one number, and how many places to shift them right. */
  function ParseMagnitude(u: string): Option<(nat, int)>
  {
    var n := DigitRun(u);
    var f := AfterPoint(u[n..]);
    var m := DigitRun(f);
    if n + m == 0 then None
    else
      match ParseExponent(f[m..])
      case None => None
      case Some(e) =>
        assert AllDigits(u[..n] + f[..m]);
        Some((DigitsValue(u[..n] + f[..m]), m - e))
  }

  /** Python's float() on an ASCII string, exactly: surrounding white space,
      an optional sign, then an unsigned literal. */
  function ParseNumber(s: string): Option<Decimal>
  {
    var t := Strip(s);
    match ParseMagnitude(Unsigned(t))
    case None => None
    case Some(mag) => Some(MakeDecimal(t != [] && t[0] == '-', mag.0, mag.1))
  }

  const Zero := Decimal(0, 0)

  /** The value that line 33 computes from the raw rate field. */
  function NormalizeRate(v: JValue): Result<Decimal, ItemError>
  {
    match v
    case JNull => Ok(Zero)
    case JOther(truthy) => if truthy then Err(BadRate) else Ok(Zero)
    case JStr(s) =>
      if s == [] || IsNullWord(s) then Ok(Zero)
      else match ParseNumber(RemovePercent(s))
        case None => Err(BadRate)
        case Some(d) => Ok(Decimal(d.units, d.scale + 2))
  }

  // ---------------------------------------------------------------------------
  // Date: datetime.strptime(s, "%Y-%m-%d").date()

  predicate IsLeap(y: int)
  {
    y % 4 == 0 && (y % 100 != 0 || y % 400 == 0)
  }

  function DaysInMonth(y: int, m: int): int
  {
    if m == 2 then (if IsLeap(y) then 29 else 28)
    else if m == 4 || m == 6 || m == 9 || m == 11 then 30
    else 31
  }

  /** A date `datetime.date` accepts: years 1 to 9999, Gregorian month lengths. */
  predicate ValidDate(d: Date)
  {
    1 <= d.year <= 9999 && 1 <= d.month <= 12 && 1 <= d.day <= DaysInMonth(d.year, d.month)
  }

  predicate NonZeroDigit(c: char)
  {
    '1' <= c <= '9'
  }

  /** The `%m` pattern `1[0-2]|0[1-9]|[1-9]` followed by the second '-':
      the month and what follows the dash. */
  function MonthField(s: string): Option<(int, string)>
  {
    if |s| >= 3 && s[2] == '-' && ((s[0] == '1' && '0' <= s[1] <= '2') || (s[0] == '0' && NonZeroDigit(s[1]))) then
      Some((10 * DigitValue(s[0]) + DigitValue(s[1]), s[3..]))
    else if |s| >= 2 && s[1] == '-' && NonZeroDigit(s[0]) then
      Some((DigitValue(s[0]), s[2..]))
    else None
  }

  /** The `%d` pattern `3[01]|[12]\d|0[1-9]|[1-9]| [1-9]` at the end of the
      string: the first alternative that matches a prefix is taken, and any
      character it leaves over is "unconverted data". */
  function DayField(s: string): Option<int>
  {
    if |s| >= 2 && s[0] == '3' && (s[1] == '0' || s[1] == '1') then
      if |s| == 2 then Some(30 + DigitValue(s[1])) else None
    else if |s| >= 2 && (s[0] == '1' || s[0] == '2') && IsDigit(s[1]) then
      if |s| == 2 then Some(10 * DigitValue(s[0]) + DigitValue(s[1])) else None
    else if |s| >= 2 && s[0] == '0' && NonZeroDigit(s[1]) then
      if |s| == 2 then Some(DigitValue(s[1])) else None
    else if |s| >= 1 && NonZeroDigit(s[0]) then
      if |s| == 1 then Some(DigitValue(s[0])) else None
    else if |s| >= 2 && s[0] == ' ' && NonZeroDigit(s[1]) then
      if |s| == 2 then Some(DigitValue(s[1])) else None
    else None
  }

  function ParseDate(s: string): Option<Date>
  {
    if |s| < 5 || !AllDigits(s[..4]) || s[4] != '-' then None
    else
      var year := DigitsValue(s[..4]);
      match MonthField(s[5..])
      case None => None
      case Some(mf) =>
        match DayField(mf.1)
        case None => None
        case Some(day) =>
          var d := Date(year, mf.0, day);
          if ValidDate(d) then Some(d) else None
  }

  // ---------------------------------------------------------------------------
  // One item (Data/data.py:32-40)

  /** The row for one item, or the exception its first failing step raises:
      the rate key, the rate, the date key, the date, then the two text keys. */
  function NormalizeItem(item: RawItem): Result<Row, ItemError>
  {
    if RateKey !in item then Err(MissingField(RateKey))
    else match NormalizeRate(item[RateKey])
      case Err(e) => Err(e)
      case Ok(rate) =>
        if DateKey !in item then Err(MissingField(DateKey))
        else if !item[DateKey].JStr? then Err(BadDate)
        else match ParseDate(item[DateKey].s)
          case None => Err(BadDate)
          case Some(date) =>
            if TypeKey !in item then Err(MissingField(TypeKey))
            else if DescKey !in item then Err(MissingField(DescKey))
            else Ok(Row(date, item[TypeKey], item[DescKey], rate))
  }

  /** An item normalises exactly when it has all four keys, a rate that
      converts and a date string strptime accepts; the row then carries the
      converted rate, the parsed (hence valid) date and the two text values
      unchanged. A missing rate key is the first error raised. */
  lemma NormalizeItemOutcome(item: RawItem)
    ensures var r := NormalizeItem(item);
      && (r.Ok? <==>
            && RateKey in item && NormalizeRate(item[RateKey]).Ok?
            && DateKey in item && item[DateKey].JStr? && ParseDate(item[DateKey].s).Some?
            && TypeKey in item && DescKey in item)
      && (r.Ok? ==>
            && ValidDate(r.value.recordDate)
            && r.value.rate == NormalizeRate(item[RateKey]).value
            && Some(r.value.recordDate) == ParseDate(item[DateKey].s)
            && r.value.securityType == item[TypeKey] && r.value.security == item[DescKey])
      && (RateKey !in item ==> r == Err(MissingField(RateKey)))
  {
  }

  // ---------------------------------------------------------------------------
  // Rate: a canonical spelling of every decimal, and what line 33 makes of it

  /** `units` written with at least `scale` + 1 digits and a point before the
      last `scale` of them. */
  function RenderUnsigned(units: nat, scale: nat): (r: string)
  {
    var ds := PaddedDigits(units, scale);
    if scale == 0 then ds else ds[..|ds| - scale] + "." + ds[|ds| - scale..]
  }

  /** The digits of `units`, with leading zeros up to `scale` + 1 digits. */
  function PaddedDigits(units: nat, scale: nat): (ds: string)
    ensures AllDigits(ds) && |ds| > scale
  {
    var digits := NatToString(units);
    if |digits| <= scale then Zeros(scale + 1 - |digits|) + digits else digits
  }

  lemma PaddedDigitsValue(units: nat, scale: nat)
    ensures DigitsValue(PaddedDigits(units, scale)) == units
  {
    var digits := NatToString(units);
    NatToStringValue(units);
    if |digits| <= scale {
      var z := Zeros(scale + 1 - |digits|);
      assert PaddedDigits(units, scale) == z + digits;
      LeadingZeros(scale + 1 - |digits|, digits);
    } else {
      assert PaddedDigits(units, scale) == digits;
    }
  }

  function Render(d: Decimal): string
  {
    if d.units < 0 then "-" + RenderUnsigned(-d.units, d.scale) else RenderUnsigned(d.units, d.scale)
  }

  lemma {:induction false} DigitRunOfDigits(a: string, b: string)
    requires AllDigits(a)
    requires b == [] || !IsDigit(b[0])
    ensures DigitRun(a + b) == |a|
    decreases |a|
  {
    if a == [] {
      assert a + b == b;
    } else {
      assert (a + b)[1..] == a[1..] + b;
      DigitRunOfDigits(a[1..], b);
    }
  }

  lemma RenderUnsignedShape(units: nat, scale: nat)
    ensures var r := RenderUnsigned(units, scale);
      r != [] && IsDigit(r[0]) && IsDigit(r[|r| - 1])
  {
    var ds := PaddedDigits(units, scale);
    assert IsDigit(ds[0]) && IsDigit(ds[|ds| - 1]);
  }

  lemma {:induction false} StripNoop(s: string)
    requires s != [] && !IsSpace(s[0]) && !IsSpace(s[|s| - 1])
    ensures Strip(s) == s
  {
  }

  lemma {:induction false} ParseDigits(ds: string)
    requires ds != [] && AllDigits(ds)
    ensures ParseMagnitude(ds) == Some((DigitsValue(ds), 0))
  {
    DigitRunOfDigits(ds, []);
    assert ds + [] == ds;
    assert ds[..|ds|] == ds && ds[|ds|..] == [];
    assert AfterPoint([]) == [];
    assert DigitRun([]) == 0;
    assert ParseExponent([]) == Some(0);
  }

  lemma {:induction false} ParsePointed(ip: string, fp: string)
    requires ip != [] && AllDigits(ip) && AllDigits(fp)
    ensures ParseMagnitude(ip + "." + fp) == Some((DigitsValue(ip + fp), |fp|))
  {
    var u := ip + "." + fp;
    assert u == ip + ("." + fp);
    DigitRunOfDigits(ip, "." + fp);
    assert u[..|ip|] == ip;
    assert u[|ip|..] == "." + fp;
    assert AfterPoint(u[|ip|..]) == fp;
    DigitRunOfDigits(fp, []);
    assert fp + [] == fp;
    assert fp[..|fp|] == fp && fp[|fp|..] == [];
    assert ParseExponent([]) == Some(0);
  }

  /** The digits of a rendering, with the point before the last `scale`
      of them, parse back to the number and its scale. */
  lemma ParseRenderUnsigned(units: nat, scale: nat)
    ensures ParseMagnitude(RenderUnsigned(units, scale)) == Some((units, scale))
  {
    var ds := PaddedDigits(units, scale);
    PaddedDigitsValue(units, scale);
    if scale == 0 {
      ParseDigits(ds);
    } else {
      var ip, fp := ds[..|ds| - scale], ds[|ds| - scale..];
      assert ip + fp == ds;
      assert AllDigits(ip) by {
        forall k | 0 <= k < |ip| ensures IsDigit(ip[k]) { assert ip[k] == ds[k]; }
      }
      assert AllDigits(fp) by {
        forall k | 0 <= k < |fp| ensures IsDigit(fp[k]) { assert fp[k] == ds[|ds| - scale + k]; }
      }
      ParsePointed(ip, fp);
    }
  }

  /** Parsing the canonical rendering of a decimal gives back that decimal. */
  lemma {:induction false} ParseRender(d: Decimal)
    ensures ParseNumber(Render(d)) == Some(d)
  {
    var negative := d.units < 0;
    var a: nat := if negative then -d.units else d.units;
    RenderSign(d);
    ParseRenderUnsigned(a, d.scale);
    assert MakeDecimal(negative, a, d.scale) == d;
  }

  /** A rendered decimal has no surrounding space, and its sign is a leading
      '-' exactly when it is negative. */
  lemma RenderSign(d: Decimal)
    ensures var a: nat := if d.units < 0 then -d.units else d.units;
      var t := Render(d);
      && Strip(t) == t && Unsigned(t) == RenderUnsigned(a, d.scale)
      && (t != [] && t[0] == '-') == (d.units < 0)
  {
    var negative := d.units < 0;
    var a: nat := if negative then -d.units else d.units;
    var t := Render(d);
    var r := RenderUnsigned(a, d.scale);
    RenderUnsignedShape(a, d.scale);
    SignedShape(negative, r);
  }

  /** Digits with an optional '-' in front: nothing to strip, and the sign
      is read back as written. */
  lemma SignedShape(negative: bool, r: string)
    requires r != [] && IsDigit(r[0]) && IsDigit(r[|r| - 1])
    ensures var t := if negative then "-" + r else r;
      Strip(t) == t && Unsigned(t) == r && (t != [] && t[0] == '-') == negative
  {
    var t := if negative then "-" + r else r;
    if negative {
      assert t[0] == '-' && t[1..] == r && t[|t| - 1] == r[|r| - 1];
    }
    StripNoop(t);
  }

  predicate RenderChar(c: char)
  {
    IsDigit(c) || c == '.' || c == '-'
  }

  lemma RenderAlphabet(d: Decimal)
    ensures forall i :: 0 <= i < |Render(d)| ==> RenderChar(Render(d)[i])
  {
    var a: nat := if d.units < 0 then -d.units else d.units;
    UnsignedAlphabet(a, d.scale);
    SignedAlphabet(d.units < 0, RenderUnsigned(a, d.scale));
  }

  lemma UnsignedAlphabet(units: nat, scale: nat)
    ensures var u := RenderUnsigned(units, scale);
      forall i :: 0 <= i < |u| ==> RenderChar(u[i])
  {
    var ds := PaddedDigits(units, scale);
    if scale == 0 {
      DigitsAlphabet(ds);
    } else {
      PointedAlphabet(ds, |ds| - scale);
    }
  }

  lemma DigitsAlphabet(ds: string)
    requires AllDigits(ds)
    ensures forall i :: 0 <= i < |ds| ==> RenderChar(ds[i])
  {
    assert forall i :: 0 <= i < |ds| ==> IsDigit(ds[i]);
  }

  lemma PointedAlphabet(ds: string, k: nat)
    requires AllDigits(ds) && k <= |ds|
    ensures var u := ds[..k] + "." + ds[k..];
      forall i :: 0 <= i < |u| ==> RenderChar(u[i])
  {
    var u := ds[..k] + "." + ds[k..];
    forall i | 0 <= i < |u| ensures RenderChar(u[i]) {
      if i < k {
        assert u[i] == ds[i];
      } else if i > k {
        assert u[i] == ds[i - 1];
      }
    }
  }

  lemma SignedAlphabet(negative: bool, r: string)
    requires forall i :: 0 <= i < |r| ==> RenderChar(r[i])
    ensures var t := if negative then "-" + r else r;
      forall i :: 0 <= i < |t| ==> RenderChar(t[i])
  {
    var t := if negative then "-" + r else r;
    if negative {
      forall i | 0 <= i < |t| ensures RenderChar(t[i]) {
        if i > 0 {
          assert t[i] == r[i - 1];
        }
      }
    }
  }

  /** Dividing by 100 is shifting the point two places. */
  lemma ShiftTwoPlaces(d: Decimal)
    ensures Value(Decimal(d.units, d.scale + 2)) == Value(d) / 100.0
  {
    assert Pow10(d.scale + 2) == Pow10(d.scale) * 100;
  }

  /** A rate field holding a rendered decimal followed by '%' normalises to
      that decimal divided by 100. */
  lemma PercentRate(d: Decimal)
    ensures NormalizeRate(JStr(Render(d) + "%")) == Ok(Decimal(d.units, d.scale + 2))
    ensures Value(Decimal(d.units, d.scale + 2)) == Value(d) / 100.0
  {
    PercentRateParses(d);
    ShiftTwoPlaces(d);
  }

  lemma PercentRateParses(d: Decimal)
    ensures NormalizeRate(JStr(Render(d) + "%")) == Ok(Decimal(d.units, d.scale + 2))
  {
    var a: nat := if d.units < 0 then -d.units else d.units;
    var r := Render(d);
    RenderUnsignedShape(a, d.scale);
    RenderAlphabet(d);
    PercentSuffix(r);
    ParseRender(d);
    RateOfText(r + "%", r, d);
  }

  /** A non-empty, non-null text whose percent-free part parses is that number shifted two places. */
  lemma RateOfText(s: string, r: string, d: Decimal)
    requires s != [] && !IsNullWord(s) && RemovePercent(s) == r && ParseNumber(r) == Some(d)
    ensures NormalizeRate(JStr(s)) == Ok(Decimal(d.units, d.scale + 2))
  {
  }

  /** A '%' after rendered text is the only thing the percent removal takes
      away, and the text is neither empty nor the word "null". */
  lemma PercentSuffix(r: string)
    requires r != [] && forall i :: 0 <= i < |r| ==> RenderChar(r[i])
    ensures var s := r + "%";
      s != [] && !IsNullWord(s) && RemovePercent(s) == r
  {
    var s := r + "%";
    NoPercentRemoved(r);
    RemovePercentAppend(r, "%");
    assert RemovePercent("%") == [] by {
      assert "%"[1..] == [];
    }
    assert r + [] == r;
    NotNullWord(s, r[0]);
  }

  lemma NotNullWord(s: string, c: char)
    requires s != [] && s[0] == c && RenderChar(c)
    ensures !IsNullWord(s)
  {
  }

  lemma {:induction false} RemovePercentAppend(a: string, b: string)
    ensures RemovePercent(a + b) == RemovePercent(a) + RemovePercent(b)
    decreases |a|
  {
    if a == [] {
      assert a + b == b;
    } else {
      assert (a + b)[1..] == a[1..] + b;
      RemovePercentAppend(a[1..], b);
    }
  }

  lemma {:induction false} NoPercentRemoved(s: string)
    requires forall i :: 0 <= i < |s| ==> s[i] != '%'
    ensures RemovePercent(s) == s
    decreases |s|
  {
    if s != [] {
      NoPercentRemoved(s[1..]);
    }
  }

  lemma RenderExample()
    ensures Render(Decimal(5125, 3)) == "5.125"
  {
    assert NatToString(5125) == "5125" by {
      assert NatToString(5) == "5";
      assert NatToString(51) == "51";
      assert NatToString(512) == "512";
    }
    var ds := NatToString(5125);
    assert ds[..1] == "5" && ds[1..] == "125";
  }

  /** The worked example: "5.125%" is the fraction 0.05125. */
  lemma PercentExample()
    ensures NormalizeRate(JStr("5.125%")) == Ok(Decimal(5125, 5))
    ensures Value(Decimal(5125, 5)) == 0.05125
  {
    assert NormalizeRate(JStr("5.125%")) == Ok(Decimal(5125, 5)) by {
      RenderExample();
      PercentRate(Decimal(5125, 3));
      assert Render(Decimal(5125, 3)) + "%" == "5.125%";
    }
    assert Value(Decimal(5125, 5)) == 0.05125 by {
      assert Pow10(5) == 100000;
    }
  }

  /** Null-like rate fields are 0; any casing of "null" is null-like. */
  lemma NullRateExamples()
    ensures forall a, b, c, d | a in "nN" && b in "uU" && c in "lL" && d in "lL" ::
      NormalizeRate(JStr([a, b, c, d])) == Ok(Zero)
    ensures NormalizeRate(JStr("")) == Ok(Zero) && NormalizeRate(JNull) == Ok(Zero)
  {
  }

  /** Text that is not a number once '%' is removed raises, "%" alone included. */
  lemma {:induction false} BadRateExamples()
    ensures NormalizeRate(JStr("abc")) == Err(BadRate)
    ensures NormalizeRate(JStr("%")) == Err(BadRate)
  {
    assert RemovePercent("abc") == "abc" by {
      NoPercentRemoved("abc");
    }
    assert Strip("abc") == "abc";
    assert Unsigned("abc") == "abc";
    assert DigitRun("abc") == 0;
    assert AfterPoint("abc") == "abc";
    assert ParseMagnitude("abc") == None;
    assert RemovePercent("%") == [] by {
      assert "%"[1..] == [];
    }
    assert ParseMagnitude([]) == None;
  }

  // ---------------------------------------------------------------------------
  // Date: which strings the format accepts for a given date

  function Pad2(n: nat): (s: string)
    requires n < 100
  {
    [DigitChar(n / 10), DigitChar(n % 10)]
  }

  function Year4(y: nat): string
    requires y < 10000
  {
    var q1 := y / 10;
    var q2 := q1 / 10;
    [DigitChar(q2 / 10), DigitChar(q2 % 10), DigitChar(q1 % 10), DigitChar(y % 10)]
  }

  /** The month as `%m` matches it: two digits, or one for months 1 to 9. */
  function MonthSpellings(m: nat): set<string>
    requires m < 100
  {
    {Pad2(m)} + (if m < 10 then {[DigitChar(m)]} else {})
  }

  /** The day as `%d` matches it: two digits, or for days 1 to 9 one digit
      or a space and one digit. */
  function DaySpellings(d: nat): set<string>
    requires d < 100
  {
    {Pad2(d)} + (if d < 10 then {[DigitChar(d)], [' ', DigitChar(d)]} else {})
  }

  function Spellings(d: Date): set<string>
    requires ValidDate(d)
  {
    set m, dd | m in MonthSpellings(d.month) && dd in DaySpellings(d.day) :: Year4(d.year) + "-" + m + "-" + dd
  }

  /** The ISO 8601 spelling `YYYY-MM-DD`. */
  function IsoFormat(d: Date): string
    requires ValidDate(d)
  {
    Year4(d.year) + "-" + Pad2(d.month) + "-" + Pad2(d.day)
  }

  lemma {:induction false} YearDigits(s: string)
    requires |s| == 4 && AllDigits(s)
    ensures DigitsValue(s) < 10000 && Year4(DigitsValue(s)) == s
  {
    FourDigits(s);
    var v := DigitsValue(s);
    var a, b, c, d := DigitValue(s[0]), DigitValue(s[1]), DigitValue(s[2]), DigitValue(s[3]);
    PlaceValues(a, b, c, d);
    DigitCharValue(s[0]);
    DigitCharValue(s[1]);
    DigitCharValue(s[2]);
    DigitCharValue(s[3]);
    assert Year4(v) == [DigitChar(DigitValue(s[0])), DigitChar(DigitValue(s[1])), DigitChar(DigitValue(s[2])), DigitChar(DigitValue(s[3]))];
    assert s == [s[0], s[1], s[2], s[3]];
  }

  lemma PlaceValues(a: nat, b: nat, c: nat, d: nat)
    requires a < 10 && b < 10 && c < 10 && d < 10
    ensures var v := 1000 * a + 100 * b + 10 * c + d;
      v < 10000 && v / 10 / 10 / 10 == a && v / 10 / 10 % 10 == b && v / 10 % 10 == c && v % 10 == d
  {
    var v := 1000 * a + 100 * b + 10 * c + d;
    assert v / 10 == 100 * a + 10 * b + c;
    assert v / 10 / 10 == 10 * a + b;
  }

  lemma {:induction false} FourDigits(s: string)
    requires |s| == 4 && AllDigits(s)
    ensures DigitsValue(s) == 1000 * DigitValue(s[0]) + 100 * DigitValue(s[1]) + 10 * DigitValue(s[2]) + DigitValue(s[3])
  {
    var s3, s2, s1 := s[..3], s[..2], s[..1];
    assert s3[..2] == s2 && s2[..1] == s1 && s1[..0] == [];
    assert DigitsValue(s1) == DigitValue(s[0]);
    assert DigitsValue(s2) == DigitsValue(s1) * 10 + DigitValue(s[1]);
    assert DigitsValue(s3) == DigitsValue(s2) * 10 + DigitValue(s[2]);
  }

  lemma DigitCharValue(c: char)
    requires IsDigit(c)
    ensures DigitChar(DigitValue(c)) == c
  {
  }

  lemma {:induction false} Year4Value(y: nat)
    requires y < 10000
    ensures AllDigits(Year4(y)) && DigitsValue(Year4(y)) == y
  {
    var q1 := y / 10;
    var q2 := q1 / 10;
    var s := Year4(y);
    assert s == [DigitChar(q2 / 10), DigitChar(q2 % 10), DigitChar(q1 % 10), DigitChar(y % 10)];
    FourDigits(s);
    assert DigitsValue(s) == 1000 * (q2 / 10) + 100 * (q2 % 10) + 10 * (q1 % 10) + y % 10;
    assert y == 10 * q1 + y % 10;
    assert q1 == 10 * q2 + q1 % 10;
    assert q2 == 10 * (q2 / 10) + q2 % 10;
  }

  lemma {:induction false} MonthFieldSound(s: string) returns (sp: string)
    requires MonthField(s).Some?
    ensures var (m, rest) := MonthField(s).value;
      1 <= m <= 12 && sp in MonthSpellings(m) && s == sp + "-" + rest
  {
    if |s| >= 3 && s[2] == '-' && ((s[0] == '1' && '0' <= s[1] <= '2') || (s[0] == '0' && NonZeroDigit(s[1]))) {
      sp := s[..2];
      DigitCharValue(s[0]);
      DigitCharValue(s[1]);
      assert sp == [s[0], s[1]] == Pad2(MonthField(s).value.0);
      assert s == sp + "-" + s[3..];
    } else {
      sp := s[..1];
      DigitCharValue(s[0]);
      assert sp == [s[0]] == [DigitChar(MonthField(s).value.0)];
      assert s == sp + "-" + s[2..];
    }
  }

  lemma {:induction false} MonthFieldComplete(m: nat, sp: string, rest: string)
    requires 1 <= m <= 12 && sp in MonthSpellings(m)
    ensures MonthField(sp + "-" + rest) == Some((m, rest))
  {
    var s := sp + "-" + rest;
    if sp == Pad2(m) {
      assert s[3..] == rest;
    } else {
      assert s[2..] == rest;
    }
  }

  lemma {:induction false} DayFieldSound(s: string)
    requires DayField(s).Some?
    ensures 1 <= DayField(s).value <= 31 && s in DaySpellings(DayField(s).value)
  {
    var d := DayField(s).value;
    if |s| == 2 {
      assert s == [s[0], s[1]];
    } else {
      assert s == [s[0]];
    }
  }

  lemma {:induction false} DayFieldComplete(d: nat, s: string)
    requires 1 <= d <= 31 && s in DaySpellings(d)
    ensures DayField(s) == Some(d)
  {
  }

  /** `strptime(s, "%Y-%m-%d")` gives the date `d` exactly when `d` is a
      valid calendar date and `s` is one of its spellings: four year digits,
      a dash, the month, a dash and the day, with nothing around them. */
  lemma ParseDateSpellings(s: string, d: Date)
    ensures ParseDate(s) == Some(d) <==> ValidDate(d) && s in Spellings(d)
  {
    if ParseDate(s) == Some(d) {
      ParseDateSound(s, d);
    }
    if ValidDate(d) && s in Spellings(d) {
      ParseDateComplete(s, d);
    }
  }

  /** What strptime accepts is a spelling of the date it returns. */
  lemma ParseDateSound(s: string, d: Date)
    requires ParseDate(s) == Some(d)
    ensures ValidDate(d) && s in Spellings(d)
  {
    YearDigits(s[..4]);
    var mf := MonthField(s[5..]).value;
    var msp := MonthFieldSound(s[5..]);
    DayFieldSound(mf.1);
    assert s == s[..4] + "-" + s[5..];
    assert s == Year4(d.year) + "-" + msp + "-" + mf.1;
  }

  /** Every spelling of a valid date is accepted, as that date. */
  lemma ParseDateComplete(s: string, d: Date)
    requires ValidDate(d) && s in Spellings(d)
    ensures ParseDate(s) == Some(d)
  {
    var msp, dsp :| msp in MonthSpellings(d.month) && dsp in DaySpellings(d.day)
      && s == Year4(d.year) + "-" + msp + "-" + dsp;
    Year4Value(d.year);
    assert s[..4] == Year4(d.year);
    assert s[4] == '-';
    assert s[5..] == msp + "-" + dsp;
    MonthFieldComplete(d.month, msp, dsp);
    DayFieldComplete(d.day, dsp);
  }

  /** Every valid date survives formatting as `YYYY-MM-DD` and parsing back. */
  lemma {:induction false} IsoRoundTrip(d: Date)
    requires ValidDate(d)
    ensures ParseDate(IsoFormat(d)) == Some(d)
  {
    assert IsoFormat(d) in Spellings(d) by {
      assert Pad2(d.month) in MonthSpellings(d.month);
      assert Pad2(d.day) in DaySpellings(d.day);
    }
    ParseDateSpellings(IsoFormat(d), d);
  }

  /** The ISO spelling of any year, month and day parses to that date exactly
      when the date exists, and is rejected otherwise. */
  lemma IsoSpelling(y: nat, m: nat, d: nat)
    requires y < 10000 && 1 <= m <= 12 && 1 <= d <= 31
    ensures var s := Year4(y) + "-" + Pad2(m) + "-" + Pad2(d);
      ParseDate(s) == if ValidDate(Date(y, m, d)) then Some(Date(y, m, d)) else None
  {
    var s := Year4(y) + "-" + Pad2(m) + "-" + Pad2(d);
    Year4Value(y);
    assert s[..4] == Year4(y) && s[4] == '-';
    assert s[5..] == Pad2(m) + "-" + Pad2(d);
    MonthFieldComplete(m, Pad2(m), Pad2(d));
    DayFieldComplete(d, Pad2(d));
  }

  /** February 29 exists in the leap years 2024 and 2000. */
  lemma LeapDayExamples()
    ensures ParseDate("2024-02-29") == Some(Date(2024, 2, 29))
    ensures ParseDate("2000-02-29") == Some(Date(2000, 2, 29))
  {
    assert IsoFormat(Date(2024, 2, 29)) == "2024-02-29";
    IsoRoundTrip(Date(2024, 2, 29));
    assert IsoFormat(Date(2000, 2, 29)) == "2000-02-29";
    IsoRoundTrip(Date(2000, 2, 29));
  }

  /** February 30 never exists, not even in a leap year. */
  lemma {:induction false} FebruaryThirtiethExample()
    ensures ParseDate("2024-02-30") == None
  {
    FourDigits("2024");
    assert "2024-02-30"[..4] == "2024" && "2024-02-30"[5..] == "02-30" && "02-30"[3..] == "30";
  }

  /** February 29 does not exist in 2023, which is not divisible by 4. */
  lemma {:induction false} CommonYearExample()
    ensures ParseDate("2023-02-29") == None
  {
    FourDigits("2023");
    assert "2023-02-29"[..4] == "2023" && "2023-02-29"[5..] == "02-29" && "02-29"[3..] == "29";
  }

  /** Years `date` refuses where the digits parse: February 29 does not exist
      in 1900, a century not divisible by 400, and year 0 is below `MINYEAR`. */
  lemma {:induction false} CenturyAndYearZeroExamples()
    ensures ParseDate("1900-02-29") == None
    ensures ParseDate("0000-01-01") == None
  {
    FourDigits("1900");
    assert "1900-02-29"[..4] == "1900" && "1900-02-29"[5..] == "02-29" && "02-29"[3..] == "29";
    FourDigits("0000");
    assert "0000-01-01"[..4] == "0000" && "0000-01-01"[5..] == "01-01" && "01-01"[3..] == "01";
  }

  /** A single-digit month and day are accepted. */
  lemma {:induction false} SingleDigitFieldsExample()
    ensures ParseDate("2024-2-9") == Some(Date(2024, 2, 9))
  {
    FourDigits("2024");
    assert "2024-2-9"[..4] == "2024" && "2024-2-9"[5..] == "2-9" && "2-9"[2..] == "9";
  }

  /** A character after the day is unconverted data. */
  lemma {:induction false} UnconvertedDataExample()
    ensures ParseDate("2024-02-290") == None
  {
    FourDigits("2024");
    assert "2024-02-290"[..4] == "2024" && "2024-02-290"[5..] == "02-290" && "02-290"[3..] == "290";
  }
}
