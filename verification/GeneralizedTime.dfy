/** DER GeneralizedTime contents: YYYYMMDDHHMMSS, an optional canonical fraction, and Z. */
module GeneralizedTime {
  import opened Bytes

  const ZERO: byte := 48
  const POINT: byte := 46
  const ZULU: byte := 90

  datatype Time = Time(year: nat, month: nat, day: nat, hour: nat, minute: nat, second: nat, fraction: seq<byte>)

  datatype TimeError = BadLength | NonDigit | NotZulu | MonthRange | DayRange | HourRange | MinuteRange | SecondRange
                     | BadFractionSeparator | FractionEmpty | FractionTrailingZero

  predicate IsDigit(b: byte) {
    48 <= b <= 57
  }

  predicate AllDigits(s: seq<byte>) {
    forall i :: 0 <= i < |s| ==> IsDigit(s[i])
  }

  /** Digits only, the last one not zero (section 11.7 of X.690). */
  predicate CanonicalFraction(f: seq<byte>) {
    AllDigits(f) && (|f| > 0 ==> f[|f| - 1] != ZERO)
  }

  predicate FieldsInRange(t: Time) {
    && t.year <= 9999 && 1 <= t.month <= 12 && 1 <= t.day <= 31
    && t.hour <= 23 && t.minute <= 59 && t.second <= 59
  }

  predicate Encodable(t: Time) {
    FieldsInRange(t) && CanonicalFraction(t.fraction)
  }

  /** The number written by the two digits at position i. */
  function TwoDigits(b: seq<byte>, i: nat): nat
    requires i + 1 < |b| && IsDigit(b[i]) && IsDigit(b[i + 1])
  {
    (b[i] - ZERO) * 10 + (b[i + 1] - ZERO)
  }

  /** v as two digits. */
  function Two(v: nat): seq<byte>
    requires v <= 99
  {
    [ZERO + v / 10, ZERO + v % 10]
  }

  function Year(y: nat): seq<byte>
    requires y <= 9999
  {
    [ZERO + y / 1000, ZERO + y / 100 % 10, ZERO + y / 10 % 10, ZERO + y % 10]
  }

  function FractionPart(f: seq<byte>): seq<byte> {
    if |f| == 0 then [] else [POINT] + f
  }

  /** The fourteen mandatory digits. */
  function Mandatory(t: Time): (s: seq<byte>)
    requires FieldsInRange(t)
    ensures |s| == 14
  {
    Year(t.year) + Two(t.month) + Two(t.day) + Two(t.hour) + Two(t.minute) + Two(t.second)
  }

  /** The one DER spelling of t. */
  function TimeOctets(t: Time): seq<byte>
    requires FieldsInRange(t)
  {
    Mandatory(t) + FractionPart(t.fraction) + [ZULU]
  }

  /** What decode_generalized_time returns, in its documented order of precedence. */
  function TimeOf(content: seq<byte>): Result<Time, TimeError> {
    if |content| < 15 then Err(BadLength)
    else if !AllDigits(content[..14]) then Err(NonDigit)
    else if content[|content| - 1] != ZULU then Err(NotZulu)
    else
      assert forall i :: 0 <= i < 14 ==> content[i] == content[..14][i];
      var year := TwoDigits(content, 0) * 100 + TwoDigits(content, 2);
      var month, day := TwoDigits(content, 4), TwoDigits(content, 6);
      var hour, minute, second := TwoDigits(content, 8), TwoDigits(content, 10), TwoDigits(content, 12);
      if month < 1 || month > 12 then Err(MonthRange)
      else if day < 1 || day > 31 then Err(DayRange)
      else if hour > 23 then Err(HourRange)
      else if minute > 59 then Err(MinuteRange)
      else if second > 59 then Err(SecondRange)
      else
        match FractionOf(content[14..|content| - 1])
        case Err(e) => Err(e)
        case Ok(fraction) => Ok(Time(year, month, day, hour, minute, second, fraction))
  }

  /** The fraction digits of what stands between the mandatory digits and the Z. */
  function FractionOf(middle: seq<byte>): Result<seq<byte>, TimeError> {
    if |middle| == 0 then Ok([])
    else if middle[0] != POINT then Err(BadFractionSeparator)
    else if |middle| == 1 then Err(FractionEmpty)
    else if !AllDigits(middle[1..]) then Err(NonDigit)
    else if middle[|middle| - 1] == ZERO then Err(FractionTrailingZero)
    else Ok(middle[1..])
  }

  method DecodeGeneralizedTime(content: seq<byte>) returns (r: Result<Time, TimeError>)
    ensures r == TimeOf(content)
  {
    if |content| < 15 { return Err(BadLength); }
    var i := 0;
    while i < 14
      invariant 0 <= i <= 14 && forall k :: 0 <= k < i ==> IsDigit(content[k])
    {
      if !IsDigit(content[i]) {
        assert content[..14][i] == content[i];
        return Err(NonDigit);
      }
      i := i + 1;
    }
    var last := |content| - 1;
    if content[last] != ZULU { return Err(NotZulu); }
    var year := TwoDigits(content, 0) * 100 + TwoDigits(content, 2);
    var month, day := TwoDigits(content, 4), TwoDigits(content, 6);
    var hour, minute, second := TwoDigits(content, 8), TwoDigits(content, 10), TwoDigits(content, 12);
    if month < 1 || month > 12 { return Err(MonthRange); }
    if day < 1 || day > 31 { return Err(DayRange); }
    if hour > 23 { return Err(HourRange); }
    if minute > 59 { return Err(MinuteRange); }
    if second > 59 { return Err(SecondRange); }
    ghost var middle := content[14..last];
    var fraction: seq<byte> := [];
    if last != 14 {
      if content[14] != POINT { return Err(BadFractionSeparator); }
      fraction := content[15..last];
      assert middle[1..] == fraction;
      if |fraction| == 0 { return Err(FractionEmpty); }
      var j := 0;
      while j < |fraction|
        invariant 0 <= j <= |fraction| && forall k :: 0 <= k < j ==> IsDigit(fraction[k])
      {
        if !IsDigit(fraction[j]) { return Err(NonDigit); }
        j := j + 1;
      }
      if fraction[|fraction| - 1] == ZERO { return Err(FractionTrailingZero); }
    }
    return Ok(Time(year, month, day, hour, minute, second, fraction));
  }

  method FractionIsCanonical(f: seq<byte>) returns (r: bool)
    ensures r == CanonicalFraction(f)
  {
    var i := 0;
    while i < |f|
      invariant 0 <= i <= |f| && forall k :: 0 <= k < i ==> IsDigit(f[k])
    {
      if !IsDigit(f[i]) { return false; }
      i := i + 1;
    }
    return |f| == 0 || f[|f| - 1] != ZERO;
  }

  method WriteTwo(out: array<byte>, i: nat, v: nat)
    requires i + 1 < out.Length && v <= 99
    modifies out
    ensures out[..i + 2] == old(out[..i]) + Two(v) && out[i + 2..] == old(out[i + 2..])
  {
    out[i] := ZERO + v / 10;
    out[i + 1] := ZERO + v % 10;
  }

  method WriteYear(out: array<byte>, y: nat)
    requires out.Length >= 4 && y <= 9999
    modifies out
    ensures out[..4] == Year(y) && out[4..] == old(out[4..])
  {
    out[0] := ZERO + y / 1000;
    out[1] := ZERO + y / 100 % 10;
    out[2] := ZERO + y / 10 % 10;
    out[3] := ZERO + y % 10;
  }

  /** The writes of the fourteen mandatory digits. */
  method WriteMandatory(out: array<byte>, t: Time)
    requires out.Length >= 14 && FieldsInRange(t)
    modifies out
    ensures out[..14] == Mandatory(t) && out[14..] == old(out[14..])
  {
    hide Two, Year;
    ghost var before := out[..];
    WriteYear(out, t.year);
    WriteTwo(out, 4, t.month);
    assert out[6..] == before[6..];
    WriteTwo(out, 6, t.day);
    assert out[8..] == before[8..];
    WriteTwo(out, 8, t.hour);
    assert out[10..] == before[10..];
    WriteTwo(out, 10, t.minute);
    assert out[12..] == before[12..];
    WriteTwo(out, 12, t.second);
  }

  /** Write the spelling of t into out, or refuse and leave out as it was. */
  method EncodeGeneralizedTimeInto(t: Time, out: array<byte>) returns (r: Option<nat>)
    modifies out
    ensures r.Some? <==> Encodable(t) && |TimeOctets(t)| <= out.Length
    ensures r.None? ==> out[..] == old(out[..])
    ensures r.Some? ==> r.value == |TimeOctets(t)| && out[..] == TimeOctets(t) + old(out[r.value..])
  {
    hide Mandatory, CanonicalFraction, FieldsInRange;
    if !FieldsInRange(t) { return None; }
    var canonical := FractionIsCanonical(t.fraction);
    if !canonical { return None; }
    var hasFraction := |t.fraction| != 0;
    var total := 14 + (if hasFraction then 1 + |t.fraction| else 0) + 1;
    if out.Length < total { return None; }
    ghost var before := out[..];
    WriteMandatory(out, t);
    ghost var written := Mandatory(t);
    assert out[..] == written + before[14..] by { assert out[..] == out[..14] + out[14..]; }
    var pos := 14;
    if hasFraction {
      PutOne(written, before, POINT);
      out[pos] := POINT;
      pos := pos + 1;
      written := written + [POINT];
      assert out[..] == written + before[15..];
      PutMany(written, before, t.fraction);
      CopyInto(t.fraction, out, pos);
      pos := pos + |t.fraction|;
      written := written + t.fraction;
    }
    assert |written| == pos && out[..] == written + before[pos..];
    assert written == Mandatory(t) + FractionPart(t.fraction);
    PutOne(written, before, ZULU);
    out[pos] := ZULU;
    return Some(pos + 1);
  }

  /** Overwriting one octet after the written part of a buffer. */
  lemma PutOne(written: seq<byte>, before: seq<byte>, b: byte)
    requires |written| < |before|
    ensures (written + before[|written|..])[|written| := b] == (written + [b]) + before[|written| + 1..]
  {
  }

  lemma PutMany(written: seq<byte>, before: seq<byte>, s: seq<byte>)
    requires |written| + |s| <= |before|
    ensures var out := written + before[|written|..];
      out[..|written|] + s + out[|written| + |s|..] == (written + s) + before[|written| + |s|..]
  {
  }

  // ---------------------------------------------------------------- theorems

  lemma DigitsRoundTrip(b: seq<byte>, i: nat)
    requires i + 1 < |b| && IsDigit(b[i]) && IsDigit(b[i + 1])
    ensures TwoDigits(b, i) <= 99 && Two(TwoDigits(b, i)) == b[i..i + 2]
  {
  }

  lemma FourDigits(a: nat, b: nat, c: nat, d: nat)
    requires a <= 9 && b <= 9 && c <= 9 && d <= 9
    ensures var y := 1000 * a + 100 * b + 10 * c + d;
      y / 1000 == a && y / 100 % 10 == b && y / 10 % 10 == c && y % 10 == d
  {
    var y := 1000 * a + 100 * b + 10 * c + d;
    assert y / 100 == 10 * a + b;
    assert y / 10 == 10 * (10 * a + b) + c;
  }

  lemma YearInTwos(hi: nat, lo: nat)
    requires hi <= 99 && lo <= 99
    ensures Year(hi * 100 + lo) == Two(hi) + Two(lo)
  {
    FourDigits(hi / 10, hi % 10, lo / 10, lo % 10);
    assert 1000 * (hi / 10) + 100 * (hi % 10) + 10 * (lo / 10) + lo % 10 == hi * 100 + lo;
  }

  /** Two digits standing at position i of a longer string. */
  lemma TwoAt(s: seq<byte>, i: nat, v: nat)
    requires v <= 99 && i + 2 <= |s| && s[i..i + 2] == Two(v)
    ensures IsDigit(s[i]) && IsDigit(s[i + 1]) && TwoDigits(s, i) == v
  {
    assert s[i] == s[i..i + 2][0] && s[i + 1] == s[i..i + 2][1];
  }

  /** The mandatory digits of t read back as its fields. */
  lemma MandatoryReadsBack(t: Time, s: seq<byte>)
    requires FieldsInRange(t) && Mandatory(t) <= s
    ensures AllDigits(s[..14])
    ensures forall i :: 0 <= i < 14 ==> IsDigit(s[i])
    ensures TwoDigits(s, 0) * 100 + TwoDigits(s, 2) == t.year
    ensures TwoDigits(s, 4) == t.month && TwoDigits(s, 6) == t.day && TwoDigits(s, 8) == t.hour
    ensures TwoDigits(s, 10) == t.minute && TwoDigits(s, 12) == t.second
  {
    var m := Mandatory(t);
    assert t.year / 100 * 100 + t.year % 100 == t.year;
    hide Two, Year, TwoDigits;
    MandatorySlices(t);
    hide Mandatory;
    TwoIn(m, s, 0, t.year / 100); TwoIn(m, s, 2, t.year % 100); TwoIn(m, s, 4, t.month);
    TwoIn(m, s, 6, t.day); TwoIn(m, s, 8, t.hour); TwoIn(m, s, 10, t.minute); TwoIn(m, s, 12, t.second);
  }

  /** Where the fields stand among the mandatory digits. */
  lemma MandatorySlices(t: Time)
    requires FieldsInRange(t)
    ensures var m := Mandatory(t);
      && m[0..2] == Two(t.year / 100) && m[2..4] == Two(t.year % 100) && m[4..6] == Two(t.month)
      && m[6..8] == Two(t.day) && m[8..10] == Two(t.hour) && m[10..12] == Two(t.minute) && m[12..14] == Two(t.second)
  {
    YearInTwos(t.year / 100, t.year % 100);
    assert t.year / 100 * 100 + t.year % 100 == t.year;
    assert |Year(t.year)| == 4;
    hide Two, Year;
  }

  /** Two digits of m, where m is what s begins with. */
  lemma TwoIn(m: seq<byte>, s: seq<byte>, i: nat, v: nat)
    requires v <= 99 && i + 2 <= |m| && m <= s && m[i..i + 2] == Two(v)
    ensures IsDigit(s[i]) && IsDigit(s[i + 1]) && TwoDigits(s, i) == v
  {
    assert s[i..i + 2] == m[i..i + 2];
    TwoAt(s, i, v);
  }

  lemma FractionAccepted(middle: seq<byte>, f: seq<byte>)
    ensures FractionOf(middle) == Ok(f) <==> CanonicalFraction(f) && middle == FractionPart(f)
  {
    if FractionOf(middle) == Ok(f) && |middle| > 0 {
      assert middle == [POINT] + middle[1..];
      assert f[|f| - 1] == middle[|middle| - 1];
    }
    if CanonicalFraction(f) && middle == FractionPart(f) && |f| > 0 {
      assert middle[1..] == f;
      assert middle[|middle| - 1] == f[|f| - 1];
    }
  }

  lemma AcceptedTimeIsCanonical(content: seq<byte>, t: Time)
    requires TimeOf(content) == Ok(t)
    ensures Encodable(t) && content == TimeOctets(t)
  {
    assert forall i :: 0 <= i < 14 ==> content[i] == content[..14][i];
    MandatoryOf(content, t);
    hide Two, Year, TwoDigits, FractionOf, CanonicalFraction, FractionPart, Mandatory;
    var last := |content| - 1;
    FractionAccepted(content[14..last], t.fraction);
    assert content == content[..14] + content[14..last] + [content[last]];
  }

  /** The digits read are the digits the fields are written with. */
  lemma MandatoryOf(s: seq<byte>, t: Time)
    requires |s| >= 14 && forall i :: 0 <= i < 14 ==> IsDigit(s[i])
    requires FieldsInRange(t) && t.year == TwoDigits(s, 0) * 100 + TwoDigits(s, 2)
    requires t.month == TwoDigits(s, 4) && t.day == TwoDigits(s, 6) && t.hour == TwoDigits(s, 8)
    requires t.minute == TwoDigits(s, 10) && t.second == TwoDigits(s, 12)
    ensures s[..14] == Mandatory(t)
  {
    hide Two, Year, TwoDigits;
    DigitsRoundTrip(s, 0); DigitsRoundTrip(s, 2); DigitsRoundTrip(s, 4); DigitsRoundTrip(s, 6);
    DigitsRoundTrip(s, 8); DigitsRoundTrip(s, 10); DigitsRoundTrip(s, 12);
    YearInTwos(TwoDigits(s, 0), TwoDigits(s, 2));
    assert s[..14] == s[0..2] + s[2..4] + s[4..6] + s[6..8] + s[8..10] + s[10..12] + s[12..14];
  }

  lemma CanonicalTimeIsAccepted(t: Time)
    requires Encodable(t)
    ensures TimeOf(TimeOctets(t)) == Ok(t)
  {
    hide Two, Year, TwoDigits, FractionOf, CanonicalFraction, FractionPart, Mandatory;
    var content := TimeOctets(t);
    assert content[..14] == Mandatory(t);
    MandatoryReadsBack(t, content);
    assert content[14..|content| - 1] == FractionPart(t.fraction);
    FractionAccepted(content[14..|content| - 1], t.fraction);
  }

  /** Decoding and encoding are inverse: content decodes to t exactly when it is t's one spelling. */
  lemma TimeAccepted(content: seq<byte>, t: Time)
    ensures TimeOf(content) == Ok(t) <==> Encodable(t) && content == TimeOctets(t)
  {
    hide TimeOf, TimeOctets, FieldsInRange, CanonicalFraction;
    if TimeOf(content) == Ok(t) { AcceptedTimeIsCanonical(content, t); }
    if Encodable(t) && content == TimeOctets(t) { CanonicalTimeIsAccepted(t); }
  }

  /** The fraction of a second that the digits f denote. */
  ghost function FractionValue(f: seq<byte>): real {
    if |f| == 0 then 0.0 else ((f[0] - ZERO) as real + FractionValue(f[1..])) / 10.0
  }

  lemma {:induction false} FractionRange(f: seq<byte>)
    requires CanonicalFraction(f)
    ensures 0.0 <= FractionValue(f) < 1.0
    ensures |f| > 0 ==> FractionValue(f) > 0.0
  {
    if |f| > 0 {
      TailCanonical(f);
      FractionRange(f[1..]);
      if |f| == 1 { assert f[0] != ZERO; }
    }
  }

  lemma TailCanonical(f: seq<byte>)
    requires CanonicalFraction(f) && |f| > 0
    ensures CanonicalFraction(f[1..])
  {
    if |f| > 1 { assert f[1..][|f| - 2] == f[|f| - 1]; }
  }

  /** Canonical fractions of the same value are the same digits. */
  lemma {:induction false} FractionUnique(a: seq<byte>, b: seq<byte>)
    requires CanonicalFraction(a) && CanonicalFraction(b) && FractionValue(a) == FractionValue(b)
    ensures a == b
  {
    FractionRange(a);
    FractionRange(b);
    if |a| > 0 {
      TailCanonical(a);
      TailCanonical(b);
      FractionRange(a[1..]);
      FractionRange(b[1..]);
      assert (a[0] - ZERO) as real + FractionValue(a[1..]) == (b[0] - ZERO) as real + FractionValue(b[1..]);
      assert a[0] == b[0];
      FractionUnique(a[1..], b[1..]);
      assert a == [a[0]] + a[1..] && b == [b[0]] + b[1..];
    }
  }

  /** Two accepted contents that denote the same instant are the same octets. */
  lemma SameInstantSameOctets(c: seq<byte>, d: seq<byte>)
    requires TimeOf(c).Ok? && TimeOf(d).Ok?
    requires var t, u := TimeOf(c).value, TimeOf(d).value;
      && t.(fraction := []) == u.(fraction := [])
      && FractionValue(t.fraction) == FractionValue(u.fraction)
    ensures c == d
  {
    hide TimeOf, TimeOctets, FieldsInRange, CanonicalFraction;
    var t, u := TimeOf(c).value, TimeOf(d).value;
    TimeAccepted(c, t);
    TimeAccepted(d, u);
    FractionUnique(t.fraction, u.fraction);
    assert t == u;
  }

  // ---------------------------------------------------------------- why contents are refused

  /** Long enough, fourteen digits, and Z at the end. */
  ghost predicate Framed(c: seq<byte>) {
    |c| >= 15 && (forall i :: 0 <= i < 14 ==> 48 <= c[i] <= 57) && c[|c| - 1] == 90
  }

  /** The number at position i, read as decimal digits. */
  ghost function At(c: seq<byte>, i: nat): int
    requires i + 1 < |c|
  {
    var tens: int, ones: int := c[i], c[i + 1];
    10 * (tens - 48) + (ones - 48)
  }

  ghost predicate DateFits(c: seq<byte>)
    requires |c| >= 15
  {
    1 <= At(c, 4) <= 12 && 1 <= At(c, 6) <= 31
  }

  /** The octets between the seconds and the Z. */
  ghost function Between(c: seq<byte>): seq<byte>
    requires |c| >= 15
  {
    c[14..|c| - 1]
  }

  /** Everything up to the seconds is in order. */
  ghost predicate ClockFits(c: seq<byte>)
    requires |c| >= 15
  {
    Framed(c) && DateFits(c) && At(c, 8) <= 23 && At(c, 10) <= 59 && At(c, 12) <= 59
  }

  /** The errors of the mandatory part, each by the digits that cause it, the leftmost field first. */
  lemma FieldErrors(c: seq<byte>)
    ensures TimeOf(c) == Err(BadLength) <==> |c| < 15
    ensures TimeOf(c) == Err(NotZulu) <==>
      |c| >= 15 && (forall i :: 0 <= i < 14 ==> 48 <= c[i] <= 57) && c[|c| - 1] != 90
    ensures TimeOf(c) == Err(MonthRange) <==> Framed(c) && (At(c, 4) == 0 || At(c, 4) >= 13)
    ensures TimeOf(c) == Err(DayRange) <==>
      Framed(c) && 1 <= At(c, 4) <= 12 && (At(c, 6) == 0 || At(c, 6) >= 32)
    ensures TimeOf(c) == Err(HourRange) <==> Framed(c) && DateFits(c) && At(c, 8) >= 24
    ensures TimeOf(c) == Err(MinuteRange) <==> Framed(c) && DateFits(c) && At(c, 8) <= 23 && At(c, 10) >= 60
    ensures TimeOf(c) == Err(SecondRange) <==>
      Framed(c) && DateFits(c) && At(c, 8) <= 23 && At(c, 10) <= 59 && At(c, 12) >= 60
  {
    if |c| >= 15 {
      DigitsOf(c);
      FractionErrorKinds(Between(c));
    }
    hide AllDigits, FractionOf;
  }

  lemma DigitsOf(c: seq<byte>)
    requires |c| >= 15
    ensures AllDigits(c[..14]) <==> forall i :: 0 <= i < 14 ==> 48 <= c[i] <= 57
  {
    assert forall i :: 0 <= i < 14 ==> c[..14][i] == c[i];
  }

  lemma FractionErrorKinds(m: seq<byte>)
    ensures FractionOf(m) == Err(BadFractionSeparator) <==> m != [] && m[0] != 46
    ensures FractionOf(m) == Err(FractionEmpty) <==> m == [46]
    ensures FractionOf(m) == Err(NonDigit) <==>
      |m| > 1 && m[0] == 46 && exists i :: 0 < i < |m| && !(48 <= m[i] <= 57)
    ensures FractionOf(m) == Err(FractionTrailingZero) <==>
      |m| > 1 && m[0] == 46 && (forall i :: 0 < i < |m| ==> 48 <= m[i] <= 57) && m[|m| - 1] == 48
    ensures FractionOf(m).Err? ==>
      var e := FractionOf(m).error;
      e == BadFractionSeparator || e == FractionEmpty || e == NonDigit || e == FractionTrailingZero
  {
    if |m| > 1 { assert forall i :: 0 < i < |m| ==> m[i] == m[1..][i - 1]; }
  }

  /** The errors of the fraction, once the mandatory part is in order. */
  lemma FractionErrors(c: seq<byte>)
    ensures TimeOf(c) == Err(BadFractionSeparator) <==> |c| > 15 && ClockFits(c) && c[14] != 46
    ensures TimeOf(c) == Err(FractionEmpty) <==> |c| == 16 && ClockFits(c) && c[14] == 46
    ensures TimeOf(c) == Err(FractionTrailingZero) <==>
      |c| > 16 && ClockFits(c) && c[14] == 46 && (forall i :: 14 < i < |c| - 1 ==> 48 <= c[i] <= 57) && c[|c| - 2] == 48
    ensures TimeOf(c) == Err(NonDigit) <==>
      |c| >= 15
      && ((exists i :: 0 <= i < 14 && !(48 <= c[i] <= 57))
          || (|c| > 16 && ClockFits(c) && c[14] == 46 && exists i :: 14 < i < |c| - 1 && !(48 <= c[i] <= 57)))
  {
    if |c| >= 15 {
      DigitsOf(c);
      var m := Between(c);
      FractionErrorKinds(m);
      forall i | 14 <= i < |c| - 1 ensures c[i] == m[i - 14] {}
      forall i | 0 < i < |m| ensures m[i] == c[i + 14] {}
    }
    hide AllDigits, FractionOf;
  }
}
