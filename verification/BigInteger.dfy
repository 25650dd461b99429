/** DER INTEGER contents of any size: two's complement, big endian, minimal. */
module BigInteger {
  import opened Bytes

  datatype BigIntError = Empty | NonMinimal

  /** The first octet only repeats the sign of the second (section 8.3.2 of X.690). */
  predicate Redundant(content: seq<byte>) {
    && |content| >= 2
    && ((content[0] == 0x00 && content[1] < 0x80) || (content[0] == 0xFF && content[1] >= 0x80))
  }

  function ValidateIntegerContent(content: seq<byte>): Result<(), BigIntError> {
    if |content| == 0 then Err(Empty)
    else if Redundant(content) then Err(NonMinimal)
    else Ok(())
  }

  predicate IsNegative(content: seq<byte>) {
    |content| > 0 && content[0] >= 0x80
  }

  /** The integer that content denotes. */
  function TwosComplement(content: seq<byte>): int {
    FromBE(content) - if IsNegative(content) then Pow256(|content|) else 0
  }

  /** content without its redundant leading octets. */
  function Minimal(content: seq<byte>): (r: seq<byte>)
    ensures |r| <= |content| && (|content| > 0 ==> |r| > 0)
  {
    if Redundant(content) then Minimal(content[1..]) else content
  }

  /** One step of the stripping loop. */
  lemma MinimalStep(content: seq<byte>, start: nat)
    requires start < |content|
    ensures if start + 1 < |content| && ((content[start] == 0x00 && content[start + 1] < 0x80)
                                         || (content[start] == 0xFF && content[start + 1] >= 0x80))
            then Minimal(content[start..]) == Minimal(content[start + 1..])
            else Minimal(content[start..]) == content[start..]
  {
    if start + 1 < |content| { assert content[start..][1..] == content[start + 1..]; }
  }

  /**
    Strip every redundant leading octet and copy the rest into out; refuse empty content and an out
    that is too small, leaving out as it was.
   */
  method EncodeMinimalIntegerInto(content: seq<byte>, out: array<byte>) returns (r: Option<nat>)
    modifies out
    ensures r == if |content| == 0 || out.Length < |Minimal(content)| then None else Some(|Minimal(content)|)
    ensures r.None? ==> out[..] == old(out[..])
    ensures r.Some? ==> out[..] == Minimal(content) + old(out[r.value..])
  {
    hide Minimal;
    if |content| == 0 { return None; }
    var start := 0;
    assert content[0..] == content;
    while start + 1 < |content|
      invariant start < |content| && Minimal(content[start..]) == Minimal(content)
      invariant out[..] == old(out[..])
    {
      MinimalStep(content, start);
      if content[start] == 0x00 && content[start + 1] < 0x80 {
        start := start + 1;
      } else if content[start] == 0xFF && content[start + 1] >= 0x80 {
        start := start + 1;
      } else {
        break;
      }
    }
    MinimalStep(content, start);
    var minimal := content[start..];
    assert minimal == Minimal(content);
    if out.Length < |minimal| { return None; }
    CopyInto(minimal, out, 0);
    return Some(|minimal|);
  }

  // ---------------------------------------------------------------- value

  /** Splitting off the leading octet. */
  lemma SplitFirst(content: seq<byte>)
    requires |content| > 0
    ensures FromBE(content) == content[0] * Pow256(|content| - 1) + FromBE(content[1..])
    ensures FromBE(content[1..]) < Pow256(|content| - 1)
  {
    var first, rest := content[..1], content[1..];
    assert content == first + rest;
    FromBEConcat(first, rest);
    assert FromBE(first) == content[0] by { assert first[..0] == []; }
    BEBound(rest);
  }

  lemma StripKeepsValue(content: seq<byte>)
    requires Redundant(content)
    ensures TwosComplement(content[1..]) == TwosComplement(content)
  {
    hide FromBE;
    SplitFirst(content);
  }

  /** Stripping preserves the integer. */
  lemma {:induction false} MinimalKeepsValue(content: seq<byte>)
    ensures TwosComplement(Minimal(content)) == TwosComplement(content)
  {
    hide TwosComplement;
    if Redundant(content) {
      StripKeepsValue(content);
      MinimalKeepsValue(content[1..]);
    }
  }

  /** The result of stripping is accepted, and accepted content is its own result. */
  lemma {:induction false} MinimalIsAccepted(content: seq<byte>)
    ensures |content| > 0 ==> ValidateIntegerContent(Minimal(content)) == Ok(())
    ensures ValidateIntegerContent(content) == Ok(()) <==> |content| > 0 && Minimal(content) == content
  {
    if Redundant(content) {
      MinimalIsAccepted(content[1..]);
      assert |Minimal(content)| < |content|;
    }
  }

  lemma MulRange(a: int, b: int, p: nat)
    requires a <= b
    ensures a * p <= b * p
  {
  }

  /** n octets hold the integers from -128 * 256^(n-1) to 128 * 256^(n-1) - 1. */
  lemma ValueRange(content: seq<byte>)
    requires |content| > 0
    ensures var half := 128 * Pow256(|content| - 1);
      && -half <= TwosComplement(content) < half
      && (TwosComplement(content) < 0 <==> IsNegative(content))
  {
    hide FromBE;
    SplitFirst(content);
    var p := Pow256(|content| - 1);
    assert Pow256(|content|) == 256 * p;
    var c := content[0];
    if c < 128 { MulRange(c, 127, p); } else { MulRange(128, c, p); MulRange(c, 255, p); }
  }

  /** Accepted content of two or more octets does not fit in one octet less. */
  lemma AcceptedRange(content: seq<byte>)
    requires ValidateIntegerContent(content) == Ok(()) && |content| >= 2
    ensures var half := 128 * Pow256(|content| - 2);
      TwosComplement(content) < -half || TwosComplement(content) >= half
  {
    hide FromBE;
    var n := |content|;
    SplitFirst(content);
    SplitFirst(content[1..]);
    var p, q := Pow256(n - 1), Pow256(n - 2);
    assert p == 256 * q && Pow256(n) == 256 * p;
    var c, d := content[0], content[1];
    if 1 <= c < 128 {
      MulRange(1, c, p);
    } else if c == 0 {
      MulRange(128, d, q);
    } else if c == 255 {
      MulRange(d, 127, q);
    } else {
      MulRange(c, 254, p);
    }
  }

  lemma SameLength(a: seq<byte>, b: seq<byte>)
    requires ValidateIntegerContent(a) == Ok(()) && ValidateIntegerContent(b) == Ok(())
    requires TwosComplement(a) == TwosComplement(b)
    ensures |a| >= |b|
  {
    hide TwosComplement;
    if |a| < |b| {
      ValueRange(a);
      AcceptedRange(b);
      Pow256Monotone(|a| - 1, |b| - 2);
    }
  }

  /** Accepted contents with the same integer are the same octets. */
  lemma AcceptedIsUnique(a: seq<byte>, b: seq<byte>)
    requires ValidateIntegerContent(a) == Ok(()) && ValidateIntegerContent(b) == Ok(())
    requires TwosComplement(a) == TwosComplement(b)
    ensures a == b
  {
    hide FromBE, Pow256;
    SameLength(a, b);
    SameLength(b, a);
    ValueRange(a);
    ValueRange(b);
    FromBEInjective(a, b);
  }

  /** Two contents denote the same integer exactly when they strip to the same octets. */
  lemma MinimalIsCanonical(a: seq<byte>, b: seq<byte>)
    requires |a| > 0 && |b| > 0
    ensures TwosComplement(a) == TwosComplement(b) <==> Minimal(a) == Minimal(b)
  {
    hide TwosComplement;
    MinimalKeepsValue(a);
    MinimalKeepsValue(b);
    if TwosComplement(a) == TwosComplement(b) {
      MinimalIsAccepted(a);
      MinimalIsAccepted(b);
      AcceptedIsUnique(Minimal(a), Minimal(b));
    }
  }

  lemma WidePositive(v: nat) returns (wide: seq<byte>)
    ensures |wide| > 0 && TwosComplement(wide) == v
  {
    hide FromBE, ToBE, Pow256;
    wide := [0] + ToBE(v);
    FromToBE(v);
    SplitFirst(wide);
    assert wide[1..] == ToBE(v);
  }

  lemma WideNegative(v: int) returns (wide: seq<byte>)
    requires v > 0
    ensures |wide| > 0 && TwosComplement(wide) == -v
  {
    var n := |ToBE(v)| + 1;
    var p := Pow256(n - 1);
    assert Pow256(n) == 256 * p;
    hide FromBE, ToBE, Pow256, FixedBE;
    ToBELength(v, n - 1);
    wide := FixedBE(Pow256(n) - v, n);
    FixedBEValue(Pow256(n) - v, n);
    SplitFirst(wide);
    if wide[0] < 128 { MulRange(wide[0], 127, p); }
  }

  /** Every integer has accepted contents, so by AcceptedIsUnique exactly one. */
  lemma EveryIntegerHasContent(v: int) returns (content: seq<byte>)
    ensures ValidateIntegerContent(content) == Ok(()) && TwosComplement(content) == v
  {
    hide TwosComplement, Minimal;
    var wide;
    if v >= 0 { wide := WidePositive(v); } else { wide := WideNegative(-v); }
    content := Minimal(wide);
    MinimalKeepsValue(wide);
    MinimalIsAccepted(wide);
  }

  /** No content of the same integer is shorter than the stripped one. */
  lemma MinimalIsShortest(content: seq<byte>, other: seq<byte>)
    requires |content| > 0 && |other| > 0 && TwosComplement(other) == TwosComplement(content)
    ensures |Minimal(content)| <= |other|
  {
    MinimalIsCanonical(content, other);
  }

  /** Acceptance depends on the first two octets only. */
  lemma MinimalityIsLocal(a: seq<byte>, b: seq<byte>)
    requires |a| >= 2 && |b| >= 2 && a[..2] == b[..2]
    ensures ValidateIntegerContent(a) == ValidateIntegerContent(b)
  {
    assert a[0] == a[..2][0] && a[1] == a[..2][1];
  }
}
