/** DER INTEGER contents as 64-bit signed integers. */
module Integer {
  import opened Bytes
  import opened BigInteger

  const U64_LIMIT: int := 0x1_0000_0000_0000_0000
  const I64_LIMIT: int := 0x8000_0000_0000_0000

  datatype IntError = EmptyContent | NotMinimal | TooLarge

  predicate IsI64(v: int) {
    -I64_LIMIT <= v < I64_LIMIT
  }

  /** The unsigned 64-bit pattern of v. */
  function Pattern(v: int): nat
    requires IsI64(v)
  {
    if v < 0 then v + U64_LIMIT else v
  }

  /** The minimal contents of v. */
  function IntegerOctets(v: int): seq<byte>
    requires IsI64(v)
  {
    Minimal(FixedBE(Pattern(v), 8))
  }

  /** What decode_integer returns. */
  function IntegerOf(content: seq<byte>): Result<int, IntError> {
    if |content| == 0 then Err(EmptyContent)
    else if Redundant(content) then Err(NotMinimal)
    else if |content| > 8 then Err(TooLarge)
    else Ok(TwosComplement(content))
  }

  lemma Pow256Eight()
    ensures Pow256(8) == U64_LIMIT && Pow256(7) == 0x100_0000_0000_0000 && 128 * Pow256(7) == I64_LIMIT
  {
    assert Pow256(2) == 0x1_0000;
    assert Pow256(4) == 0x1_0000_0000;
    assert Pow256(6) == 0x1_0000_0000_0000;
  }

  /** One shift-and-fill of the 64-bit accumulator, seen modulo 2^64. */
  lemma ShiftWraps(acc: nat, x: int)
    requires acc == x + U64_LIMIT && -U64_LIMIT <= 256 * x && x < 0
    ensures (acc * 256) % U64_LIMIT == 256 * x + U64_LIMIT
  {
    assert acc * 256 == 255 * U64_LIMIT + (256 * x + U64_LIMIT);
  }

  /** The decoder: a wrapping unsigned accumulator seeded with the sign, reread as signed. */
  method DecodeInteger(content: seq<byte>) returns (r: Result<int, IntError>)
    ensures r == IntegerOf(content)
  {
    if |content| == 0 { return Err(EmptyContent); }
    if |content| >= 2 {
      var c0, c1 := content[0], content[1];
      if (c0 == 0x00 && c1 < 0x80) || (c0 == 0xFF && c1 >= 0x80) { return Err(NotMinimal); }
    }
    if |content| > 8 { return Err(TooLarge); }
    hide FromBE, Pow256;
    var neg := content[0] >= 0x80;
    var acc := if neg then U64_LIMIT - 1 else 0;
    var i := 0;
    assert FromBE(content[..0]) == 0 && Pow256(0) == 1 by { AccumulatorStart(content); }
    while i < |content|
      invariant 0 <= i <= |content|
      invariant acc == FromBE(content[..i]) + if neg then U64_LIMIT - Pow256(i) else 0
      invariant 0 <= acc < U64_LIMIT
    {
      AccumulatorStep(content, i, acc, neg);
      acc := (acc * 256) % U64_LIMIT + content[i];
      i := i + 1;
    }
    assert content[..i] == content;
    ValueRange(content);
    Pow256Eight();
    Pow256Monotone(|content| - 1, 7);
    return Ok(if acc < I64_LIMIT then acc else acc - U64_LIMIT);
  }

  lemma AccumulatorStart(content: seq<byte>)
    ensures FromBE(content[..0]) == 0 && Pow256(0) == 1
  {
  }

  lemma AccumulatorStep(content: seq<byte>, i: nat, acc: nat, neg: bool)
    requires i < |content| <= 8
    requires acc == FromBE(content[..i]) + if neg then U64_LIMIT - Pow256(i) else 0
    ensures var next := (acc * 256) % U64_LIMIT + content[i];
      && next == FromBE(content[..i + 1]) + (if neg then U64_LIMIT - Pow256(i + 1) else 0)
      && next < U64_LIMIT
  {
    assert content[..i + 1] == content[..i] + [content[i]];
    FromBEAppend(content[..i], content[i]);
    BEBound(content[..i]);
    BEBound(content[..i + 1]);
    Pow256Eight();
    Pow256Monotone(i + 1, 8);
    assert Pow256(i + 1) == 256 * Pow256(i);
    if neg {
      ShiftWraps(acc, FromBE(content[..i]) - Pow256(i));
    }
  }

  /** The eight octets of v denote v. */
  lemma FullWidthValue(v: int)
    requires IsI64(v)
    ensures TwosComplement(FixedBE(Pattern(v), 8)) == v
    ensures IsNegative(FixedBE(Pattern(v), 8)) <==> v < 0
  {
    Pow256Eight();
    FixedBEValue(Pattern(v), 8);
    var be := FixedBE(Pattern(v), 8);
    hide FromBE, FixedBE, Pow256;
    SplitFirst(be);
    if be[0] < 128 { MulRange(be[0], 127, Pow256(7)); } else { MulRange(128, be[0], Pow256(7)); }
  }

  /** The encoder: strip repeated sign octets, then copy into an eight-octet buffer. */
  method EncodeInteger(v: int) returns (out: seq<byte>, n: nat)
    requires IsI64(v)
    ensures |out| == 8 && 1 <= n <= 8 && out[..n] == IntegerOctets(v)
    ensures forall k :: n <= k < 8 ==> out[k] == 0
  {
    hide FixedBE, FromBE, Pow256, Minimal, TwosComplement;
    var be := FixedBE(Pattern(v), 8);
    FullWidthValue(v);
    var start := 0;
    assert be[0..] == be;
    if v >= 0 {
      while start < 7 && be[start] == 0x00 && be[start + 1] < 0x80
        invariant 0 <= start <= 7 && be[start] < 0x80 && Minimal(be[start..]) == Minimal(be)
      {
        MinimalStep(be, start);
        start := start + 1;
      }
    } else {
      while start < 7 && be[start] == 0xFF && be[start + 1] >= 0x80
        invariant 0 <= start <= 7 && be[start] >= 0x80 && Minimal(be[start..]) == Minimal(be)
      {
        MinimalStep(be, start);
        start := start + 1;
      }
    }
    MinimalStep(be, start);
    n := 8 - start;
    var buf := new byte[8](_ => 0);
    var i := 0;
    while i < n
      invariant 0 <= i <= n
      invariant forall k :: start <= k < start + i ==> buf[k - start] == be[k]
      invariant forall k :: i <= k < 8 ==> buf[k] == 0
    {
      buf[i] := be[start + i];
      i := i + 1;
    }
    forall k | 0 <= k < n ensures buf[k] == be[start..][k] {
      assert buf[(start + k) - start] == be[start + k];
    }
    assert buf[..n] == be[start..];
    out := buf[..];
  }

  // ---------------------------------------------------------------- theorems

  /** Decoding and encoding are inverse: c decodes to v exactly when c is the encoding of v. */
  lemma IntegerAccepted(content: seq<byte>, v: int)
    ensures IntegerOf(content) == Ok(v) <==> IsI64(v) && content == IntegerOctets(v)
  {
    hide TwosComplement, FixedBE;
    if IsI64(v) {
      FullWidthValue(v);
      MinimalKeepsValue(FixedBE(Pattern(v), 8));
      MinimalIsAccepted(FixedBE(Pattern(v), 8));
    }
    if IntegerOf(content) == Ok(v) {
      FitsI64(content);
      AcceptedIsUnique(content, IntegerOctets(v));
    }
  }

  /** Accepted contents of at most eight octets are those whose integer fits in 64 bits. */
  lemma FitsI64(content: seq<byte>)
    requires ValidateIntegerContent(content) == Ok(())
    ensures |content| <= 8 <==> IsI64(TwosComplement(content))
  {
    hide TwosComplement;
    Pow256Eight();
    ValueRange(content);
    if |content| <= 8 {
      Pow256Monotone(|content| - 1, 7);
    } else {
      AcceptedRange(content);
      Pow256Monotone(7, |content| - 2);
    }
  }

  /** The verdict against the unbounded validator: too large only when minimal and beyond 64 bits. */
  lemma IntegerVerdict(content: seq<byte>)
    ensures IntegerOf(content) == Err(EmptyContent) <==> ValidateIntegerContent(content) == Err(Empty)
    ensures IntegerOf(content) == Err(NotMinimal) <==> ValidateIntegerContent(content) == Err(NonMinimal)
    ensures IntegerOf(content) == Err(TooLarge)
      <==> ValidateIntegerContent(content) == Ok(()) && !IsI64(TwosComplement(content))
  {
    if ValidateIntegerContent(content) == Ok(()) { FitsI64(content); }
  }
}
