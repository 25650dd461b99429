/** DER definite-length fields up to 2^32 - 1. */
module Length {
  import opened Bytes

  datatype LengthError = Truncated | Indefinite | Reserved | NonMinimal | TooLarge

  /**
    The canonical length field of v (sections 8.1.3 and 10.1 of X.690): one octet below 128, otherwise
    a count octet and the octets of v without leading zeros.
   */
  function LengthOctets(v: nat): seq<byte>
    requires |ToBE(v)| <= 126
  {
    if v < 128 then [v] else [128 + |ToBE(v)|] + ToBE(v)
  }

  /** Lengths below 2^32 take at most four octets. */
  lemma U32Octets(v: nat)
    ensures v < U32_LIMIT <==> |ToBE(v)| <= 4
  {
    ToBELength(v, 4);
    assert Pow256(4) == U32_LIMIT by { assert Pow256(2) == 0x1_0000; }
  }

  /** What decode_length returns on input: the length and the octets consumed, or the error. */
  function LengthOf(input: seq<byte>): Result<(nat, nat), LengthError> {
    if |input| == 0 then Err(Truncated)
    else
      var first := input[0];
      if first < 0x80 then Ok((first, 1))
      else if first == 0x80 then Err(Indefinite)
      else if first == 0xFF then Err(Reserved)
      else
        var n := first % 0x80;
        if |input| < 1 + n then Err(Truncated)
        else
          var octets := input[1..1 + n];
          if octets[0] == 0 then Err(NonMinimal)
          else if n > 4 then Err(TooLarge)
          else if FromBE(octets) < 0x80 then Err(NonMinimal)
          else Ok((FromBE(octets), 1 + n))
  }

  /** The decoder: a 32-bit accumulator, shifted and filled octet by octet. */
  method DecodeLength(input: seq<byte>) returns (r: Result<(nat, nat), LengthError>)
    ensures r == LengthOf(input)
  {
    if |input| == 0 { return Err(Truncated); }
    var first := input[0];
    if first < 0x80 { return Ok((first, 1)); }
    if first == 0x80 { return Err(Indefinite); }
    if first == 0xFF { return Err(Reserved); }
    var n := first % 0x80;
    if |input| < 1 + n { return Err(Truncated); }
    var octets := input[1..1 + n];
    if octets[0] == 0 { return Err(NonMinimal); }
    if n > 4 { return Err(TooLarge); }
    var val := 0;
    var i := 0;
    while i < n
      invariant 0 <= i <= n && val == FromBE(octets[..i])
    {
      BEBound(octets[..i]);
      Pow256Monotone(i, 3);
      assert Pow256(3) == 0x100_0000 by { assert Pow256(2) == 0x1_0000; }
      assert octets[..i + 1][..i] == octets[..i];
      // the low eight bits of the shifted accumulator are clear, so OR-ing an octet in adds it
      val := (val * 256) % U32_LIMIT + octets[i];
      i := i + 1;
    }
    assert octets[..n] == octets;
    if val < 0x80 { return Err(NonMinimal); }
    return Ok((val, 1 + n));
  }

  /** Stripping the leading zeros of the four octets leaves the octets of the number. */
  lemma SignificantOctets(v: nat, lead: nat)
    requires v < U32_LIMIT && lead <= 4
    requires forall i :: 0 <= i < lead ==> FixedBE(v, 4)[i] == 0
    requires lead < 4 ==> FixedBE(v, 4)[lead] != 0
    ensures FixedBE(v, 4)[lead..] == ToBE(v)
  {
    assert v < Pow256(4) by { assert Pow256(2) == 0x1_0000; }
    FixedBEValue(v, 4);
    LeadingZeros(FixedBE(v, 4), lead);
    ToFromBE(FixedBE(v, 4)[lead..]);
  }

  /** The encoder: a five-octet buffer and the number of octets used. */
  method EncodeLength(len: nat) returns (out: seq<byte>, used: nat)
    requires len < U32_LIMIT
    ensures |out| == 5 && used <= 5
    ensures |ToBE(len)| <= 4 && out[..used] == LengthOctets(len)
    ensures forall k :: used <= k < 5 ==> out[k] == 0
  {
    hide FromBE, ToBE, FixedBE;
    U32Octets(len);
    var buf := new byte[5](_ => 0);
    if len < 0x80 {
      buf[0] := len;
      assert buf[..1] == [len];
      return buf[..], 1;
    }
    var be := FixedBE(len, 4);
    var lead := 0;
    while lead < 4 && be[lead] == 0
      invariant lead <= 4 && forall k :: 0 <= k < lead ==> be[k] == 0
    {
      lead := lead + 1;
    }
    SignificantOctets(len, lead);
    var n := 4 - lead;
    buf[0] := 0x80 + n;
    var i := 0;
    while i < n
      invariant 0 <= i <= n && buf[0] == 0x80 + n
      invariant forall k :: lead <= k < lead + i ==> buf[1 + k - lead] == be[k]
      invariant forall k :: 1 + i <= k < 5 ==> buf[k] == 0
    {
      buf[1 + i] := be[lead + i];
      i := i + 1;
    }
    var field := [0x80 + n] + be[lead..];
    forall k | 0 <= k < 1 + n ensures buf[k] == field[k] {
      if k > 0 { assert buf[1 + (lead + k - 1) - lead] == be[lead + k - 1]; }
    }
    assert buf[..1 + n] == field;
    return buf[..], 1 + n;
  }

  // ---------------------------------------------------------------- theorems

  lemma AcceptedIsCanonical(input: seq<byte>, v: nat, n: nat)
    requires LengthOf(input) == Ok((v, n))
    ensures v < U32_LIMIT && |ToBE(v)| <= 4 && n <= |input| && input[..n] == LengthOctets(v)
  {
    hide ToBE, FromBE;
    U32Octets(v);
    if input[0] < 0x80 {
      assert input[..1] == [v];
      U32Octets(v);
    } else {
      var octets := input[1..n];
      ToFromBE(octets);
      assert input[..n] == [input[0]] + octets;
    }
  }

  lemma CanonicalIsAccepted(input: seq<byte>, v: nat)
    requires v < U32_LIMIT && |ToBE(v)| <= 4 && LengthOctets(v) <= input
    ensures LengthOf(input) == Ok((v, |LengthOctets(v)|))
  {
    hide ToBE, FromBE;
    var field := LengthOctets(v);
    assert input[0] == field[0];
    if v >= 0x80 {
      FromToBE(v);
      assert input[1..|field|] == field[1..] == ToBE(v);
    }
  }

  /** An accepted field is exactly the canonical field of its value, whatever follows it. */
  lemma LengthAccepted(input: seq<byte>, v: nat, n: nat)
    ensures LengthOf(input) == Ok((v, n))
      <==> v < U32_LIMIT && |ToBE(v)| <= 4 && n == |LengthOctets(v)| && LengthOctets(v) <= input
  {
    hide ToBE, FromBE;
    if LengthOf(input) == Ok((v, n)) { AcceptedIsCanonical(input, v, n); }
    if v < U32_LIMIT && |ToBE(v)| <= 4 && n == |LengthOctets(v)| && LengthOctets(v) <= input {
      CanonicalIsAccepted(input, v);
    }
  }

  /** No canonical field is a prefix of another, and equal fields have equal values. */
  lemma LengthPrefixFree(v: nat, w: nat)
    requires v < U32_LIMIT && w < U32_LIMIT && |ToBE(v)| <= 4 && |ToBE(w)| <= 4
    requires LengthOctets(v) <= LengthOctets(w)
    ensures v == w
  {
    hide ToBE, FromBE;
    LengthAccepted(LengthOctets(w), v, |LengthOctets(v)|);
    LengthAccepted(LengthOctets(w), w, |LengthOctets(w)|);
  }

  /** The errors that need only the first octet and the number of octets present. */
  lemma LengthFramingErrors(input: seq<byte>)
    ensures LengthOf(input) == Err(Indefinite) <==> |input| > 0 && input[0] == 0x80
    ensures LengthOf(input) == Err(Reserved) <==> |input| > 0 && input[0] == 0xFF
    ensures LengthOf(input) == Err(Truncated)
      <==> |input| == 0 || (0x80 < input[0] < 0xFF && |input| <= input[0] - 0x80)
  {
  }

  /**
    A complete long-form field is rejected as non-minimal exactly when it is not the canonical field
    of the number it holds, and as too large exactly when it is canonical but the number needs more
    than 32 bits.
   */
  lemma LengthLongForm(input: seq<byte>)
    requires |input| > 0 && 0x80 < input[0] < 0xFF && |input| > input[0] - 0x80
    ensures var n := input[0] - 0x80; var v := FromBE(input[1..1 + n]);
      && |ToBE(v)| <= 126
      && (LengthOf(input) == Err(NonMinimal) <==> input[..1 + n] != LengthOctets(v))
      && (LengthOf(input) == Err(TooLarge) <==> input[..1 + n] == LengthOctets(v) && v >= U32_LIMIT)
  {
    hide FromBE, ToBE;
    var n := input[0] - 0x80;
    var octets := input[1..1 + n];
    var v := FromBE(octets);
    BEBound(octets);
    ToBELength(v, n);
    U32Octets(v);
    assert input[..1 + n] == [input[0]] + octets;
    if octets[0] == 0 {
      FromToBE(v);
      assert LengthOf(input) == Err(NonMinimal);
      if v >= 0x80 { assert LengthOctets(v)[1] == ToBE(v)[0] != octets[0] == input[..1 + n][1]; }
    } else {
      ToFromBE(octets);
    }
  }
}
