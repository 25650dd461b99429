/** ECDSA-Sig-Value ::= SEQUENCE { r INTEGER, s INTEGER } (section 2.2.3 of RFC 3279). */
module EcdsaSig {
  import opened Bytes
  import opened TlvCodec
  import opened Sequence
  import opened IntegerField
  import opened BigInteger

  datatype EcdsaSigValue = EcdsaSigValue(r: seq<byte>, s: seq<byte>)

  datatype EcdsaSigValueError = BadOuterSeq(sequenceError: SequenceError)
                              | MissingR | R(rError: IntegerFieldError)
                              | MissingS | S(sError: IntegerFieldError)
                              | TrailingElements

  /** Read r then s, which must tile the content. */
  function ParseFields(outer: seq<byte>): Result<EcdsaSigValue, EcdsaSigValueError> {
    if |outer| == 0 then Err(MissingR)
    else
      match DecodeIntegerTlv(outer)
      case Err(e) => Err(R(e))
      case Ok((r, rUsed)) =>
        IntegerFieldAccepted(outer, r, rUsed);
        var rest := outer[rUsed..];
        if |rest| == 0 then Err(MissingS)
        else
          match DecodeIntegerTlv(rest)
          case Err(e) => Err(S(e))
          case Ok((s, sUsed)) =>
            if sUsed != |rest| then Err(TrailingElements) else Ok(EcdsaSigValue(r, s))
  }

  function ParseEcdsaSigValue(input: seq<byte>): Result<(EcdsaSigValue, nat), EcdsaSigValueError> {
    match DecodeSequenceTlv(input)
    case Err(e) => Err(BadOuterSeq(e))
    case Ok((outer, used)) =>
      match ParseFields(outer)
      case Err(e) => Err(e)
      case Ok(sig) => Ok((sig, used))
  }

  function ParseEcdsaSigValueStrict(input: seq<byte>): Result<EcdsaSigValue, EcdsaSigValueError> {
    match DecodeSequenceTlvStrict(input)
    case Err(e) => Err(BadOuterSeq(e))
    case Ok(outer) => ParseFields(outer)
  }

  // ---------------------------------------------------------------- the printed form

  /** r and s are minimal and short enough to be written. */
  ghost predicate FieldsOk(sig: EcdsaSigValue) {
    && ValidateIntegerContent(sig.r) == Ok(()) && |sig.r| < U32_LIMIT
    && ValidateIntegerContent(sig.s) == Ok(()) && |sig.s| < U32_LIMIT
  }

  ghost function SigContent(sig: EcdsaSigValue): seq<byte>
    requires FieldsOk(sig)
  {
    Element(INTEGER, sig.r) + Element(INTEGER, sig.s)
  }

  ghost predicate Printable(sig: EcdsaSigValue) {
    FieldsOk(sig) && |SigContent(sig)| < U32_LIMIT
  }

  /** The one DER encoding of the signature. */
  ghost function SigOctets(sig: EcdsaSigValue): seq<byte>
    requires Printable(sig)
  {
    Element(SEQUENCE, SigContent(sig))
  }

  lemma FieldsAccepted(outer: seq<byte>, sig: EcdsaSigValue)
    ensures ParseFields(outer) == Ok(sig) <==> FieldsOk(sig) && outer == SigContent(sig)
  {
    hide DecodeIntegerTlv, Element, Redundant;
    if ParseFields(outer) == Ok(sig) {
      var (r, rUsed) := DecodeIntegerTlv(outer).value;
      IntegerFieldAccepted(outer, r, rUsed);
      var rest := outer[rUsed..];
      IntegerFieldAccepted(rest, sig.s, |rest|);
      assert outer == outer[..rUsed] + rest;
    }
    if FieldsOk(sig) && outer == SigContent(sig) {
      var r, s := Element(INTEGER, sig.r), Element(INTEGER, sig.s);
      IntegerFieldAccepted(outer, sig.r, |r|);
      assert outer[|r|..] == s;
      IntegerFieldAccepted(s, sig.s, |s|);
      ElementNonempty(sig.r);
      ElementNonempty(sig.s);
    }
  }

  lemma ElementNonempty(content: seq<byte>)
    requires |content| < U32_LIMIT
    ensures |Element(INTEGER, content)| > 0
  {
    ElementTag(INTEGER, content, Element(INTEGER, content));
  }

  /** Contents are rejected for trailing elements exactly when two well-formed integers come first. */
  lemma TrailingExactly(outer: seq<byte>)
    ensures ParseFields(outer) == Err(TrailingElements)
      <==> exists sig, tail :: FieldsOk(sig) && tail != [] && outer == SigContent(sig) + tail
  {
    hide DecodeIntegerTlv, Element, Redundant;
    if ParseFields(outer) == Err(TrailingElements) {
      var (r, rUsed) := DecodeIntegerTlv(outer).value;
      IntegerFieldAccepted(outer, r, rUsed);
      var rest := outer[rUsed..];
      var (s, sUsed) := DecodeIntegerTlv(rest).value;
      IntegerFieldAccepted(rest, s, sUsed);
      var sig, tail := EcdsaSigValue(r, s), rest[sUsed..];
      assert outer == outer[..rUsed] + (rest[..sUsed] + tail);
      assert FieldsOk(sig) && tail != [] && outer == SigContent(sig) + tail;
    }
    forall sig, tail | FieldsOk(sig) && tail != [] && outer == SigContent(sig) + tail
      ensures ParseFields(outer) == Err(TrailingElements)
    {
      var r, s := Element(INTEGER, sig.r), Element(INTEGER, sig.s);
      assert outer == r + (s + tail);
      IntegerFieldAccepted(outer, sig.r, |r|);
      assert outer[|r|..] == s + tail;
      IntegerFieldAccepted(s + tail, sig.s, |s|);
      ElementNonempty(sig.r);
      ElementNonempty(sig.s);
    }
  }

  // ---------------------------------------------------------------- theorems

  /** Strict parsing and printing are inverse: b parses to sig exactly when b is sig's encoding. */
  lemma StrictAccepted(input: seq<byte>, sig: EcdsaSigValue)
    ensures ParseEcdsaSigValueStrict(input) == Ok(sig) <==> Printable(sig) && input == SigOctets(sig)
  {
    hide ParseFields, Element, DecodeSequenceTlvStrict, SigContent, FieldsOk;
    if ParseEcdsaSigValueStrict(input) == Ok(sig) {
      var outer := DecodeSequenceTlvStrict(input).value;
      StrictSequenceAccepted(input, outer);
      FieldsAccepted(outer, sig);
    }
    if Printable(sig) && input == SigOctets(sig) {
      StrictSequenceAccepted(input, SigContent(sig));
      FieldsAccepted(SigContent(sig), sig);
    }
  }

  /** Strictly accepted signatures that denote the same two integers are the same octets. */
  lemma SignatureIsUnique(a: seq<byte>, b: seq<byte>)
    requires ParseEcdsaSigValueStrict(a).Ok? && ParseEcdsaSigValueStrict(b).Ok?
    requires var x, y := ParseEcdsaSigValueStrict(a).value, ParseEcdsaSigValueStrict(b).value;
      TwosComplement(x.r) == TwosComplement(y.r) && TwosComplement(x.s) == TwosComplement(y.s)
    ensures a == b
  {
    hide ParseEcdsaSigValueStrict, SigOctets, TwosComplement, SigContent, Redundant;
    var x, y := ParseEcdsaSigValueStrict(a).value, ParseEcdsaSigValueStrict(b).value;
    StrictAccepted(a, x);
    StrictAccepted(b, y);
    AcceptedIsUnique(x.r, y.r);
    AcceptedIsUnique(x.s, y.s);
    assert x == y;
  }

  /** The strict parser accepts what the composable one accepts and consumes whole. */
  lemma StrictIsWholeComposable(input: seq<byte>, sig: EcdsaSigValue)
    ensures ParseEcdsaSigValueStrict(input) == Ok(sig) <==> ParseEcdsaSigValue(input) == Ok((sig, |input|))
  {
    hide ParseFields, DecodeSequenceTlv;
  }

  /** Appending octets to an accepted input changes nothing. */
  lemma Composable(input: seq<byte>, suffix: seq<byte>)
    requires ParseEcdsaSigValue(input).Ok?
    ensures ParseEcdsaSigValue(input + suffix) == ParseEcdsaSigValue(input)
  {
    hide ParseFields, DecodeSequenceTlv;
    SequenceComposable(input, suffix);
  }

  /** Why contents are refused before their end: each error by the fields that come first. */
  lemma FieldErrors(outer: seq<byte>)
    ensures ParseFields(outer) == Err(MissingR) <==> outer == []
    ensures forall e :: ParseFields(outer) == Err(R(e)) <==> outer != [] && DecodeIntegerTlv(outer) == Err(e)
    ensures ParseFields(outer) == Err(MissingS) <==>
      exists r :: ValidateIntegerContent(r) == Ok(()) && |r| < U32_LIMIT && outer == Element(INTEGER, r)
    ensures forall e :: ParseFields(outer) == Err(S(e)) <==>
      exists r, rest :: ValidateIntegerContent(r) == Ok(()) && |r| < U32_LIMIT && rest != []
                        && outer == Element(INTEGER, r) + rest && DecodeIntegerTlv(rest) == Err(e)
  {
    hide DecodeIntegerTlv, Element, Redundant, ValidateIntegerContent;
    forall r, rest | ValidateIntegerContent(r) == Ok(()) && |r| < U32_LIMIT && outer == Element(INTEGER, r) + rest
      ensures DecodeIntegerTlv(outer) == Ok((r, |Element(INTEGER, r)|))
      ensures outer != [] && outer[|Element(INTEGER, r)|..] == rest
    {
      IntegerFieldAccepted(outer, r, |Element(INTEGER, r)|);
      ElementNonempty(r);
    }
    if DecodeIntegerTlv(outer).Ok? {
      var (r, used) := DecodeIntegerTlv(outer).value;
      IntegerFieldAccepted(outer, r, used);
      assert outer == Element(INTEGER, r) + outer[used..];
    }
    forall r | |r| < U32_LIMIT && outer == Element(INTEGER, r) ensures outer == Element(INTEGER, r) + [] {}
  }
}
