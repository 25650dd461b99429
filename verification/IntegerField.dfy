/** A primitive UNIVERSAL 2 element with minimal contents, as read inside larger structures. */
module IntegerField {
  import opened Bytes
  import opened TagCodec
  import opened TlvCodec
  import BigInteger

  const INTEGER: Tag := Tag(Universal, false, 2)

  datatype IntegerFieldError = Framing(tlvError: TlvError) | WrongTag | Constructed
                             | Content(content: BigInteger.BigIntError)

  function DecodeIntegerTlv(input: seq<byte>): Result<(seq<byte>, nat), IntegerFieldError> {
    match DecodeTlv(input)
    case Err(e) => Err(Framing(e))
    case Ok((tlv, used)) =>
      if tlv.tag.class_ != Universal || tlv.tag.number != 2 then Err(WrongTag)
      else if tlv.tag.constructed then Err(Constructed)
      else
        match BigInteger.ValidateIntegerContent(tlv.value)
        case Err(e) => Err(Content(e))
        case Ok(_) => Ok((tlv.value, used))
  }

  lemma IntegerFieldAccepted(input: seq<byte>, content: seq<byte>, n: nat)
    ensures DecodeIntegerTlv(input) == Ok((content, n))
      <==> BigInteger.ValidateIntegerContent(content) == Ok(()) && |content| < U32_LIMIT
           && n == |Element(INTEGER, content)| && Element(INTEGER, content) <= input
  {
    hide DecodeTlv, Element, BigInteger.Redundant;
    ElementAccepted(input, INTEGER, content, n);
  }

  /** Why a field is refused: by the element the input begins with. */
  lemma IntegerFieldErrors(input: seq<byte>)
    ensures forall e :: DecodeIntegerTlv(input) == Err(Framing(e)) <==> DecodeTlv(input) == Err(e)
    ensures DecodeIntegerTlv(input) == Err(WrongTag) <==>
      exists tag, value :: Begins(input, tag, value) && (tag.class_ != Universal || tag.number != 2)
    ensures DecodeIntegerTlv(input) == Err(Constructed) <==>
      exists value :: Begins(input, Tag(Universal, true, 2), value)
    ensures forall e :: DecodeIntegerTlv(input) == Err(Content(e)) <==>
      exists value ::
        Begins(input, Tag(Universal, false, 2), value) && BigInteger.ValidateIntegerContent(value) == Err(e)
  {
    hide DecodeTlv, Begins, BigInteger.ValidateIntegerContent;
    DecodesWhatBegins(input);
  }
}
