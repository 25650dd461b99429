/** DER OCTET STRING: a primitive UNIVERSAL 4 element with any contents. */
module OctetString {
  import opened Bytes
  import opened TagCodec
  import opened TlvCodec

  const OCTET_STRING: Tag := Tag(Universal, false, 4)

  datatype OctetStringError = Framing(tlvError: TlvError) | WrongTag | Constructed

  function DecodeOctetString(input: seq<byte>): Result<(seq<byte>, nat), OctetStringError> {
    match DecodeTlv(input)
    case Err(e) => Err(Framing(e))
    case Ok((tlv, used)) =>
      if tlv.tag.class_ != Universal || tlv.tag.number != 4 then Err(WrongTag)
      else if tlv.tag.constructed then Err(Constructed)
      else Ok((tlv.value, used))
  }

  lemma OctetStringAccepted(input: seq<byte>, content: seq<byte>, n: nat)
    ensures DecodeOctetString(input) == Ok((content, n))
      <==> |content| < U32_LIMIT && n == |Element(OCTET_STRING, content)| && Element(OCTET_STRING, content) <= input
  {
    hide DecodeTlv, Element;
    ElementAccepted(input, OCTET_STRING, content, n);
  }

  /** Why a field is refused: by the element the input begins with. */
  lemma OctetStringErrors(input: seq<byte>)
    ensures forall e :: DecodeOctetString(input) == Err(Framing(e)) <==> DecodeTlv(input) == Err(e)
    ensures DecodeOctetString(input) == Err(WrongTag) <==>
      exists tag, value :: Begins(input, tag, value) && (tag.class_ != Universal || tag.number != 4)
    ensures DecodeOctetString(input) == Err(Constructed) <==>
      exists value :: Begins(input, Tag(Universal, true, 4), value)
  {
    hide DecodeTlv, Begins;
    DecodesWhatBegins(input);
  }
}
