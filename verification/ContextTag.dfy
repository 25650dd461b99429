/** The EXPLICIT [n] wrapper (section 8.14 of X.690): a constructed context-specific element. */
module ContextTag {
  import opened Bytes
  import opened TagCodec
  import opened TlvCodec

  datatype ContextTagError = BadTlv(tlvError: TlvError) | WrongClass | WrongNumber | NotConstructed

  function Explicit(n: nat): Tag {
    Tag(ContextSpecific, true, n)
  }

  function DecodeExplicitContext(expected: nat, input: seq<byte>): Result<(seq<byte>, nat), ContextTagError> {
    match DecodeTlv(input)
    case Err(e) => Err(BadTlv(e))
    case Ok((tlv, used)) =>
      if tlv.tag.class_ != ContextSpecific then Err(WrongClass)
      else if tlv.tag.number != expected then Err(WrongNumber)
      else if !tlv.tag.constructed then Err(NotConstructed)
      else Ok((tlv.value, used))
  }

  /** An accepted wrapper is the encoding of its contents, whatever those are. */
  lemma ExplicitAccepted(expected: nat, input: seq<byte>, inner: seq<byte>, n: nat)
    requires expected < U32_LIMIT
    ensures DecodeExplicitContext(expected, input) == Ok((inner, n))
      <==> |inner| < U32_LIMIT && n == |Element(Explicit(expected), inner)|
           && Element(Explicit(expected), inner) <= input
  {
    hide DecodeTlv, Element;
    ElementAccepted(input, Explicit(expected), inner, n);
  }

  /** Why a wrapper is refused: by the element the input begins with, its class first and its form last. */
  lemma ExplicitErrors(expected: nat, input: seq<byte>)
    ensures forall e :: DecodeExplicitContext(expected, input) == Err(BadTlv(e)) <==> DecodeTlv(input) == Err(e)
    ensures DecodeExplicitContext(expected, input) == Err(WrongClass) <==>
      exists tag, value :: Begins(input, tag, value) && tag.class_ != ContextSpecific
    ensures DecodeExplicitContext(expected, input) == Err(WrongNumber) <==>
      exists tag, value :: Begins(input, tag, value) && tag.class_ == ContextSpecific && tag.number != expected
    ensures DecodeExplicitContext(expected, input) == Err(NotConstructed) <==>
      exists value :: Begins(input, Tag(ContextSpecific, false, expected), value)
  {
    hide DecodeTlv, Begins;
    DecodesWhatBegins(input);
  }
}
