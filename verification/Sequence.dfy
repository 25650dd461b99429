/** The DER SEQUENCE envelope: a constructed UNIVERSAL 16 element. */
module Sequence {
  import opened Bytes
  import opened TagCodec
  import opened TlvCodec

  const SEQUENCE: Tag := Tag(Universal, true, 16)

  datatype SequenceError = NotConstructed | WrongTag | Envelope(tlvError: TlvError) | TrailingData

  /** Decode the envelope at the front of input, ignoring what follows it. */
  function DecodeSequenceTlv(input: seq<byte>): Result<(seq<byte>, nat), SequenceError> {
    match DecodeTlv(input)
    case Err(e) => Err(Envelope(e))
    case Ok((tlv, used)) =>
      if tlv.tag.class_ != Universal || tlv.tag.number != 16 then Err(WrongTag)
      else if !tlv.tag.constructed then Err(NotConstructed)
      else Ok((tlv.value, used))
  }

  /** Decode an envelope that must be the whole input. */
  function DecodeSequenceTlvStrict(input: seq<byte>): Result<seq<byte>, SequenceError> {
    match DecodeSequenceTlv(input)
    case Err(e) => Err(e)
    case Ok((content, used)) => if used != |input| then Err(TrailingData) else Ok(content)
  }

  lemma SequenceAccepted(input: seq<byte>, content: seq<byte>, n: nat)
    ensures DecodeSequenceTlv(input) == Ok((content, n))
      <==> |content| < U32_LIMIT && n == |Element(SEQUENCE, content)| && Element(SEQUENCE, content) <= input
  {
    hide DecodeTlv, Element;
    ElementAccepted(input, SEQUENCE, content, n);
  }

  lemma StrictSequenceAccepted(input: seq<byte>, content: seq<byte>)
    ensures DecodeSequenceTlvStrict(input) == Ok(content)
      <==> |content| < U32_LIMIT && input == Element(SEQUENCE, content)
  {
    hide DecodeSequenceTlv, Element;
    SequenceAccepted(input, content, |input|);
  }

  lemma SequenceComposable(input: seq<byte>, suffix: seq<byte>)
    requires DecodeSequenceTlv(input).Ok?
    ensures DecodeSequenceTlv(input + suffix) == DecodeSequenceTlv(input)
  {
    hide DecodeTlv;
    TlvComposable(input, suffix);
  }

  /** Why an envelope is refused: by the element the input begins with. */
  lemma EnvelopeErrors(input: seq<byte>)
    ensures DecodeSequenceTlv(input) == Err(WrongTag) <==>
      exists tag, value :: Begins(input, tag, value) && (tag.class_ != Universal || tag.number != 16)
    ensures DecodeSequenceTlv(input) == Err(NotConstructed) <==>
      exists value :: Begins(input, Tag(Universal, false, 16), value)
    ensures forall e :: DecodeSequenceTlv(input) == Err(Envelope(e)) <==> DecodeTlv(input) == Err(e)
    ensures DecodeSequenceTlvStrict(input) == Err(TrailingData) <==>
      exists value :: Begins(input, Tag(Universal, true, 16), value)
                      && |Element(Tag(Universal, true, 16), value)| < |input|
  {
    hide DecodeTlv, Element, Begins;
    DecodesWhatBegins(input);
    ElementsFit(input);
  }

  lemma ElementsFit(input: seq<byte>)
    ensures forall tag, value | Begins(input, tag, value) ::
      tag.number < U32_LIMIT && |value| < U32_LIMIT && |Element(tag, value)| <= |input|
  {
    hide Element;
  }
}
