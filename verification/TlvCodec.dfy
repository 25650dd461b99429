/** One DER element: identifier, definite length, value. */
module TlvCodec {
  import opened Bytes
  import opened TagCodec
  import Length

  datatype Tlv = Tlv(tag: Tag, value: seq<byte>)

  datatype TlvError = TagInvalid(tagError: TagError) | LengthInvalid(lengthError: Length.LengthError) | Truncated

  ghost predicate Encodable(tlv: Tlv) {
    tlv.tag.number < U32_LIMIT && |tlv.value| < U32_LIMIT
  }

  /** The canonical encoding of an element. */
  ghost function TlvOctets(tlv: Tlv): seq<byte>
    requires Encodable(tlv)
  {
    Length.U32Octets(|tlv.value|);
    TagOctets(tlv.tag) + Length.LengthOctets(|tlv.value|) + tlv.value
  }

  /** Decode one element from the front of input, ignoring what follows it. */
  function DecodeTlv(input: seq<byte>): (r: Result<(Tlv, nat), TlvError>)
    ensures r.Ok? ==> 2 <= r.value.1 <= |input| && |r.value.0.value| <= r.value.1
  {
    match TagOf(input)
    case Err(e) => Err(TagInvalid(e))
    case Ok((tag, tagUsed)) =>
      TagAccepted(input, tag, tagUsed);
      match Length.LengthOf(input[tagUsed..])
      case Err(e) => Err(LengthInvalid(e))
      case Ok((len, lengthUsed)) =>
        var header := tagUsed + lengthUsed;
        var end := header + len;
        if |input| < end then Err(TlvError.Truncated)
        else Ok((Tlv(tag, input[header..end]), end))
  }

  /** An accepted element is exactly the canonical encoding of its tag and value, whatever follows. */
  lemma TlvAccepted(input: seq<byte>, tlv: Tlv, n: nat)
    ensures DecodeTlv(input) == Ok((tlv, n))
      <==> Encodable(tlv) && n == |TlvOctets(tlv)| && TlvOctets(tlv) <= input
  {
    hide TagOf, Length.LengthOf, TagOctets, Length.LengthOctets, ToBE;
    if DecodeTlv(input) == Ok((tlv, n)) { AcceptedTlvIsCanonical(input, tlv, n); }
    if Encodable(tlv) && TlvOctets(tlv) <= input { CanonicalTlvIsAccepted(input, tlv); }
  }

  lemma AcceptedTlvIsCanonical(input: seq<byte>, tlv: Tlv, n: nat)
    requires DecodeTlv(input) == Ok((tlv, n))
    ensures Encodable(tlv) && n == |TlvOctets(tlv)| && TlvOctets(tlv) <= input
  {
    hide TagOf, Length.LengthOf, TagOctets, Length.LengthOctets, ToBE;
    var (tag, tagUsed) := TagOf(input).value;
    TagAccepted(input, tag, tagUsed);
    var rest := input[tagUsed..];
    var (len, lengthUsed) := Length.LengthOf(rest).value;
    Length.LengthAccepted(rest, len, lengthUsed);
    var header := tagUsed + lengthUsed;
    assert input[..n] == input[..tagUsed] + rest[..lengthUsed] + input[header..n];
  }

  lemma CanonicalTlvIsAccepted(input: seq<byte>, tlv: Tlv)
    requires Encodable(tlv) && TlvOctets(tlv) <= input
    ensures DecodeTlv(input) == Ok((tlv, |TlvOctets(tlv)|))
  {
    hide TagOf, Length.LengthOf, TagOctets, Length.LengthOctets, ToBE;
    Length.U32Octets(|tlv.value|);
    var tag, length := TagOctets(tlv.tag), Length.LengthOctets(|tlv.value|);
    var all := TlvOctets(tlv);
    assert tag <= all && tag <= input;
    TagAccepted(input, tlv.tag, |tag|);
    var rest := input[|tag|..];
    assert rest[..|length|] == all[|tag|..][..|length|] == length;
    Length.LengthAccepted(rest, |tlv.value|, |length|);
    var header := |tag| + |length|;
    assert input[header..|all|] == all[header..] == tlv.value;
  }

  /** Appending octets after an accepted element changes nothing. */
  lemma TlvComposable(input: seq<byte>, suffix: seq<byte>)
    requires DecodeTlv(input).Ok?
    ensures DecodeTlv(input + suffix) == DecodeTlv(input)
  {
    hide DecodeTlv, TlvOctets;
    var (tlv, n) := DecodeTlv(input).value;
    TlvAccepted(input, tlv, n);
    TlvAccepted(input + suffix, tlv, n);
  }

  /** The canonical encoding of a value under a tag. */
  ghost function Element(tag: Tag, value: seq<byte>): seq<byte>
    requires tag.number < U32_LIMIT && |value| < U32_LIMIT
  {
    TlvOctets(Tlv(tag, value))
  }

  /** The identifier of an encoding can be read without the rest. */
  lemma ElementTag(tag: Tag, value: seq<byte>, input: seq<byte>)
    requires tag.number < U32_LIMIT && |value| < U32_LIMIT && Element(tag, value) <= input
    ensures TagOf(input) == Ok((tag, |TagOctets(tag)|))
    ensures |value| < |Element(tag, value)|
  {
    hide TagOf, TagOctets;
    assert TagOctets(tag) <= Element(tag, value);
    TagAccepted(input, tag, |TagOctets(tag)|);
  }

  /** An accepted element whose tag is known. */
  lemma ElementAccepted(input: seq<byte>, tag: Tag, value: seq<byte>, n: nat)
    requires tag.number < U32_LIMIT
    ensures DecodeTlv(input) == Ok((Tlv(tag, value), n))
      <==> |value| < U32_LIMIT && n == |Element(tag, value)| && Element(tag, value) <= input
  {
    hide DecodeTlv, TlvOctets;
    TlvAccepted(input, Tlv(tag, value), n);
  }

  /** The input begins with the canonical encoding of value under tag. */
  ghost predicate Begins(input: seq<byte>, tag: Tag, value: seq<byte>) {
    tag.number < U32_LIMIT && |value| < U32_LIMIT && Element(tag, value) <= input
  }

  /** Decoding finds the one element that the input begins with. */
  lemma DecodesWhatBegins(input: seq<byte>)
    ensures DecodeTlv(input).Ok? ==>
      Begins(input, DecodeTlv(input).value.0.tag, DecodeTlv(input).value.0.value)
      && DecodeTlv(input).value.1 == |Element(DecodeTlv(input).value.0.tag, DecodeTlv(input).value.0.value)|
    ensures forall tag, value | Begins(input, tag, value) ::
      DecodeTlv(input) == Ok((Tlv(tag, value), |Element(tag, value)|))
  {
    hide DecodeTlv, TlvOctets;
    if DecodeTlv(input).Ok? {
      TlvAccepted(input, DecodeTlv(input).value.0, DecodeTlv(input).value.1);
    }
    forall tag, value | Begins(input, tag, value)
      ensures DecodeTlv(input) == Ok((Tlv(tag, value), |Element(tag, value)|))
    {
      TlvAccepted(input, Tlv(tag, value), |Element(tag, value)|);
    }
  }

  /** Why no element can be decoded: a bad identifier, a bad length after a good one, or a value cut short. */
  lemma TlvErrors(input: seq<byte>)
    ensures forall e :: DecodeTlv(input) == Err(TagInvalid(e)) <==> TagOf(input) == Err(e)
    ensures forall e :: DecodeTlv(input) == Err(LengthInvalid(e)) <==>
      exists tag: Tag, rest ::
        tag.number < U32_LIMIT && input == TagOctets(tag) + rest && Length.LengthOf(rest) == Err(e)
    ensures DecodeTlv(input) == Err(TlvError.Truncated) <==>
      exists tag: Tag, len: nat, rest :: CutShort(input, tag, len, rest)
  {
    hide TagOf, Length.LengthOf, TagOctets, Length.LengthOctets;
    forall tag: Tag, rest | tag.number < U32_LIMIT && input == TagOctets(tag) + rest
      ensures TagOf(input) == Ok((tag, |TagOctets(tag)|)) && input[|TagOctets(tag)|..] == rest
    {
      TagAccepted(input, tag, |TagOctets(tag)|);
    }
    if TagOf(input).Ok? {
      var (tag, used) := TagOf(input).value;
      TagAccepted(input, tag, used);
      var rest := input[used..];
      assert input == TagOctets(tag) + rest;
      if Length.LengthOf(rest).Ok? {
        var (len, n) := Length.LengthOf(rest).value;
        Length.LengthAccepted(rest, len, n);
        assert rest == Length.LengthOctets(len) + rest[n..];
        assert input == TagOctets(tag) + Length.LengthOctets(len) + rest[n..];
        if |rest[n..]| < len { assert CutShort(input, tag, len, rest[n..]); }
      }
    }
    forall tag: Tag, len: nat, rest | CutShort(input, tag, len, rest)
      ensures DecodeTlv(input) == Err(TlvError.Truncated)
    {
      CutShortIsTruncated(input, tag, len, rest);
    }
  }

  /** The input is an identifier and a length in front of fewer octets than that. */
  ghost predicate CutShort(input: seq<byte>, tag: Tag, len: nat, rest: seq<byte>) {
    && tag.number < U32_LIMIT && |ToBE(len)| <= 4 && |rest| < len
    && input == TagOctets(tag) + Length.LengthOctets(len) + rest
  }

  lemma CutShortIsTruncated(input: seq<byte>, tag: Tag, len: nat, rest: seq<byte>)
    requires CutShort(input, tag, len, rest)
    ensures DecodeTlv(input) == Err(TlvError.Truncated)
  {
    hide TagOf, Length.LengthOf, TagOctets, Length.LengthOctets, ToBE;
    var identifier, length := TagOctets(tag), Length.LengthOctets(len);
    assert input == identifier + (length + rest);
    TagAccepted(input, tag, |identifier|);
    assert input[|identifier|..] == length + rest;
    Length.U32Octets(len);
    Length.LengthAccepted(length + rest, len, |length|);
  }
}
