/**
  ECPrivateKey (section 3 of RFC 5915):

    SEQUENCE { version INTEGER 1, privateKey OCTET STRING,
               parameters [0] EXPLICIT OPTIONAL, publicKey [1] EXPLICIT BIT STRING OPTIONAL }
 */
module EcPrivateKey {
  import opened Bytes
  import opened TagCodec
  import opened TlvCodec
  import opened Sequence
  import opened IntegerField
  import opened OctetString
  import opened ContextTag
  import opened BitStringCodec
  import BigInteger

  const BIT_STRING: Tag := Tag(Universal, false, 3)

  /** The contents octets of version ecPrivkeyVer1. */
  const VERSION_1: seq<byte> := [1]

  datatype EcPrivateKey = EcPrivateKey(
    privateKey: seq<byte>, parameters: Option<seq<byte>>, publicKey: Option<BitString>)

  datatype ParametersError = ParametersWrapper(wrapper: ContextTagError)
                           | ParametersInnerTlv(inner: TlvError)
                           | ParametersInnerTrailing

  datatype PublicKeyError = PublicKeyWrapper(wrapper: ContextTagError)
                          | PublicKeyInnerTlv(inner: TlvError)
                          | PublicKeyWrongTag | PublicKeyConstructed | PublicKeyInnerTrailing
                          | PublicKeyContent(content: BitStringError)

  datatype KeyError = BadOuterSeq(sequenceError: SequenceError)
                    | MissingVersion | Version(versionError: IntegerFieldError) | UnsupportedVersion
                    | MissingPrivateKey | PrivateKey(octetStringError: OctetStringError)
                    | Parameters(parametersError: ParametersError)
                    | PublicKey(publicKeyError: PublicKeyError)
                    | TrailingElements

  /** The contents of the [0] wrapper: exactly one element, returned as it stands. */
  function ValidateParametersInner(inner: seq<byte>): Result<seq<byte>, ParametersError> {
    match DecodeTlv(inner)
    case Err(e) => Err(ParametersInnerTlv(e))
    case Ok((_, used)) => if used != |inner| then Err(ParametersInnerTrailing) else Ok(inner)
  }

  /** The contents of the [1] wrapper: exactly one BIT STRING. */
  function DecodePublicKeyTlv(inner: seq<byte>): Result<BitString, PublicKeyError> {
    match DecodeTlv(inner)
    case Err(e) => Err(PublicKeyInnerTlv(e))
    case Ok((tlv, used)) =>
      if tlv.tag.class_ != Universal || tlv.tag.number != 3 then Err(PublicKeyWrongTag)
      else if tlv.tag.constructed then Err(PublicKeyConstructed)
      else if used != |inner| then Err(PublicKeyInnerTrailing)
      else
        match DecodeBitString(tlv.value)
        case Err(e) => Err(PublicKeyContent(e))
        case Ok(bs) => Ok(bs)
  }

  /** rest begins with an identifier of context-specific number n, in either form. */
  predicate StartsWithContext(rest: seq<byte>, n: nat) {
    |rest| > 0 && TagOf(rest).Ok? && TagOf(rest).value.0.class_ == ContextSpecific && TagOf(rest).value.0.number == n
  }

  /** The optional parameters at the front of rest, and what follows them. */
  function ParametersField(rest: seq<byte>): Result<(Option<seq<byte>>, seq<byte>), KeyError> {
    if !StartsWithContext(rest, 0) then Ok((None, rest))
    else
      match DecodeExplicitContext(0, rest)
      case Err(e) => Err(Parameters(ParametersWrapper(e)))
      case Ok((inner, used)) =>
        ExplicitAccepted(0, rest, inner, used);
        match ValidateParametersInner(inner)
        case Err(e) => Err(Parameters(e))
        case Ok(params) => Ok((Some(params), rest[used..]))
  }

  /** The optional public key at the front of rest, and what follows it. */
  function PublicKeyField(rest: seq<byte>): Result<(Option<BitString>, seq<byte>), KeyError> {
    if !StartsWithContext(rest, 1) then Ok((None, rest))
    else
      match DecodeExplicitContext(1, rest)
      case Err(e) => Err(PublicKey(PublicKeyWrapper(e)))
      case Ok((inner, used)) =>
        ExplicitAccepted(1, rest, inner, used);
        match DecodePublicKeyTlv(inner)
        case Err(e) => Err(PublicKey(e))
        case Ok(bs) => Ok((Some(bs), rest[used..]))
  }

  /** The two optional fields, in order, and nothing after them. */
  function OptionalFields(rest: seq<byte>): Result<(Option<seq<byte>>, Option<BitString>), KeyError> {
    match ParametersField(rest)
    case Err(e) => Err(e)
    case Ok((parameters, rest')) =>
      match PublicKeyField(rest')
      case Err(e) => Err(e)
      case Ok((publicKey, rest'')) =>
        if |rest''| != 0 then Err(TrailingElements) else Ok((parameters, publicKey))
  }

  function ParseFields(outer: seq<byte>): Result<EcPrivateKey, KeyError> {
    if |outer| == 0 then Err(MissingVersion)
    else
      match DecodeIntegerTlv(outer)
      case Err(e) => Err(Version(e))
      case Ok((version, versionUsed)) =>
        IntegerFieldAccepted(outer, version, versionUsed);
        if |version| != 1 || version[0] != 0x01 then Err(UnsupportedVersion)
        else
          var rest := outer[versionUsed..];
          if |rest| == 0 then Err(MissingPrivateKey)
          else
            match DecodeOctetString(rest)
            case Err(e) => Err(PrivateKey(e))
            case Ok((privateKey, keyUsed)) =>
              OctetStringAccepted(rest, privateKey, keyUsed);
              match OptionalFields(rest[keyUsed..])
              case Err(e) => Err(e)
              case Ok((parameters, publicKey)) => Ok(EcPrivateKey(privateKey, parameters, publicKey))
  }

  function ParseEcPrivateKey(input: seq<byte>): Result<(EcPrivateKey, nat), KeyError> {
    match DecodeSequenceTlv(input)
    case Err(e) => Err(BadOuterSeq(e))
    case Ok((outer, used)) =>
      match ParseFields(outer)
      case Err(e) => Err(e)
      case Ok(key) => Ok((key, used))
  }

  function ParseEcPrivateKeyStrict(input: seq<byte>): Result<EcPrivateKey, KeyError> {
    match DecodeSequenceTlvStrict(input)
    case Err(e) => Err(BadOuterSeq(e))
    case Ok(outer) => ParseFields(outer)
  }

  // ---------------------------------------------------------------- the printed form

  /** p is one canonical element, short enough to be wrapped. */
  ghost predicate ParametersOk(p: seq<byte>) {
    |p| < U32_LIMIT && exists tlv :: TlvCodec.Encodable(tlv) && p == TlvOctets(tlv)
  }

  /** bs is canonical, and short enough to be encoded and wrapped. */
  ghost predicate PublicKeyOk(bs: BitString) {
    && Canonical(bs) && 1 + |bs.data| < U32_LIMIT
    && |Element(BIT_STRING, [bs.unused] + bs.data)| < U32_LIMIT
  }

  ghost predicate FieldsOk(key: EcPrivateKey) {
    && |key.privateKey| < U32_LIMIT
    && (key.parameters.Some? ==> ParametersOk(key.parameters.value))
    && (key.publicKey.Some? ==> PublicKeyOk(key.publicKey.value))
  }

  ghost function ParametersOctets(p: Option<seq<byte>>): seq<byte>
    requires p.Some? ==> ParametersOk(p.value)
  {
    if p.None? then [] else Element(Explicit(0), p.value)
  }

  ghost function PublicKeyOctets(k: Option<BitString>): seq<byte>
    requires k.Some? ==> PublicKeyOk(k.value)
  {
    if k.None? then [] else Element(Explicit(1), Element(BIT_STRING, [k.value.unused] + k.value.data))
  }

  ghost function KeyContent(key: EcPrivateKey): seq<byte>
    requires FieldsOk(key)
  {
    Element(INTEGER, VERSION_1) + Element(OCTET_STRING, key.privateKey)
    + ParametersOctets(key.parameters) + PublicKeyOctets(key.publicKey)
  }

  ghost predicate Printable(key: EcPrivateKey) {
    FieldsOk(key) && |KeyContent(key)| < U32_LIMIT
  }

  /** The one DER encoding of the key. */
  ghost function KeyOctets(key: EcPrivateKey): seq<byte>
    requires Printable(key)
  {
    Element(SEQUENCE, KeyContent(key))
  }

  lemma ParametersInnerAccepted(inner: seq<byte>, p: seq<byte>)
    requires |inner| < U32_LIMIT
    ensures ValidateParametersInner(inner) == Ok(p) <==> inner == p && ParametersOk(p)
  {
    hide DecodeTlv, TlvOctets, TlvCodec.Encodable;
    if ValidateParametersInner(inner) == Ok(p) {
      var (tlv, used) := DecodeTlv(inner).value;
      TlvAccepted(inner, tlv, used);
    }
    if inner == p && ParametersOk(p) {
      var tlv :| TlvCodec.Encodable(tlv) && p == TlvOctets(tlv);
      TlvAccepted(inner, tlv, |inner|);
    }
  }

  lemma PublicKeyInnerAccepted(inner: seq<byte>, bs: BitString)
    requires |inner| < U32_LIMIT
    ensures DecodePublicKeyTlv(inner) == Ok(bs)
      <==> PublicKeyOk(bs) && inner == Element(BIT_STRING, [bs.unused] + bs.data)
  {
    hide DecodeTlv, Element;
    if DecodePublicKeyTlv(inner) == Ok(bs) {
      var (tlv, used) := DecodeTlv(inner).value;
      ElementAccepted(inner, BIT_STRING, tlv.value, used);
      ContentAccepted(tlv.value, bs);
    }
    if PublicKeyOk(bs) && inner == Element(BIT_STRING, [bs.unused] + bs.data) {
      ElementAccepted(inner, BIT_STRING, [bs.unused] + bs.data, |inner|);
      ContentAccepted([bs.unused] + bs.data, bs);
    }
  }

  lemma ContentAccepted(content: seq<byte>, bs: BitString)
    ensures DecodeBitString(content) == Ok(bs) <==> Canonical(bs) && content == [bs.unused] + bs.data
  {
    hide LowBitsClear;
    if |content| > 0 { assert content == [content[0]] + content[1..]; }
  }

  /** What a field of the printed form begins with decides which optional field reads it. */
  lemma ContextStart(n: nat, inner: seq<byte>, rest: seq<byte>, m: nat)
    requires n < U32_LIMIT && |inner| < U32_LIMIT && Element(Explicit(n), inner) <= rest
    ensures StartsWithContext(rest, m) <==> m == n
  {
    hide TagOf, Element, TagOctets;
    ElementTag(Explicit(n), inner, rest);
  }

  lemma ParametersFieldAccepted(rest: seq<byte>, p: seq<byte>, rest': seq<byte>)
    ensures ParametersField(rest) == Ok((Some(p), rest'))
      <==> ParametersOk(p) && rest == Element(Explicit(0), p) + rest'
  {
    hide DecodeExplicitContext, ValidateParametersInner, Element, ParametersOk, StartsWithContext;
    if ParametersField(rest) == Ok((Some(p), rest')) {
      var (inner, used) := DecodeExplicitContext(0, rest).value;
      ExplicitAccepted(0, rest, inner, used);
      ParametersInnerAccepted(inner, p);
      assert rest == rest[..used] + rest[used..];
    }
    if ParametersOk(p) {
      ParametersShort(p);
      var all := Element(Explicit(0), p);
      if rest == all + rest' {
        ContextStart(0, p, rest, 0);
        ExplicitAccepted(0, rest, p, |all|);
        ParametersInnerAccepted(p, p);
        assert rest[|all|..] == rest';
      }
    }
  }

  lemma ParametersShort(p: seq<byte>)
    requires ParametersOk(p)
    ensures |p| < U32_LIMIT
  {
  }

  lemma PublicKeyFieldAccepted(rest: seq<byte>, bs: BitString, rest': seq<byte>)
    ensures PublicKeyField(rest) == Ok((Some(bs), rest'))
      <==> PublicKeyOk(bs) && rest == Element(Explicit(1), Element(BIT_STRING, [bs.unused] + bs.data)) + rest'
  {
    hide DecodeExplicitContext, DecodePublicKeyTlv, Element, StartsWithContext, Canonical;
    if PublicKeyField(rest) == Ok((Some(bs), rest')) {
      var (inner, used) := DecodeExplicitContext(1, rest).value;
      ExplicitAccepted(1, rest, inner, used);
      PublicKeyInnerAccepted(inner, bs);
      assert rest == rest[..used] + rest[used..];
    }
    if PublicKeyOk(bs) {
      var inner := Element(BIT_STRING, [bs.unused] + bs.data);
      var all := Element(Explicit(1), inner);
      if rest == all + rest' {
        ContextStart(1, inner, rest, 1);
        ExplicitAccepted(1, rest, inner, |all|);
        PublicKeyInnerAccepted(inner, bs);
        assert rest[|all|..] == rest';
      }
    }
  }

  /** Neither missing optional field is read from tail. */
  ghost predicate Stops(p: Option<seq<byte>>, k: Option<BitString>, tail: seq<byte>) {
    k.None? ==> !StartsWithContext(tail, 1) && (p.None? ==> !StartsWithContext(tail, 0))
  }

  /** What the two optional fields read, and the tail they leave. */
  ghost predicate OptionalRead(rest: seq<byte>, p: Option<seq<byte>>, k: Option<BitString>, tail: seq<byte>) {
    && (p.Some? ==> ParametersOk(p.value)) && (k.Some? ==> PublicKeyOk(k.value))
    && rest == ParametersOctets(p) + (PublicKeyOctets(k) + tail) && Stops(p, k, tail)
  }

  lemma OptionalFieldsSound(rest: seq<byte>) returns (p: Option<seq<byte>>, k: Option<BitString>, tail: seq<byte>)
    requires OptionalFields(rest).Ok? || OptionalFields(rest) == Err(TrailingElements)
    ensures OptionalRead(rest, p, k, tail)
    ensures OptionalFields(rest) == if tail == [] then Ok((p, k)) else Err(TrailingElements)
  {
    hide Element, ParametersOk, PublicKeyOk, StartsWithContext, DecodeExplicitContext;
    hide ValidateParametersInner, DecodePublicKeyTlv;
    var rest' := ParametersField(rest).value.1;
    p := ParametersField(rest).value.0;
    if p.Some? { ParametersFieldAccepted(rest, p.value, rest'); }
    k, tail := PublicKeyField(rest').value.0, PublicKeyField(rest').value.1;
    if k.Some? { PublicKeyFieldAccepted(rest', k.value, tail); }
  }

  lemma PublicKeyFieldReads(k: Option<BitString>, tail: seq<byte>)
    requires k.Some? ==> PublicKeyOk(k.value)
    requires k.None? ==> !StartsWithContext(tail, 1)
    ensures PublicKeyField(PublicKeyOctets(k) + tail) == Ok((k, tail))
    ensures k.Some? ==> !StartsWithContext(PublicKeyOctets(k) + tail, 0)
  {
    hide Element, DecodeExplicitContext, DecodePublicKeyTlv, StartsWithContext, Canonical;
    var all := PublicKeyOctets(k) + tail;
    if k.Some? {
      PublicKeyFieldAccepted(all, k.value, tail);
      ContextStart(1, Element(BIT_STRING, [k.value.unused] + k.value.data), all, 0);
    } else {
      assert all == tail;
    }
  }

  lemma OptionalFieldsComplete(rest: seq<byte>, p: Option<seq<byte>>, k: Option<BitString>, tail: seq<byte>)
    requires OptionalRead(rest, p, k, tail)
    ensures OptionalFields(rest) == if tail == [] then Ok((p, k)) else Err(TrailingElements)
  {
    hide Element, ParametersOk, DecodeExplicitContext, ValidateParametersInner, DecodePublicKeyTlv;
    hide StartsWithContext, PublicKeyOk, PublicKeyOctets;
    var second := PublicKeyOctets(k) + tail;
    PublicKeyFieldReads(k, tail);
    assert ParametersField(rest) == Ok((p, second)) by {
      if p.Some? {
        ParametersFieldAccepted(rest, p.value, second);
      } else {
        assert rest == second;
        if k.None? { assert PublicKeyOctets(k) == [] by { NoPublicKey(); } assert second == tail; }
      }
    }
  }

  lemma NoPublicKey()
    ensures PublicKeyOctets(None) == []
  {
  }

  lemma EmptyStart(n: nat)
    ensures !StartsWithContext([], n)
  {
  }

  /** outer holds the printed fields of key and then tail, which begins with no field that key lacks. */
  ghost predicate FieldsThenTail(outer: seq<byte>, key: EcPrivateKey, tail: seq<byte>) {
    FieldsOk(key) && outer == KeyContent(key) + tail && Stops(key.parameters, key.publicKey, tail)
  }

  /** The fields of the printed form, grouped from the front as they are read. */
  lemma ReadingOrder(key: EcPrivateKey, tail: seq<byte>)
    requires FieldsOk(key)
    ensures KeyContent(key) + tail
      == Element(INTEGER, VERSION_1) + (Element(OCTET_STRING, key.privateKey)
           + (ParametersOctets(key.parameters) + (PublicKeyOctets(key.publicKey) + tail)))
  {
    hide Element, ParametersOk, PublicKeyOk, ParametersOctets, PublicKeyOctets;
  }

  lemma PrefixSplits(a: seq<byte>, b: seq<byte>)
    requires a <= b
    ensures b == a + b[|a|..]
  {
  }

  /** The two mandatory fields, and the octets left for the optional ones. */
  lemma MandatoryFields(outer: seq<byte>) returns (privateKey: seq<byte>, rest: seq<byte>)
    requires ParseFields(outer).Ok? || ParseFields(outer) == Err(TrailingElements)
    ensures |privateKey| < U32_LIMIT
    ensures outer == Element(INTEGER, VERSION_1) + (Element(OCTET_STRING, privateKey) + rest)
    ensures OptionalFields(rest).Ok? || OptionalFields(rest) == Err(TrailingElements)
    ensures OptionalFields(rest).Ok? ==>
      ParseFields(outer) == Ok(EcPrivateKey(privateKey, OptionalFields(rest).value.0, OptionalFields(rest).value.1))
    ensures OptionalFields(rest).Err? ==> ParseFields(outer) == Err(TrailingElements)
  {
    hide DecodeIntegerTlv, DecodeOctetString, OptionalFields, Element;
    var (version, versionUsed) := DecodeIntegerTlv(outer).value;
    IntegerFieldAccepted(outer, version, versionUsed);
    assert version == VERSION_1;
    PrefixSplits(Element(INTEGER, VERSION_1), outer);
    var rest0 := outer[versionUsed..];
    privateKey := DecodeOctetString(rest0).value.0;
    var keyUsed := DecodeOctetString(rest0).value.1;
    OctetStringAccepted(rest0, privateKey, keyUsed);
    PrefixSplits(Element(OCTET_STRING, privateKey), rest0);
    rest := rest0[keyUsed..];
  }

  lemma FieldsSound(outer: seq<byte>) returns (key: EcPrivateKey, tail: seq<byte>)
    requires ParseFields(outer).Ok? || ParseFields(outer) == Err(TrailingElements)
    ensures FieldsThenTail(outer, key, tail)
    ensures ParseFields(outer) == if tail == [] then Ok(key) else Err(TrailingElements)
  {
    hide ParseFields, OptionalFields, KeyContent, Element, ParametersOk, PublicKeyOk, ParametersOctets;
    hide PublicKeyOctets, Stops;
    var privateKey, rest := MandatoryFields(outer);
    var p, k;
    p, k, tail := OptionalFieldsSound(rest);
    key := EcPrivateKey(privateKey, p, k);
    ReadingOrder(key, tail);
  }

  lemma FieldsComplete(outer: seq<byte>, key: EcPrivateKey, tail: seq<byte>)
    requires FieldsThenTail(outer, key, tail)
    ensures ParseFields(outer) == if tail == [] then Ok(key) else Err(TrailingElements)
  {
    hide DecodeIntegerTlv, DecodeOctetString, OptionalFields, Element, ParametersOk, PublicKeyOk;
    hide ParametersOctets, PublicKeyOctets, Stops;
    var version, octets := Element(INTEGER, VERSION_1), Element(OCTET_STRING, key.privateKey);
    var optional := ParametersOctets(key.parameters) + (PublicKeyOctets(key.publicKey) + tail);
    ReadingOrder(key, tail);
    hide KeyContent;
    assert outer == version + (octets + optional);
    IntegerFieldAccepted(outer, VERSION_1, |version|);
    var rest := outer[|version|..];
    assert rest == octets + optional;
    OctetStringAccepted(rest, key.privateKey, |octets|);
    assert rest[|octets|..] == optional;
    OptionalFieldsComplete(optional, key.parameters, key.publicKey, tail);
    ElementTag(INTEGER, VERSION_1, version);
    ElementTag(OCTET_STRING, key.privateKey, octets);
  }

  lemma FieldsAccepted(outer: seq<byte>, key: EcPrivateKey)
    ensures ParseFields(outer) == Ok(key) <==> FieldsOk(key) && outer == KeyContent(key)
  {
    hide ParseFields, KeyContent, FieldsOk, StartsWithContext;
    EmptyStart(0);
    EmptyStart(1);
    if ParseFields(outer) == Ok(key) {
      var key', tail := FieldsSound(outer);
      assert outer == KeyContent(key) + [] == KeyContent(key);
    }
    if FieldsOk(key) && outer == KeyContent(key) {
      assert outer == KeyContent(key) + [];
      FieldsComplete(outer, key, []);
    }
  }

  // ---------------------------------------------------------------- theorems

  /** Strict parsing and printing are inverse: b parses to key exactly when b is key's encoding. */
  lemma StrictAccepted(input: seq<byte>, key: EcPrivateKey)
    ensures ParseEcPrivateKeyStrict(input) == Ok(key) <==> Printable(key) && input == KeyOctets(key)
  {
    hide ParseFields, Element, DecodeSequenceTlvStrict, KeyContent, FieldsOk;
    if ParseEcPrivateKeyStrict(input) == Ok(key) {
      var outer := DecodeSequenceTlvStrict(input).value;
      StrictSequenceAccepted(input, outer);
      FieldsAccepted(outer, key);
    }
    if Printable(key) && input == KeyOctets(key) {
      StrictSequenceAccepted(input, KeyContent(key));
      FieldsAccepted(KeyContent(key), key);
    }
  }

  /**
    Contents are rejected for trailing elements exactly when well-formed fields come first and what is left over
    begins with no optional field that is still missing: a repeated, swapped or unknown element.
   */
  lemma TrailingExactly(outer: seq<byte>)
    ensures ParseFields(outer) == Err(TrailingElements)
      <==> exists key, tail :: tail != [] && FieldsThenTail(outer, key, tail)
  {
    hide ParseFields, FieldsThenTail;
    if ParseFields(outer) == Err(TrailingElements) {
      var key, tail := FieldsSound(outer);
      assert tail != [] && FieldsThenTail(outer, key, tail);
    }
    forall key, tail | tail != [] && FieldsThenTail(outer, key, tail)
      ensures ParseFields(outer) == Err(TrailingElements)
    {
      FieldsComplete(outer, key, tail);
    }
  }

  /** The strict parser accepts what the composable one accepts and consumes whole. */
  lemma StrictIsWholeComposable(input: seq<byte>, key: EcPrivateKey)
    ensures ParseEcPrivateKeyStrict(input) == Ok(key) <==> ParseEcPrivateKey(input) == Ok((key, |input|))
  {
    hide ParseFields, DecodeSequenceTlv;
  }

  /** Appending octets to an accepted input changes nothing. */
  lemma Composable(input: seq<byte>, suffix: seq<byte>)
    requires ParseEcPrivateKey(input).Ok?
    ensures ParseEcPrivateKey(input + suffix) == ParseEcPrivateKey(input)
  {
    hide ParseFields, DecodeSequenceTlv;
    SequenceComposable(input, suffix);
  }

  // ---------------------------------------------------------------- why contents are refused

  /** outer begins with the version, then a private key, then rest. */
  ghost predicate AfterMandatory(outer: seq<byte>, rest: seq<byte>) {
    exists privateKey :: |privateKey| < U32_LIMIT
      && outer == Element(INTEGER, [1]) + (Element(OCTET_STRING, privateKey) + rest)
  }

  /** The errors of the two mandatory fields, each by what stands in their place. */
  lemma MandatoryErrors(outer: seq<byte>)
    ensures ParseFields(outer) == Err(MissingVersion) <==> outer == []
    ensures forall e :: ParseFields(outer) == Err(Version(e)) <==> outer != [] && DecodeIntegerTlv(outer) == Err(e)
    ensures ParseFields(outer) == Err(UnsupportedVersion) <==>
      exists version :: version != [1] && BigInteger.ValidateIntegerContent(version) == Ok(())
                        && Begins(outer, INTEGER, version)
    ensures ParseFields(outer) == Err(MissingPrivateKey) <==> outer == Element(INTEGER, [1])
    ensures forall e :: ParseFields(outer) == Err(PrivateKey(e)) <==>
      exists rest :: rest != [] && outer == Element(INTEGER, [1]) + rest && DecodeOctetString(rest) == Err(e)
  {
    BigIntegerOne();
    hide ParseFields, DecodeIntegerTlv, DecodeOctetString, Element, BigInteger.ValidateIntegerContent;
    forall version, rest | VersionThen(outer, version, rest)
      ensures DecodeIntegerTlv(outer) == Ok((version, |Element(INTEGER, version)|)) && outer != []
      ensures outer[|Element(INTEGER, version)|..] == rest && AfterVersion(outer, version, rest)
    {
      VersionReads(outer, version, rest);
    }
    if DecodeIntegerTlv(outer).Ok? {
      var (version, used) := DecodeIntegerTlv(outer).value;
      IntegerFieldAccepted(outer, version, used);
      PrefixSplits(Element(INTEGER, version), outer);
      assert VersionThen(outer, version, outer[used..]);
    } else {
      NoVersion(outer);
    }
    forall version | Begins(outer, INTEGER, version) && BigInteger.ValidateIntegerContent(version) == Ok(())
      ensures VersionThen(outer, version, outer[|Element(INTEGER, version)|..])
    {
    }
    if outer == Element(INTEGER, [1]) { assert VersionThen(outer, [1], []); }
    forall rest | outer == Element(INTEGER, [1]) + rest ensures VersionThen(outer, [1], rest) {}
  }

  /** What is made of a version and the rest, as far as the mandatory fields go. */
  ghost predicate AfterVersion(outer: seq<byte>, version: seq<byte>, rest: seq<byte>) {
    if version != [1] then ParseFields(outer) == Err(UnsupportedVersion)
    else if rest == [] then ParseFields(outer) == Err(MissingPrivateKey)
    else if DecodeOctetString(rest).Err? then ParseFields(outer) == Err(PrivateKey(DecodeOctetString(rest).error))
    else
      ParseFields(outer).Err? ==>
        var e := ParseFields(outer).error; e.Parameters? || e.PublicKey? || e.TrailingElements?
  }

  lemma NoVersion(outer: seq<byte>)
    requires DecodeIntegerTlv(outer).Err?
    ensures ParseFields(outer) == Err(if outer == [] then MissingVersion else Version(DecodeIntegerTlv(outer).error))
  {
    hide DecodeIntegerTlv, DecodeOctetString, OptionalFields, Element;
  }

  /** outer begins with a well-formed INTEGER, and rest follows. */
  ghost predicate VersionThen(outer: seq<byte>, version: seq<byte>, rest: seq<byte>) {
    && BigInteger.ValidateIntegerContent(version) == Ok(()) && |version| < U32_LIMIT
    && outer == Element(INTEGER, version) + rest
  }

  lemma VersionReads(outer: seq<byte>, version: seq<byte>, rest: seq<byte>)
    requires VersionThen(outer, version, rest)
    ensures DecodeIntegerTlv(outer) == Ok((version, |Element(INTEGER, version)|))
    ensures outer != [] && outer[|Element(INTEGER, version)|..] == rest && AfterVersion(outer, version, rest)
  {
    hide Element, BigInteger.ValidateIntegerContent, DecodeIntegerTlv, DecodeOctetString, OptionalFields;
    IntegerFieldAccepted(outer, version, |Element(INTEGER, version)|);
    ElementTag(INTEGER, version, outer);
    assert version == [1] <==> |version| == 1 && version[0] == 1;
    if DecodeOctetString(rest).Ok? {
      var (privateKey, keyUsed) := DecodeOctetString(rest).value;
      OctetStringAccepted(rest, privateKey, keyUsed);
      if OptionalFields(rest[keyUsed..]).Err? { OptionalKinds(rest[keyUsed..]); }
    }
  }

  lemma BigIntegerOne()
    ensures BigInteger.ValidateIntegerContent([1]) == Ok(())
  {
  }

  /** The optional fields fail only in ways of their own. */
  lemma OptionalKinds(rest: seq<byte>)
    requires OptionalFields(rest).Err?
    ensures var e := OptionalFields(rest).error; e.Parameters? || e.PublicKey? || e.TrailingElements?
  {
    hide DecodeExplicitContext, ValidateParametersInner, DecodePublicKeyTlv, StartsWithContext, Element;
  }

  /** The errors inside the two wrappers, each by the element that the wrapper's contents begin with. */
  lemma InnerErrors(inner: seq<byte>)
    ensures forall e :: ValidateParametersInner(inner) == Err(ParametersInnerTlv(e)) <==> DecodeTlv(inner) == Err(e)
    ensures ValidateParametersInner(inner) == Err(ParametersInnerTrailing) <==>
      exists tag, value :: Begins(inner, tag, value) && Element(tag, value) != inner
    ensures forall e :: DecodePublicKeyTlv(inner) == Err(PublicKeyInnerTlv(e)) <==> DecodeTlv(inner) == Err(e)
    ensures DecodePublicKeyTlv(inner) == Err(PublicKeyWrongTag) <==>
      exists tag, value :: Begins(inner, tag, value) && (tag.class_ != Universal || tag.number != 3)
    ensures DecodePublicKeyTlv(inner) == Err(PublicKeyConstructed) <==>
      exists value :: Begins(inner, Tag(Universal, true, 3), value)
    ensures DecodePublicKeyTlv(inner) == Err(PublicKeyInnerTrailing) <==>
      exists value :: Begins(inner, BIT_STRING, value) && Element(BIT_STRING, value) != inner
    ensures forall e :: DecodePublicKeyTlv(inner) == Err(PublicKeyContent(e)) <==>
      exists value :: |value| < U32_LIMIT && inner == Element(BIT_STRING, value) && DecodeBitString(value) == Err(e)
  {
    DecodesWhatBegins(inner);
    WholeBegins(inner);
    hide DecodeTlv, Element, DecodeBitString;
  }

  /** An element is the whole input when it is as long. */
  lemma WholeBegins(input: seq<byte>)
    ensures forall tag, value | Begins(input, tag, value) ::
      |Element(tag, value)| == |input| <==> Element(tag, value) == input
    ensures forall value: seq<byte> | |value| < U32_LIMIT && input == Element(BIT_STRING, value) ::
      Begins(input, BIT_STRING, value)
  {
    hide Element;
  }

  /** The parameters fail once the mandatory fields are read. */
  lemma ParametersErrors(outer: seq<byte>, e: ParametersError)
    ensures ParseFields(outer) == Err(Parameters(e)) <==>
      exists rest :: AfterMandatory(outer, rest) && ParametersField(rest) == Err(Parameters(e))
  {
    if ParseFields(outer) == Err(Parameters(e)) {
      var rest := MandatoryRead(outer);
      ParametersFail(rest, e);
    }
    hide ParseFields, AfterMandatory, ParametersField, OptionalFields;
    forall rest | AfterMandatory(outer, rest) && ParametersField(rest) == Err(Parameters(e))
      ensures ParseFields(outer) == Err(Parameters(e))
    {
      ParametersFail(rest, e);
      ReadsMandatory(outer, rest);
    }
  }

  lemma ParametersFail(rest: seq<byte>, e: ParametersError)
    ensures OptionalFields(rest) == Err(Parameters(e)) <==> ParametersField(rest) == Err(Parameters(e))
  {
    hide StartsWithContext, DecodeExplicitContext, ValidateParametersInner, DecodePublicKeyTlv, Element;
  }

  /** p are the parameters at the front of an input, or there are none, and rest follows. */
  ghost predicate ParametersThen(input: seq<byte>, p: Option<seq<byte>>, rest: seq<byte>) {
    && (p.Some? ==> ParametersOk(p.value)) && (p.None? ==> !StartsWithContext(rest, 0))
    && input == ParametersOctets(p) + rest
  }

  /** The public key fails once the mandatory fields and the parameters are read. */
  lemma PublicKeyErrors(outer: seq<byte>, e: PublicKeyError)
    ensures ParseFields(outer) == Err(PublicKey(e)) <==>
      exists fields, p, rest :: AfterMandatory(outer, fields) && ParametersThen(fields, p, rest)
                                && PublicKeyField(rest) == Err(PublicKey(e))
  {
    if ParseFields(outer) == Err(PublicKey(e)) {
      var fields := MandatoryRead(outer);
      var p, rest := PublicKeyFails(fields, e);
    }
    hide ParseFields, AfterMandatory, ParametersThen, PublicKeyField, OptionalFields;
    forall fields, p, rest | AfterMandatory(outer, fields) && ParametersThen(fields, p, rest)
                             && PublicKeyField(rest) == Err(PublicKey(e))
      ensures ParseFields(outer) == Err(PublicKey(e))
    {
      FailsAtPublicKey(fields, p, rest, e);
      ReadsMandatory(outer, fields);
    }
  }

  lemma PublicKeyFails(fields: seq<byte>, e: PublicKeyError) returns (p: Option<seq<byte>>, rest: seq<byte>)
    requires OptionalFields(fields) == Err(PublicKey(e))
    ensures ParametersThen(fields, p, rest) && PublicKeyField(rest) == Err(PublicKey(e))
  {
    hide StartsWithContext, DecodeExplicitContext, ValidateParametersInner, DecodePublicKeyTlv, Element, ParametersOk;
    p, rest := ParametersField(fields).value.0, ParametersField(fields).value.1;
    if p.Some? { ParametersFieldAccepted(fields, p.value, rest); } else { assert [] + rest == fields; }
  }

  lemma FailsAtPublicKey(fields: seq<byte>, p: Option<seq<byte>>, rest: seq<byte>, e: PublicKeyError)
    requires ParametersThen(fields, p, rest) && PublicKeyField(rest) == Err(PublicKey(e))
    ensures OptionalFields(fields) == Err(PublicKey(e))
  {
    hide StartsWithContext, DecodeExplicitContext, ValidateParametersInner, DecodePublicKeyTlv, Element, ParametersOk;
    if p.Some? { ParametersFieldAccepted(fields, p.value, rest); } else { assert [] + rest == rest; }
  }

  /** After the mandatory fields the optional ones decide. */
  lemma ReadsMandatory(outer: seq<byte>, rest: seq<byte>)
    requires AfterMandatory(outer, rest) && OptionalFields(rest).Err?
    ensures ParseFields(outer) == Err(OptionalFields(rest).error)
  {
    hide DecodeIntegerTlv, DecodeOctetString, OptionalFields, Element;
    var privateKey :| |privateKey| < U32_LIMIT
      && outer == Element(INTEGER, [1]) + (Element(OCTET_STRING, privateKey) + rest);
    var version, octets := Element(INTEGER, [1]), Element(OCTET_STRING, privateKey);
    IntegerFieldAccepted(outer, [1], |version|);
    assert outer[|version|..] == octets + rest;
    OctetStringAccepted(octets + rest, privateKey, |octets|);
    assert (octets + rest)[|octets|..] == rest;
    ElementTag(INTEGER, [1], outer);
    ElementTag(OCTET_STRING, privateKey, octets + rest);
  }

  lemma MandatoryRead(outer: seq<byte>) returns (rest: seq<byte>)
    requires ParseFields(outer).Err? && (ParseFields(outer).error.Parameters? || ParseFields(outer).error.PublicKey?)
    ensures AfterMandatory(outer, rest) && OptionalFields(rest) == Err(ParseFields(outer).error)
  {
    hide DecodeIntegerTlv, DecodeOctetString, OptionalFields, Element;
    var (version, versionUsed) := DecodeIntegerTlv(outer).value;
    IntegerFieldAccepted(outer, version, versionUsed);
    assert version == [1];
    PrefixSplits(Element(INTEGER, [1]), outer);
    var rest0 := outer[versionUsed..];
    var (privateKey, keyUsed) := DecodeOctetString(rest0).value;
    OctetStringAccepted(rest0, privateKey, keyUsed);
    PrefixSplits(Element(OCTET_STRING, privateKey), rest0);
    rest := rest0[keyUsed..];
  }

  /** The errors of one optional field: its wrapper's, or those of what a good wrapper holds. */
  lemma OptionalFieldErrors(rest: seq<byte>)
    ensures forall e :: ParametersField(rest) == Err(Parameters(ParametersWrapper(e))) <==>
      StartsWithContext(rest, 0) && DecodeExplicitContext(0, rest) == Err(e)
    ensures forall e: ParametersError :: !e.ParametersWrapper? ==>
      (ParametersField(rest) == Err(Parameters(e)) <==>
       exists inner :: Begins(rest, Explicit(0), inner) && ValidateParametersInner(inner) == Err(e))
    ensures forall e :: PublicKeyField(rest) == Err(PublicKey(PublicKeyWrapper(e))) <==>
      StartsWithContext(rest, 1) && DecodeExplicitContext(1, rest) == Err(e)
    ensures forall e: PublicKeyError :: !e.PublicKeyWrapper? ==>
      (PublicKeyField(rest) == Err(PublicKey(e)) <==>
       exists inner :: Begins(rest, Explicit(1), inner) && DecodePublicKeyTlv(inner) == Err(e))
  {
    forall n: nat, inner | n <= 1 && Begins(rest, Explicit(n), inner)
      ensures StartsWithContext(rest, n)
      ensures DecodeExplicitContext(n, rest) == Ok((inner, |Element(Explicit(n), inner)|))
    {
      ExplicitAccepted(n, rest, inner, |Element(Explicit(n), inner)|);
      ContextStart(n, inner, rest, n);
    }
    forall n: nat | n <= 1 && DecodeExplicitContext(n, rest).Ok?
      ensures Begins(rest, Explicit(n), DecodeExplicitContext(n, rest).value.0)
    {
      ExplicitAccepted(n, rest, DecodeExplicitContext(n, rest).value.0, DecodeExplicitContext(n, rest).value.1);
    }
    InnerKinds();
    hide StartsWithContext, DecodeExplicitContext, ValidateParametersInner, DecodePublicKeyTlv, Element, Begins;
  }

  lemma InnerKinds()
    ensures forall inner, e :: ValidateParametersInner(inner) == Err(e) ==> !e.ParametersWrapper?
    ensures forall inner, e :: DecodePublicKeyTlv(inner) == Err(e) ==> !e.PublicKeyWrapper?
  {
    hide DecodeTlv, DecodeBitString;
  }

  /** A field is looked for exactly where an identifier of its number stands, in either form. */
  lemma ContextStartExactly(rest: seq<byte>, n: nat)
    requires n < U32_LIMIT
    ensures StartsWithContext(rest, n) <==>
      TagOctets(Tag(ContextSpecific, true, n)) <= rest || TagOctets(Tag(ContextSpecific, false, n)) <= rest
  {
    hide TagOf, TagOctets;
    forall constructed: bool
      ensures var tag := Tag(ContextSpecific, constructed, n);
        TagOf(rest) == Ok((tag, |TagOctets(tag)|)) <==> TagOctets(tag) <= rest
    {
      var tag := Tag(ContextSpecific, constructed, n);
      TagAccepted(rest, tag, |TagOctets(tag)|);
    }
    if TagOf(rest).Ok? { TagAccepted(rest, TagOf(rest).value.0, TagOf(rest).value.1); }
  }
}
