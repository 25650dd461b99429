/** DER BIT STRING contents and the bit sequences they denote. */
module BitStringCodec {
  import opened Bytes

  datatype BitString = BitString(data: seq<byte>, unused: byte)

  datatype BitStringError = Empty | UnusedBitsTooLarge | NonZeroPadding | EmptyNonZeroUnused

  function Pow2(n: nat): (p: nat)
    ensures p > 0
  {
    if n == 0 then 1 else 2 * Pow2(n - 1)
  }

  /** The low `unused` bits of octet b are all zero (b & ((1 << unused) - 1) == 0). */
  predicate LowBitsClear(b: byte, unused: nat) {
    b % Pow2(unused) == 0
  }

  /** Unused count at most 7, padding bits zero, and no unused bits without an octet. */
  predicate Canonical(bs: BitString) {
    && bs.unused <= 7
    && if |bs.data| == 0 then bs.unused == 0 else LowBitsClear(bs.data[|bs.data| - 1], bs.unused)
  }

  function DecodeBitString(content: seq<byte>): Result<BitString, BitStringError> {
    if |content| == 0 then Err(Empty)
    else
      var unused, data := content[0], content[1..];
      if unused > 7 then Err(UnusedBitsTooLarge)
      else if |data| == 0 then
        if unused != 0 then Err(EmptyNonZeroUnused) else Ok(BitString(data, 0))
      else if !LowBitsClear(data[|data| - 1], unused) then Err(NonZeroPadding)
      else Ok(BitString(data, unused))
  }

  function RequireOctetAligned(bs: BitString): Option<seq<byte>> {
    if bs.unused == 0 then Some(bs.data) else None
  }

  /** Write [unused] + data into out, or refuse and leave out as it was. */
  method EncodeBitStringInto(data: seq<byte>, unused: byte, out: array<byte>) returns (r: Option<nat>)
    modifies out
    ensures r == if Canonical(BitString(data, unused)) && 1 + |data| <= out.Length then Some(1 + |data|) else None
    ensures r.None? ==> out[..] == old(out[..])
    ensures r.Some? ==> out[..] == [unused] + data + old(out[1 + |data|..])
  {
    if unused > 7 { return None; }
    if |data| == 0 {
      if unused != 0 { return None; }
    } else {
      if !LowBitsClear(data[|data| - 1], unused) { return None; }
    }
    var total := 1 + |data|;
    if out.Length < total { return None; }
    out[0] := unused;
    CopyInto(data, out, 1);
    assert out[..1] == [unused];
    return Some(total);
  }

  // ---------------------------------------------------------------- bit sequences

  /** The low n bits of v, most significant first. */
  function BitsOf(v: nat, n: nat): (bits: seq<bool>)
    ensures |bits| == n
  {
    if n == 0 then [] else BitsOf(v / 2, n - 1) + [v % 2 == 1]
  }

  /** The number with the given bits, most significant first. */
  function NumberOf(bits: seq<bool>): nat {
    if |bits| == 0 then 0
    else 2 * NumberOf(bits[..|bits| - 1]) + if bits[|bits| - 1] then 1 else 0
  }

  lemma {:induction false} NumberBound(bits: seq<bool>)
    ensures NumberOf(bits) < Pow2(|bits|)
  {
    if |bits| > 0 { NumberBound(bits[..|bits| - 1]); }
  }

  /** The eight bits of an octet. */
  function OctetBits(b: byte): (bits: seq<bool>)
    ensures |bits| == 8
  {
    BitsOf(b, 8)
  }

  /** The octet with the given eight bits. */
  function OctetOf(bits: seq<bool>): byte
    requires |bits| == 8
  {
    NumberBound(bits);
    Pow2Values();
    NumberOf(bits)
  }

  lemma Pow2Values()
    ensures Pow2(0) == 1 && Pow2(1) == 2 && Pow2(2) == 4 && Pow2(3) == 8 && Pow2(4) == 16
    ensures Pow2(5) == 32 && Pow2(6) == 64 && Pow2(7) == 128 && Pow2(8) == 256
  {
    assert Pow2(2) == 4;
    assert Pow2(4) == 16;
    assert Pow2(6) == 64;
  }

  function Unpack(data: seq<byte>): (bits: seq<bool>)
    ensures |bits| == 8 * |data|
  {
    if |data| == 0 then [] else OctetBits(data[0]) + Unpack(data[1..])
  }

  function Pack(bits: seq<bool>): (data: seq<byte>)
    requires |bits| % 8 == 0
    ensures 8 * |data| == |bits|
  {
    if |bits| == 0 then [] else [OctetOf(bits[..8])] + Pack(bits[8..])
  }

  /** The bit sequence a BIT STRING denotes: every bit of its octets except the unused ones. */
  function Bits(bs: BitString): seq<bool>
    requires bs.unused <= 8 * |bs.data|
  {
    Unpack(bs.data)[..8 * |bs.data| - bs.unused]
  }

  function Zeros(n: nat): seq<bool> {
    seq(n, _ => false)
  }

  /** The BIT STRING of a bit sequence, padded with zero bits to whole octets. */
  function OfBits(bits: seq<bool>): BitString {
    var unused := (8 - |bits| % 8) % 8;
    BitString(Pack(bits + Zeros(unused)), unused)
  }

  lemma {:induction false} NumberOfBitsOf(v: nat, n: nat)
    requires v < Pow2(n)
    ensures NumberOf(BitsOf(v, n)) == v
  {
    if n > 0 {
      NumberOfBitsOf(v / 2, n - 1);
      var bits := BitsOf(v, n);
      assert bits[..n - 1] == BitsOf(v / 2, n - 1);
    }
  }

  lemma {:induction false} BitsOfNumberOf(bits: seq<bool>)
    ensures BitsOf(NumberOf(bits), |bits|) == bits
  {
    if |bits| > 0 {
      var init := bits[..|bits| - 1];
      BitsOfNumberOf(init);
      assert bits == init + [bits[|bits| - 1]];
    }
  }

  lemma {:induction false} PackUnpack(data: seq<byte>)
    ensures Pack(Unpack(data)) == data
  {
    if |data| > 0 {
      var head, tail := OctetBits(data[0]), Unpack(data[1..]);
      assert (head + tail)[..8] == head && (head + tail)[8..] == tail;
      Pow2Values();
      NumberOfBitsOf(data[0], 8);
      PackUnpack(data[1..]);
    }
  }

  lemma {:induction false} UnpackPack(bits: seq<bool>)
    requires |bits| % 8 == 0
    ensures Unpack(Pack(bits)) == bits
  {
    if |bits| > 0 {
      BitsOfNumberOf(bits[..8]);
      UnpackPack(bits[8..]);
      assert Pack(bits)[1..] == Pack(bits[8..]);
    }
  }

  lemma Apart(d: nat, x: nat, y: nat)
    ensures x > y ==> d * x >= d * y + d
  {
    if x > y { assert d * x == d * (y + 1) + d * (x - y - 1); }
  }

  /** Division with remainder is unique. */
  lemma ModUnique(a: nat, d: nat, q: nat, m: nat)
    requires m < d && a == d * q + m
    ensures a % d == m
  {
    var q', m' := a / d, a % d;
    assert a == d * q' + m';
    Apart(d, q, q');
    Apart(d, q', q);
  }

  lemma ModHalf(v: nat, p: nat)
    requires p > 0
    ensures v % (2 * p) == 0 <==> v % 2 == 0 && v / 2 % p == 0
  {
    var h, r := v / 2, v % 2;
    var q, m := h / p, h % p;
    assert h == p * q + m;
    assert v == 2 * h + r;
    calc {
      v;
      2 * (p * q + m) + r;
      2 * (p * q) + (2 * m + r);
      (2 * p) * q + (2 * m + r);
    }
    ModUnique(v, 2 * p, q, 2 * m + r);
  }

  /** The low bits of a number are clear exactly when its last bits are zeros. */
  lemma {:induction false} LowBits(v: nat, n: nat, unused: nat)
    requires unused <= n && unused <= 7
    ensures v % Pow2(unused) == 0 <==> BitsOf(v, n)[n - unused..] == Zeros(unused)
  {
    if unused > 0 {
      LowBits(v / 2, n - 1, unused - 1);
      Pow2Values();
      ModHalf(v, Pow2(unused - 1));
      var rest := BitsOf(v / 2, n - 1)[n - unused..];
      assert BitsOf(v, n)[n - unused..] == rest + [v % 2 == 1];
      assert Zeros(unused) == Zeros(unused - 1) + [false];
      assert (rest + [v % 2 == 1])[..unused - 1] == rest;
    }
  }

  lemma {:induction false} UnpackLast(data: seq<byte>)
    requires |data| > 0
    ensures Unpack(data)[8 * |data| - 8..] == OctetBits(data[|data| - 1])
  {
    if |data| > 1 {
      UnpackLast(data[1..]);
      assert data[1..][|data| - 2] == data[|data| - 1];
    }
  }

  lemma NoZeros(n: nat)
    ensures |Zeros(n)| == n && (n == 0 ==> Zeros(n) == [])
  {
  }

  lemma SuffixOf(s: seq<bool>, i: nat, j: nat)
    requires i + j <= |s|
    ensures s[i..][j..] == s[i + j..]
  {
  }

  /** A canonical BIT STRING has zeros in its unused positions, and only a canonical one has. */
  lemma CanonicalPadding(bs: BitString)
    requires bs.unused <= 7
    ensures Canonical(bs)
      <==> bs.unused <= 8 * |bs.data| && Unpack(bs.data)[8 * |bs.data| - bs.unused..] == Zeros(bs.unused)
  {
    var n := |bs.data|;
    NoZeros(bs.unused);
    if n > 0 {
      UnpackLast(bs.data);
      LowBits(bs.data[n - 1], 8, bs.unused);
      assert OctetBits(bs.data[n - 1]) == BitsOf(bs.data[n - 1], 8);
      hide Unpack, BitsOf, OctetBits, Zeros, Pow2;
      SuffixOf(Unpack(bs.data), 8 * n - 8, 8 - bs.unused);
    }
  }

  // ---------------------------------------------------------------- theorems

  /** Every bit sequence is denoted by one canonical BIT STRING. */
  lemma OfBitsCorrect(bits: seq<bool>)
    ensures var bs := OfBits(bits); Canonical(bs) && bs.unused <= 8 * |bs.data| && Bits(bs) == bits
  {
    var bs := OfBits(bits);
    var padded := bits + Zeros(bs.unused);
    assert |padded| % 8 == 0;
    UnpackPack(padded);
    assert padded[..|bits|] == bits && padded[|bits|..] == Zeros(bs.unused);
    CanonicalPadding(bs);
  }

  lemma UnusedCount(octets: nat, unused: nat)
    requires unused <= 7 && unused <= 8 * octets
    ensures (8 - (8 * octets - unused) % 8) % 8 == unused
  {
  }

  lemma CanonicalIsOfBits(bs: BitString)
    requires Canonical(bs)
    ensures bs.unused <= 8 * |bs.data| && OfBits(Bits(bs)) == bs
  {
    CanonicalPadding(bs);
    hide Canonical, Unpack, Pack;
    var all := Unpack(bs.data);
    assert all == Bits(bs) + Zeros(bs.unused);
    UnusedCount(|bs.data|, bs.unused);
    PackUnpack(bs.data);
  }

  /** The contents of a bit sequence. */
  function ContentOf(bits: seq<bool>): seq<byte> {
    var bs := OfBits(bits);
    [bs.unused] + bs.data
  }

  /**
    Accepted contents and bit sequences correspond one to one: content is accepted as bs exactly when
    bs is canonical and content is the contents of its bits.
   */
  lemma BitStringAccepted(content: seq<byte>, bs: BitString)
    ensures DecodeBitString(content) == Ok(bs)
      <==> Canonical(bs) && bs.unused <= 8 * |bs.data| && content == ContentOf(Bits(bs))
  {
    hide Bits, OfBits, LowBitsClear;
    if Canonical(bs) { CanonicalIsOfBits(bs); }
    if DecodeBitString(content) == Ok(bs) { assert content == [content[0]] + content[1..]; }
  }

  /** Each rejection and its cause, in bits: padding is faulty when an unused bit of the octets is set. */
  lemma BitStringErrors(content: seq<byte>)
    ensures DecodeBitString(content) == Err(UnusedBitsTooLarge) <==> |content| > 0 && content[0] > 7
    ensures DecodeBitString(content) == Err(EmptyNonZeroUnused) <==> |content| == 1 && 0 < content[0] <= 7
    ensures DecodeBitString(content) == Err(NonZeroPadding)
      <==> |content| > 1 && content[0] <= 7
           && exists i :: 8 * (|content| - 1) - content[0] <= i < 8 * (|content| - 1) && Unpack(content[1..])[i]
  {
    if |content| > 1 && content[0] <= 7 {
      var bs := BitString(content[1..], content[0]);
      CanonicalPadding(bs);
      hide Unpack, LowBitsClear;
      var n := 8 * |bs.data|;
      var all := Unpack(bs.data);
      assert all[n - bs.unused..] == Zeros(bs.unused) <==> forall i :: n - bs.unused <= i < n ==> !all[i] by {
        if forall i :: n - bs.unused <= i < n ==> !all[i] { assert all[n - bs.unused..] == Zeros(bs.unused); }
        if all[n - bs.unused..] == Zeros(bs.unused) {
          forall i | n - bs.unused <= i < n ensures !all[i] { assert all[i] == Zeros(bs.unused)[i - (n - bs.unused)]; }
        }
      }
    }
  }

  lemma BitsAccepted(bits: seq<bool>)
    ensures DecodeBitString(ContentOf(bits)) == Ok(OfBits(bits))
    ensures OfBits(bits).unused <= 8 * |OfBits(bits).data| && Bits(OfBits(bits)) == bits
  {
    hide Bits, OfBits, LowBitsClear;
    OfBitsCorrect(bits);
  }

  /** Octet alignment is granted exactly when the bits are whole octets, and returns them. */
  lemma OctetAlignedBits(bs: BitString)
    requires Canonical(bs)
    ensures bs.unused <= 8 * |bs.data|
    ensures RequireOctetAligned(bs).Some? <==> |Bits(bs)| % 8 == 0
    ensures RequireOctetAligned(bs).Some? ==> Unpack(RequireOctetAligned(bs).value) == Bits(bs)
  {
    CanonicalPadding(bs);
  }
}
