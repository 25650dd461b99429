/** Octets, results, and unsigned big-endian numbers. */
module Bytes {

  type byte = b: nat | b < 256

  datatype Result<+T, +E> = Ok(value: T) | Err(error: E)

  datatype Option<+T> = None | Some(value: T)

  /** One more than the largest 32-bit unsigned integer. */
  const U32_LIMIT: nat := 0x1_0000_0000

  function Pow256(n: nat): (p: nat)
    ensures p > 0
  {
    if n == 0 then 1 else 256 * Pow256(n - 1)
  }

  /** The number written by s in base 256, most significant octet first. */
  function FromBE(s: seq<byte>): nat {
    if |s| == 0 then 0 else FromBE(s[..|s| - 1]) * 256 + s[|s| - 1]
  }

  /** The octets of v without a leading zero octet; none for 0. */
  function ToBE(v: nat): seq<byte> {
    if v == 0 then [] else ToBE(v / 256) + [v % 256]
  }

  lemma FromBEAppend(s: seq<byte>, b: byte)
    ensures FromBE(s + [b]) == FromBE(s) * 256 + b
  {
    assert (s + [b])[..|s|] == s;
  }

  lemma {:induction false} FromToBE(v: nat)
    ensures FromBE(ToBE(v)) == v
    ensures v > 0 ==> |ToBE(v)| > 0 && ToBE(v)[0] != 0
  {
    if v > 0 {
      FromToBE(v / 256);
      FromBEAppend(ToBE(v / 256), v % 256);
    }
  }

  lemma {:induction false} ToFromBE(s: seq<byte>)
    requires |s| > 0 ==> s[0] != 0
    ensures ToBE(FromBE(s)) == s
  {
    if |s| > 0 {
      var init, last := s[..|s| - 1], s[|s| - 1];
      ToFromBE(init);
      assert s == init + [last];
      if |s| > 1 { LeadingBound(init); }
    }
  }

  lemma {:induction false} BEBound(s: seq<byte>)
    ensures FromBE(s) < Pow256(|s|)
  {
    if |s| > 0 { BEBound(s[..|s| - 1]); }
  }

  /** A nonzero leading octet keeps the number large. */
  lemma {:induction false} LeadingBound(s: seq<byte>)
    requires |s| > 0
    ensures FromBE(s) >= s[0] * Pow256(|s| - 1)
  {
    if |s| > 1 {
      var init := s[..|s| - 1];
      LeadingBound(init);
      MulMonotone(s[0] * Pow256(|s| - 2), FromBE(init));
      assert s[0] * Pow256(|s| - 1) == s[0] * Pow256(|s| - 2) * 256;
    } else {
      assert FromBE(s[..0]) == 0;
    }
  }

  lemma MulMonotone(a: nat, b: nat)
    requires a <= b
    ensures a * 256 <= b * 256
  {
  }

  lemma {:induction false} Pow256Monotone(m: nat, n: nat)
    requires m <= n
    ensures Pow256(m) <= Pow256(n)
    decreases n
  {
    if m < n { Pow256Monotone(m, n - 1); }
  }

  lemma ToBERange(v: nat)
    requires v > 0
    ensures |ToBE(v)| > 0 && Pow256(|ToBE(v)| - 1) <= v < Pow256(|ToBE(v)|)
  {
    hide ToBE, FromBE, Pow256;
    var s := ToBE(v);
    FromToBE(v);
    BEBound(s);
    LeadingBound(s);
    MulAtLeast(s[0], Pow256(|s| - 1));
  }

  lemma MulAtLeast(a: nat, b: nat)
    requires a > 0
    ensures a * b >= b
  {
  }

  /** |ToBE(v)| is the least number of octets that hold v. */
  lemma ToBELength(v: nat, n: nat)
    ensures |ToBE(v)| <= n <==> v < Pow256(n)
  {
    if v > 0 {
      hide ToBE, Pow256;
      ToBERange(v);
      var m := |ToBE(v)|;
      if m <= n { Pow256Monotone(m, n); } else { Pow256Monotone(n, m - 1); }
    }
  }

  lemma MulShift(a: nat, p: nat, q: nat, b: nat)
    ensures (a * p + q) * 256 + b == a * (256 * p) + (q * 256 + b)
  {
  }

  lemma {:induction false} FromBEConcat(a: seq<byte>, b: seq<byte>)
    ensures FromBE(a + b) == FromBE(a) * Pow256(|b|) + FromBE(b)
  {
    if |b| == 0 {
      assert a + b == a;
    } else {
      var init, last := b[..|b| - 1], b[|b| - 1];
      assert (a + b)[..|a + b| - 1] == a + init;
      FromBEConcat(a, init);
      MulShift(FromBE(a), Pow256(|init|), FromBE(init), last);
    }
  }

  lemma DigitUnique(x: nat, p: byte, y: nat, q: byte)
    requires x * 256 + p == y * 256 + q
    ensures x == y && p == q
  {
  }

  /** Numbers of the same width are written in only one way. */
  lemma {:induction false} FromBEInjective(a: seq<byte>, b: seq<byte>)
    requires |a| == |b| && FromBE(a) == FromBE(b)
    ensures a == b
  {
    if |a| > 0 {
      var x, y := a[..|a| - 1], b[..|b| - 1];
      DigitUnique(FromBE(x), a[|a| - 1], FromBE(y), b[|b| - 1]);
      FromBEInjective(x, y);
      assert a == x + [a[|a| - 1]] && b == y + [b[|b| - 1]];
    }
  }

  /** v as exactly n octets, most significant first; higher octets are dropped. */
  function FixedBE(v: nat, n: nat): (s: seq<byte>)
    ensures |s| == n
  {
    if n == 0 then [] else FixedBE(v / 256, n - 1) + [v % 256]
  }

  lemma {:induction false} FixedBEValue(v: nat, n: nat)
    requires v < Pow256(n)
    ensures FromBE(FixedBE(v, n)) == v
  {
    if n > 0 {
      FixedBEValue(v / 256, n - 1);
      FromBEAppend(FixedBE(v / 256, n - 1), v % 256);
    }
  }

  lemma {:induction false} ZeroValue(s: seq<byte>)
    requires forall i :: 0 <= i < |s| ==> s[i] == 0
    ensures FromBE(s) == 0
  {
    if |s| > 0 { ZeroValue(s[..|s| - 1]); }
  }

  /** Leading zero octets do not change the number. */
  lemma LeadingZeros(s: seq<byte>, lead: nat)
    requires lead <= |s| && forall i :: 0 <= i < lead ==> s[i] == 0
    ensures FromBE(s[lead..]) == FromBE(s)
  {
    assert s == s[..lead] + s[lead..];
    FromBEConcat(s[..lead], s[lead..]);
    ZeroValue(s[..lead]);
  }

  /** Overwrite |s| octets of out from position `at` on (copy_from_slice). */
  method CopyInto(s: seq<byte>, out: array<byte>, at: nat)
    requires at + |s| <= out.Length
    modifies out
    ensures out[..] == old(out[..at]) + s + old(out[at + |s|..])
  {
    var k := 0;
    while k < |s|
      invariant 0 <= k <= |s|
      invariant forall j :: 0 <= j < at ==> out[j] == old(out[j])
      invariant forall j :: at <= j < at + k ==> out[j] == s[j - at]
      invariant forall j :: at + k <= j < out.Length ==> out[j] == old(out[j])
    {
      out[at + k] := s[k];
      k := k + 1;
    }
  }
}
