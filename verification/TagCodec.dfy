/** DER identifier octets: class, primitive/constructed flag and a tag number below 2^32. */
module TagCodec {
  import opened Bytes

  datatype Class = Universal | Application | ContextSpecific | Private

  datatype Tag = Tag(class_: Class, constructed: bool, number: nat)

  datatype TagError = Truncated | NonMinimal | TooLarge

  function ClassBits(c: Class): nat {
    match c
    case Universal => 0
    case Application => 1
    case ContextSpecific => 2
    case Private => 3
  }

  function ClassOf(bits: nat): Class {
    match bits
    case 0 => Universal
    case 1 => Application
    case 2 => ContextSpecific
    case _ => Private
  }

  /** The class and form bits of the initial octet. */
  function FormBits(t: Tag): (b: byte)
    ensures b % 32 == 0
  {
    64 * ClassBits(t.class_) + if t.constructed then 32 else 0
  }

  /** The base-128 groups of v, each marked as continued, without a leading zero group. */
  function Continued(v: nat): seq<byte> {
    if v == 0 then [] else Continued(v / 128) + [128 + v % 128]
  }

  /** The canonical identifier of t (section 8.1.2 of X.690). */
  function TagOctets(t: Tag): (s: seq<byte>)
    ensures |s| > 0
  {
    if t.number <= 30 then [FormBits(t) + t.number]
    else [FormBits(t) + 31] + (Continued(t.number / 128) + [t.number % 128])
  }

  /** The high-tag loop of decode_tag from position i, with `count` groups accumulated in `number`. */
  function HighNumber(input: seq<byte>, i: nat, number: nat, count: nat): Result<(nat, nat), TagError>
    requires i <= |input|
    decreases |input| - i
  {
    if i == |input| then Err(Truncated)
    else if count == 0 && input[i] == 0x80 then Err(NonMinimal)
    else if number > (U32_LIMIT - 1) / 128 then Err(TooLarge)
    else
      var number' := number * 128 + input[i] % 128;
      if input[i] < 128 then Ok((number', i + 1)) else HighNumber(input, i + 1, number', count + 1)
  }

  /** What decode_tag returns on input: the tag and the octets consumed, or the error. */
  function TagOf(input: seq<byte>): Result<(Tag, nat), TagError> {
    if |input| == 0 then Err(Truncated)
    else
      var first := input[0];
      var class_, constructed := ClassOf(first / 64), first / 32 % 2 == 1;
      if first % 32 != 31 then Ok((Tag(class_, constructed, first % 32), 1))
      else
        match HighNumber(input, 1, 0, 0)
        case Err(e) => Err(e)
        case Ok((number, i)) =>
          if number <= 30 then Err(NonMinimal) else Ok((Tag(class_, constructed, number), i))
  }

  /** The decoder's loop over the high-tag octets: one outcome, carried out of the loop. */
  method DecodeHighNumber(input: seq<byte>) returns (state: Result<(nat, nat), TagError>)
    requires |input| > 0
    ensures state == HighNumber(input, 1, 0, 0)
  {
    var number: nat, i: nat, count: nat := 0, 1, 0;
    state := Err(Truncated);
    while i < |input|
      invariant 1 <= i <= |input| && 0 <= number && 0 <= count
      invariant HighNumber(input, 1, 0, 0) == HighNumber(input, i, number, count)
      invariant state == Err(Truncated)
    {
      var octet := input[i];
      if count == 0 && octet == 0x80 { state := Err(NonMinimal); break; }
      if number > (U32_LIMIT - 1) / 128 { state := Err(TooLarge); break; }
      assert number * 128 < U32_LIMIT;
      number := (number * 128) % U32_LIMIT + octet % 128;
      count := count + 1;
      i := i + 1;
      if octet < 128 { state := Ok((number, i)); break; }
    }
  }

  method DecodeTag(input: seq<byte>) returns (r: Result<(Tag, nat), TagError>)
    ensures r == TagOf(input)
  {
    if |input| == 0 { return Err(Truncated); }
    var first := input[0];
    var class_, constructed := ClassOf(first / 64), first / 32 % 2 == 1;
    if first % 32 != 31 { return Ok((Tag(class_, constructed, first % 32), 1)); }
    hide HighNumber, ClassOf;
    var state := DecodeHighNumber(input);
    match state
    case Err(e) => return Err(e);
    case Ok((n, used)) =>
      if n <= 30 { return Err(NonMinimal); }
      return Ok((Tag(class_, constructed, n), used));
  }

  /** v shifted right by k groups of seven bits. */
  function Shift7(v: nat, k: nat): nat {
    if k == 0 then v else Shift7(v / 128, k - 1)
  }

  /** Each continued group, by its distance from the last one. */
  lemma {:induction false} ContinuedAt(v: nat, i: nat)
    requires i < |Continued(v)|
    ensures Continued(v)[i] == 128 + Shift7(v, |Continued(v)| - 1 - i) % 128
  {
    if i < |Continued(v)| - 1 { ContinuedAt(v / 128, i); }
  }

  lemma {:induction false} ContinuedBound(v: nat, k: nat)
    requires Shift7(v, k) == 0
    ensures |Continued(v)| <= k
  {
    if v > 0 { ContinuedBound(v / 128, k - 1); }
  }

  lemma U32Groups(v: nat)
    requires v < U32_LIMIT
    ensures |Continued(v / 128)| <= 4
  {
    var t: nat := v / 128;
    var a: nat := t / 128;
    var b: nat := a / 128;
    var c: nat := b / 128;
    assert Shift7(t, 4) == Shift7(a, 3) == Shift7(b, 2) == Shift7(c, 1) == Shift7(c / 128, 0);
    ContinuedBound(t, 4);
  }

  /** The encoder: count the groups, then write them from the front into a six-octet buffer. */
  method EncodeTag(t: Tag) returns (out: seq<byte>, used: nat)
    requires t.number < U32_LIMIT
    ensures |out| == 6 && used <= 6 && out[..used] == TagOctets(t)
    ensures forall k :: used <= k < 6 ==> out[k] == 0
  {
    hide Continued, Shift7, FormBits;
    var buf := new byte[6](_ => 0);
    var cc := FormBits(t);
    if t.number <= 30 {
      FirstOctet(t, t.number);
      buf[0] := cc + t.number;
      assert buf[..1] == [cc + t.number];
      return buf[..], 1;
    }
    FirstOctet(t, 31);
    buf[0] := cc + 0x1F;
    ghost var groups := Continued(t.number / 128);
    U32Groups(t.number);
    var ndig: nat, rest: nat := 1, t.number / 128;
    while rest > 0
      invariant ndig - 1 + |Continued(rest)| == |groups|
      invariant buf[0] == cc + 31 && forall k :: 1 <= k < 6 ==> buf[k] == 0
      decreases rest
    {
      ContinuedStep(rest);
      ndig := ndig + 1;
      rest := rest / 128;
    }
    ContinuedStep(0);
    ghost var digits := groups + [t.number % 128];
    var i := 0;
    while i < ndig
      invariant 0 <= i <= ndig && buf[0] == cc + 31
      invariant forall k :: 0 <= k < i ==> buf[1 + k] == digits[k]
      invariant forall k :: 1 + i <= k < 6 ==> buf[k] == 0
    {
      GroupAt(t.number, ndig - 1, i);
      var octet := Shift7(t.number, ndig - 1 - i) % 128;
      if i != ndig - 1 { octet := 128 + octet; }
      buf[1 + i] := octet;
      i := i + 1;
    }
    assert buf[..1 + ndig] == [cc + 31] + digits by {
      forall k | 0 <= k < 1 + ndig ensures buf[k] == ([cc + 31] + digits)[k] {
        if k > 0 { assert buf[1 + (k - 1)] == digits[k - 1]; }
      }
    }
    return buf[..], 1 + ndig;
  }

  lemma ContinuedStep(v: nat)
    ensures |Continued(v)| == if v == 0 then 0 else 1 + |Continued(v / 128)|
  {
  }

  /** The i-th of the groups of v, the last one unmarked. */
  lemma GroupAt(v: nat, last: nat, i: nat)
    requires last == |Continued(v / 128)| && i <= last
    ensures var octet := Shift7(v, last - i) % 128;
      (Continued(v / 128) + [v % 128])[i] == if i == last then octet else 128 + octet
  {
    if i < last { ContinuedAt(v / 128, i); }
  }

  /** Reading continued groups accumulates their number. */
  lemma {:induction false} HighNumberContinues(input: seq<byte>, i: nat, m: nat)
    requires 1 <= i <= |input| && m < U32_LIMIT && input[1..i] == Continued(m)
    ensures HighNumber(input, 1, 0, 0) == HighNumber(input, i, m, i - 1)
  {
    if m == 0 {
      assert |input[1..i]| == 0;
    } else {
      assert input[1..i - 1] == input[1..i][..i - 2] == Continued(m / 128);
      HighNumberContinues(input, i - 1, m / 128);
      assert input[i - 1] == input[1..i][i - 2] == 128 + m % 128;
      if i == 2 { assert |Continued(m / 128)| == 0; }
    }
  }

  /** A number read by the loop is written canonically in the octets read. */
  lemma {:induction false} HighNumberCanonical(input: seq<byte>, i: nat, m: nat)
    requires 1 <= i <= |input| && input[1..i] == Continued(m) && (i > 1 ==> m > 0)
    requires HighNumber(input, i, m, i - 1).Ok?
    ensures var (v, n) := HighNumber(input, i, m, i - 1).value;
      v < U32_LIMIT && i < n <= |input| && input[1..n] == Continued(v / 128) + [v % 128]
    decreases |input| - i
  {
    var m' := m * 128 + input[i] % 128;
    assert input[1..i + 1] == input[1..i] + [input[i]];
    if input[i] < 128 {
      assert m' / 128 == m && m' % 128 == input[i];
    } else {
      assert m' / 128 == m && m' > 0;
      HighNumberCanonical(input, i + 1, m');
    }
  }

  lemma FirstOctet(t: Tag, low: nat)
    requires low <= 31
    ensures var b := FormBits(t) + low;
      b / 64 == ClassBits(t.class_) && (b / 32 % 2 == 1 <==> t.constructed) && b % 32 == low
      && ClassOf(b / 64) == t.class_
  {
  }

  lemma OctetParts(b: byte)
    ensures FormBits(Tag(ClassOf(b / 64), b / 32 % 2 == 1, b % 32)) + b % 32 == b
  {
    assert b / 64 == 0 || b / 64 == 1 || b / 64 == 2 || b / 64 == 3;
  }

  /** An accepted identifier is exactly the canonical identifier of its tag, whatever follows it. */
  lemma TagAccepted(input: seq<byte>, t: Tag, n: nat)
    ensures TagOf(input) == Ok((t, n))
      <==> t.number < U32_LIMIT && n == |TagOctets(t)| && TagOctets(t) <= input
  {
    if TagOf(input) == Ok((t, n)) { AcceptedTagIsCanonical(input, t, n); }
    if t.number < U32_LIMIT && TagOctets(t) <= input { CanonicalTagIsAccepted(input, t); }
  }

  lemma AcceptedTagIsCanonical(input: seq<byte>, t: Tag, n: nat)
    requires TagOf(input) == Ok((t, n))
    ensures t.number < U32_LIMIT && n == |TagOctets(t)| && TagOctets(t) <= input
  {
    var first := input[0];
    OctetParts(first);
    if first % 32 == 31 {
      assert input[1..1] == Continued(0);
      HighNumberCanonical(input, 1, 0);
      assert input[..n] == [first] + input[1..n];
    }
  }

  lemma CanonicalTagIsAccepted(input: seq<byte>, t: Tag)
    requires t.number < U32_LIMIT && TagOctets(t) <= input
    ensures TagOf(input) == Ok((t, |TagOctets(t)|))
  {
    var octets := TagOctets(t);
    assert input[0] == octets[0];
    if t.number <= 30 {
      FirstOctet(t, t.number);
    } else {
      FirstOctet(t, 31);
      HighAccepted(input, t.number);
    }
  }

  lemma LastGroup(input: seq<byte>, i: nat, v: nat)
    requires 1 <= i < |input| && input[i] == v % 128 && v < U32_LIMIT
    ensures HighNumber(input, i, v / 128, i - 1) == Ok((v, i + 1))
  {
    assert v / 128 * 128 + v % 128 == v;
  }

  /** The loop reads back a number written in canonical groups. */
  lemma HighAccepted(input: seq<byte>, v: nat)
    requires v < U32_LIMIT && |input| > 0 && Continued(v / 128) + [v % 128] <= input[1..]
    ensures HighNumber(input, 1, 0, 0) == Ok((v, |Continued(v / 128)| + 2))
  {
    hide Continued, HighNumber;
    var groups := Continued(v / 128);
    var i := |groups| + 1;
    var digits := groups + [v % 128];
    assert input[1..][..|digits|] == digits;
    assert input[i] == input[1..][i - 1] == digits[i - 1];
    assert input[1..i] == digits[..i - 1] == groups;
    HighNumberContinues(input, i, v / 128);
    LastGroup(input, i, v);
  }

  /** No identifier is a prefix of another. */
  lemma TagPrefixFree(t: Tag, u: Tag)
    requires t.number < U32_LIMIT && u.number < U32_LIMIT && TagOctets(t) <= TagOctets(u)
    ensures t == u
  {
    TagAccepted(TagOctets(u), t, |TagOctets(t)|);
    TagAccepted(TagOctets(u), u, |TagOctets(u)|);
  }

  /** The bits of the initial octet, from the class at the top to the number or the high-tag mark at the bottom. */
  lemma InitialOctet(t: Tag)
    ensures var octet := TagOctets(t)[0];
      && (octet >= 0xC0 <==> t.class_ == Private) && (0x80 <= octet < 0xC0 <==> t.class_ == ContextSpecific)
      && (0x40 <= octet < 0x80 <==> t.class_ == Application) && (octet < 0x40 <==> t.class_ == Universal)
      && (octet % 0x40 >= 0x20 <==> t.constructed)
      && octet % 0x20 == if t.number < 0x1F then t.number else 0x1F
  {
    var low := if t.number < 0x1F then t.number else 0x1F;
    assert TagOctets(t)[0] == FormBits(t) + low;
    OctetBits(ClassBits(t.class_), if t.constructed then 1 else 0, low);
  }

  lemma OctetBits(class_: nat, form: nat, low: nat)
    requires class_ <= 3 && form <= 1 && low < 0x20
    ensures var octet := 64 * class_ + 32 * form + low;
      && octet / 0x40 == class_ && octet % 0x40 == 32 * form + low && octet % 0x20 == low
  {
  }

  // ---------------------------------------------------------------- why identifiers are refused

  /** The first n octets after the initial one all say that more follow. */
  ghost predicate GoesOn(input: seq<byte>, n: nat) {
    |input| > n && forall i :: 1 <= i <= n ==> input[i] >= 128
  }

  /** A high-tag identifier, with something after the initial octet and no padding there. */
  ghost predicate HighTag(input: seq<byte>) {
    |input| > 1 && input[0] % 32 == 31 && input[1] != 128
  }

  /** The number outgrows 32 bits: four continued groups of 25 bits or more and another, or five and another. */
  ghost predicate Outgrows(input: seq<byte>) {
    HighTag(input) && ((GoesOn(input, 4) && input[1] >= 144 && |input| > 5) || (GoesOn(input, 5) && |input| > 6))
  }

  lemma HighStep(input: seq<byte>, i: nat, number: nat, count: nat)
    requires i < |input| && !(count == 0 && input[i] == 0x80) && number <= (U32_LIMIT - 1) / 128
    ensures HighNumber(input, i, number, count)
      == var number' := number * 128 + input[i] % 128;
         if input[i] < 128 then Ok((number', i + 1)) else HighNumber(input, i + 1, number', count + 1)
  {
  }

  /** The number after n groups that all go on. */
  ghost function GroupsValue(input: seq<byte>, n: nat): nat
    requires |input| > n
  {
    if n == 0 then 0 else GroupsValue(input, n - 1) * 128 + input[n] % 128
  }

  lemma FourGroups(a: nat, b: nat, c: nat, d: nat)
    requires a < 128 && b < 128 && c < 128 && d < 128
    ensures ((a * 128 + b) * 128 + c) * 128 + d > (U32_LIMIT - 1) / 128 <==> a >= 16
    ensures a > 0 ==> ((a * 128 + b) * 128 + c) * 128 + d >= 0x20_0000
    ensures (a * 128 + b) * 128 + c < 0x20_0000
  {
  }

  /** How large it can and must be: up to four groups fit, and the fourth outgrows 25 bits by the first alone. */
  lemma GroupsRange(input: seq<byte>, n: nat)
    requires 1 <= n <= 4 && HighTag(input) && GoesOn(input, n)
    ensures n < 4 ==> GroupsValue(input, n) <= (U32_LIMIT - 1) / 128
    ensures n == 4 ==> (GroupsValue(input, n) > (U32_LIMIT - 1) / 128 <==> input[1] >= 144)
    ensures GroupsValue(input, n) >= 1 && (n == 4 ==> GroupsValue(input, n) >= 0x20_0000)
  {
    var a: nat := input[1] % 128;
    var b: nat := if n > 1 then input[2] % 128 else 0;
    var c: nat := if n > 2 then input[3] % 128 else 0;
    var d: nat := if n > 3 then input[4] % 128 else 0;
    assert a > 0 by { assert input[1] > 128; }
    FourGroups(a, b, c, d);
    assert GroupsValue(input, 0) == 0 && GroupsValue(input, 1) == a;
    if n > 1 { assert GroupsValue(input, 2) == a * 128 + b; }
    if n > 2 { assert GroupsValue(input, 3) == (a * 128 + b) * 128 + c; }
    if n > 3 { assert GroupsValue(input, 4) == ((a * 128 + b) * 128 + c) * 128 + d; }
  }

  /** The loop is still running after n groups that go on. */
  lemma {:induction false} StillRunning(input: seq<byte>, n: nat)
    requires n <= 4 && HighTag(input) && GoesOn(input, n)
    ensures HighNumber(input, 1, 0, 0) == HighNumber(input, n + 1, GroupsValue(input, n), n)
  {
    if n > 0 {
      StillRunning(input, n - 1);
      if n > 1 { GroupsRange(input, n - 1); }
      HighStep(input, n, GroupsValue(input, n - 1), n - 1);
      hide HighNumber;
    }
  }

  /** The loop ends at position k, the first octet that goes no further. */
  lemma HighEnds(input: seq<byte>, k: nat)
    requires 1 <= k <= 5 && HighTag(input) && GoesOn(input, k - 1) && k < |input| && input[k] < 128
    requires k == 5 ==> input[1] < 144
    ensures TagOf(input).Ok? <==> k > 1 || input[1] > 30
    ensures TagOf(input).Err? ==> TagOf(input).error == NonMinimal
  {
    StillRunning(input, k - 1);
    if k > 1 { GroupsRange(input, k - 1); }
    HighStep(input, k, GroupsValue(input, k - 1), k - 1);
    hide HighNumber;
    if k == 1 { assert GroupsValue(input, 0) == 0; }
  }

  /** The input ends while the identifier goes on. */
  lemma HighRunsOut(input: seq<byte>)
    requires HighTag(input) && GoesOn(input, |input| - 1) && !Outgrows(input)
    ensures TagOf(input) == Err(Truncated)
  {
    var n := |input| - 1;
    if n <= 4 {
      StillRunning(input, n);
    } else {
      assert n == 5;
      StillRunning(input, 4);
      GroupsRange(input, 4);
      HighStep(input, 5, GroupsValue(input, 4), 4);
    }
  }

  lemma HighOutgrows(input: seq<byte>)
    requires Outgrows(input)
    ensures TagOf(input) == Err(TooLarge)
  {
    StillRunning(input, 4);
    GroupsRange(input, 4);
    if input[1] < 144 {
      HighStep(input, 5, GroupsValue(input, 4), 4);
    }
  }

  lemma {:induction false} FirstStop(input: seq<byte>, n: nat) returns (k: nat)
    requires n < |input| && !GoesOn(input, n)
    ensures 1 <= k <= n && input[k] < 128 && GoesOn(input, k - 1)
  {
    if GoesOn(input, n - 1) { k := n; } else { k := FirstStop(input, n - 1); }
  }

  /** Each error by the octets that cause it. */
  lemma TagErrors(input: seq<byte>)
    ensures TagOf(input) == Err(TooLarge) <==> Outgrows(input)
    ensures TagOf(input) == Err(NonMinimal) <==>
      |input| > 1 && input[0] % 32 == 31 && (input[1] == 128 || input[1] <= 30)
    ensures TagOf(input) == Err(Truncated) <==>
      || input == []
      || (input[0] % 32 == 31 && (|input| == 1 || (HighTag(input) && GoesOn(input, |input| - 1) && !Outgrows(input))))
  {
    if HighTag(input) {
      hide TagOf;
      if Outgrows(input) {
        HighOutgrows(input);
      } else if GoesOn(input, |input| - 1) {
        HighRunsOut(input);
      } else {
        var k := FirstStop(input, |input| - 1);
        HighEnds(input, k);
      }
    }
  }
}
