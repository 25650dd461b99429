/**
  The generated regions of the proof manifest: splitting a text at a region's markers, rewriting the regions from
  the source tree, and reporting the regions whose committed body differs.
 */
module ManifestRegions {
  import opened Bytes
  import opened Markers

  const BEGIN_HEAD := "<!-- BEGIN GENERATED:"
  const BEGIN_TAIL := " (gates/gen_proof_manifest.py) -->"
  const END_HEAD := "<!-- END GENERATED:"
  const END_TAIL := " -->"

  function Begin(name: string): string {
    BEGIN_HEAD + name + BEGIN_TAIL
  }

  function End(name: string): string {
    END_HEAD + name + END_TAIL
  }

  /** A region name holds no angle bracket, so its markers are markers. */
  ghost predicate Plain(name: string) {
    forall i :: 0 <= i < |name| ==> name[i] != '<' && name[i] != '>'
  }

  /** The fixed ends of a marker: one angle bracket each, outermost. */
  ghost predicate Ends(head: string, tail: string) {
    && |head| > 0 && head[0] == '<' && (forall i :: 0 < i < |head| ==> head[i] != '<')
    && (forall i :: 0 <= i < |head| ==> head[i] != '>')
    && |tail| > 0 && tail[|tail| - 1] == '>' && (forall i :: 0 <= i < |tail| ==> tail[i] != '<')
    && (forall i :: 0 <= i < |tail| - 1 ==> tail[i] != '>')
  }

  lemma EndsMakeMarker(head: string, name: string, tail: string)
    requires Ends(head, tail) && Plain(name)
    ensures Marker(head + name + tail)
  {
  }

  lemma MarkersAreMarkers(name: string)
    requires Plain(name)
    ensures Marker(Begin(name)) && Marker(End(name))
  {
    assert Ends(BEGIN_HEAD, BEGIN_TAIL);
    assert Ends(END_HEAD, END_TAIL);
    hide Ends, Marker, Plain;
    EndsMakeMarker(BEGIN_HEAD, name, BEGIN_TAIL);
    EndsMakeMarker(END_HEAD, name, END_TAIL);
  }

  lemma MarkersDiffer(m: string, n: string)
    ensures Begin(m) != End(n)
    ensures Begin(m) == Begin(n) ==> m == n
    ensures End(m) == End(n) ==> m == n
  {
    assert Begin(m)[5] == 'B' && End(n)[5] == 'E';
    assert Begin(m)[|BEGIN_HEAD|..|Begin(m)| - |BEGIN_TAIL|] == m;
    assert Begin(n)[|BEGIN_HEAD|..|Begin(n)| - |BEGIN_TAIL|] == n;
    assert End(m)[|END_HEAD|..|End(m)| - |END_TAIL|] == m;
    assert End(n)[|END_HEAD|..|End(n)| - |END_TAIL|] == n;
  }

  // ---------------------------------------------------------------- one region

  /** Parts of a text around a region; Misordered is the failed unpacking when no end follows the first begin. */
  datatype Split = Unmarked | Misordered | Parts(prefix: string, body: string, suffix: string)

  function SplitRegion(text: string, name: string): Split {
    if Find(text, Begin(name)).None? || Find(text, End(name)).None? then Unmarked
    else
      FindSplits(text, Begin(name));
      var i := Find(text, Begin(name)).value;
      var rest := text[i + |Begin(name)|..];
      match Find(rest, End(name))
      case None => Misordered
      case Some(j) =>
        FindSplits(rest, End(name));
        Parts(text[..i], rest[..j], rest[j + |End(name)|..])
  }

  /** A text with one region spelt out. */
  function Put(prefix: string, name: string, body: string, suffix: string): string {
    prefix + Begin(name) + body + End(name) + suffix
  }

  /** The text with the body of a region replaced; unchanged when the region cannot be split off. */
  function SetBody(text: string, name: string, body: string): string {
    match SplitRegion(text, name)
    case Parts(prefix, _, suffix) => Put(prefix, name, body, suffix)
    case _ => text
  }

  function Body(text: string, name: string): string
    requires SplitRegion(text, name).Parts?
  {
    SplitRegion(text, name).body
  }

  /** The text holds neither marker of the region. */
  ghost predicate Free(text: string, name: string) {
    Occ(text, Begin(name)) == 0 && Occ(text, End(name)) == 0
  }

  /** Each marker of the region occurs once, and they are in order. */
  ghost predicate Marked(text: string, name: string) {
    SplitRegion(text, name).Parts? && Occ(text, Begin(name)) == 1 && Occ(text, End(name)) == 1
  }

  ghost predicate Absent(text: string, name: string) {
    Occ(text, Begin(name)) == 0 || Occ(text, End(name)) == 0
  }

  ghost function One(same: bool): nat {
    if same then 1 else 0
  }

  /** Occurrences of a marker add up over the pieces of a text. */
  lemma PutOcc(p: string, n: string, q: string, r: string, m: string)
    requires Plain(n) && Marker(m)
    ensures Occ(Put(p, n, q, r), m)
      == Occ(p, m) + One(m == Begin(n)) + Occ(q, m) + One(m == End(n)) + Occ(r, m)
  {
    hide Occ, Begin, End, Plain;
    MarkersAreMarkers(n);
    OccMarker(Begin(n), m);
    OccMarker(End(n), m);
    OccAppend(p, Begin(n), m);
    OccAppend(p + Begin(n), q, m);
    OccAppend(p + Begin(n) + q, End(n), m);
    OccAppend(p + Begin(n) + q + End(n), r, m);
  }

  lemma PutFree(p: string, n: string, q: string, r: string, m: string)
    requires Plain(n) && Plain(m) && m != n
    ensures Free(Put(p, n, q, r), m) <==> Free(p, m) && Free(q, m) && Free(r, m)
    ensures Occ(Put(p, n, q, r), Begin(m)) == Occ(p, Begin(m)) + Occ(q, Begin(m)) + Occ(r, Begin(m))
    ensures Occ(Put(p, n, q, r), End(m)) == Occ(p, End(m)) + Occ(q, End(m)) + Occ(r, End(m))
  {
    hide Occ, Begin, End, Plain;
    MarkersAreMarkers(m);
    MarkersDiffer(m, n);
    MarkersDiffer(n, m);
    PutOcc(p, n, q, r, Begin(m));
    PutOcc(p, n, q, r, End(m));
  }

  lemma PutOwn(p: string, n: string, q: string, r: string)
    requires Plain(n)
    ensures Occ(Put(p, n, q, r), Begin(n)) == Occ(p, Begin(n)) + 1 + Occ(q, Begin(n)) + Occ(r, Begin(n))
    ensures Occ(Put(p, n, q, r), End(n)) == Occ(p, End(n)) + Occ(q, End(n)) + 1 + Occ(r, End(n))
  {
    hide Occ, Begin, End, Plain;
    MarkersAreMarkers(n);
    MarkersDiffer(n, n);
    PutOcc(p, n, q, r, Begin(n));
    PutOcc(p, n, q, r, End(n));
  }

  /** What splitting yields: the first begin, and the first end after it. */
  lemma SplitIsPut(t: string, n: string)
    requires SplitRegion(t, n).Parts?
    ensures var Parts(p, q, r) := SplitRegion(t, n);
      t == Put(p, n, q, r) && Occ(p, Begin(n)) == 0 && Occ(q, End(n)) == 0
  {
    hide Occ, Find;
    FindSplits(t, Begin(n));
    var i := Find(t, Begin(n)).value;
    FindSplits(t[i + |Begin(n)|..], End(n));
  }

  lemma PutSplits(p: string, n: string, q: string, r: string)
    requires Plain(n) && Occ(p, Begin(n)) == 0 && Occ(q, End(n)) == 0
    ensures SplitRegion(Put(p, n, q, r), n) == Parts(p, q, r)
  {
    hide Occ, Find, Begin, End;
    var t := Put(p, n, q, r);
    MarkersAreMarkers(n);
    PutOwn(p, n, q, r);
    FindSplits(t, End(n));
    var rest := q + End(n) + r;
    assert t == p + Begin(n) + rest;
    FindUnique(p, Begin(n), rest);
    assert t[|p| + |Begin(n)|..] == rest;
    FindUnique(q, End(n), r);
  }

  /** A marked region leaves no marker of its own in any of the three parts. */
  lemma MarkedParts(t: string, n: string)
    requires Plain(n)
    ensures Marked(t, n) ==>
      var Parts(p, q, r) := SplitRegion(t, n); t == Put(p, n, q, r) && Free(p, n) && Free(q, n) && Free(r, n)
  {
    if Marked(t, n) {
      hide Occ, SplitRegion;
      SplitIsPut(t, n);
      var Parts(p, q, r) := SplitRegion(t, n);
      PutOwn(p, n, q, r);
    }
  }

  lemma PutMarked(p: string, n: string, q: string, r: string)
    requires Plain(n) && Free(p, n) && Free(q, n) && Free(r, n)
    ensures Marked(Put(p, n, q, r), n) && SplitRegion(Put(p, n, q, r), n) == Parts(p, q, r)
  {
    hide Occ, SplitRegion;
    PutOwn(p, n, q, r);
    PutSplits(p, n, q, r);
  }

  // ---------------------------------------------------------------- two regions

  /** Both regions are marked, and neither body holds a marker of the other. */
  ghost predicate Disjoint(t: string, m: string, n: string) {
    Marked(t, m) && Marked(t, n) && Free(Body(t, m), n) && Free(Body(t, n), m)
  }

  /** The text spelt out around region x and, after it, region y. */
  ghost predicate Laid(t: string, x: string, y: string, a: string, b: string, c: string, d: string, e: string) {
    && t == Put(Put(a, x, b, c), y, d, e)
    && Free2(a, x, y) && Free2(b, x, y) && Free2(c, x, y) && Free2(d, x, y) && Free2(e, x, y)
  }

  ghost predicate Free2(t: string, x: string, y: string) {
    Free(t, x) && Free(t, y)
  }

  lemma PutNests(a: string, x: string, b: string, c: string, y: string, d: string, e: string)
    ensures Put(Put(a, x, b, c), y, d, e) == Put(a, x, b, Put(c, y, d, e))
  {
    hide Begin, End;
    var t := Put(a, x, b, c);
    calc {
      Put(a, x, b, Put(c, y, d, e));
      a + Begin(x) + b + End(x) + (c + Begin(y) + d + End(y) + e);
      t + Begin(y) + d + End(y) + e;
    }
  }

  lemma LaidSplits(t: string, x: string, y: string,
                   a: string, b: string, c: string, d: string, e: string)
    requires Plain(x) && Plain(y) && x != y && Laid(t, x, y, a, b, c, d, e)
    ensures Marked(t, x) && SplitRegion(t, x) == Parts(a, b, Put(c, y, d, e))
    ensures Marked(t, y) && SplitRegion(t, y) == Parts(Put(a, x, b, c), d, e)
    ensures Disjoint(t, x, y) && Disjoint(t, y, x)
  {
    hide Put, Free, Marked, SplitRegion, Plain;
    PutNests(a, x, b, c, y, d, e);
    PutFree(c, y, d, e, x);
    PutMarked(a, x, b, Put(c, y, d, e));
    PutFree(a, x, b, c, y);
    PutMarked(Put(a, x, b, c), y, d, e);
  }

  /** Replacing either body keeps the layout. */
  lemma LaidSet(t: string, x: string, y: string,
                a: string, b: string, c: string, d: string, e: string, v: string)
    requires Plain(x) && Plain(y) && x != y && Laid(t, x, y, a, b, c, d, e) && Free2(v, x, y)
    ensures Laid(SetBody(t, x, v), x, y, a, v, c, d, e)
    ensures Laid(SetBody(t, y, v), x, y, a, b, c, v, e)
  {
    hide Put, Free, Marked, SplitRegion, Plain;
    LaidSplits(t, x, y, a, b, c, d, e);
    PutNests(a, x, v, c, y, d, e);
  }

  /** A marker found in a text splits off everything before its first occurrence. */
  lemma CutAt(t: string, m: string) returns (a: string, c: string)
    requires Marker(m) && Occ(t, m) > 0
    ensures t == a + m + c && Occ(a, m) == 0 && Occ(t, m) == 1 + Occ(c, m)
    ensures forall k :: k != m && Marker(k) ==> Occ(t, k) == Occ(a, k) + Occ(c, k)
  {
    FindSplits(t, m);
    var i := Find(t, m).value;
    a, c := t[..i], t[i + |m|..];
    hide Occ, Find;
    OccMarker(m, m);
    OccAppend(a, m, m);
    OccAppend(a + m, c, m);
    forall k | k != m && Marker(k) ensures Occ(t, k) == Occ(a, k) + Occ(c, k) {
      OccMarker(m, k);
      OccAppend(a, m, k);
      OccAppend(a + m, c, k);
    }
  }

  /** In a marked text the end follows the begin. */
  lemma EndFollows(a: string, m: string, c: string)
    requires Plain(m) && Marked(a + Begin(m) + c, m) && Occ(a, Begin(m)) == 0
    ensures Occ(c, End(m)) == 1 && Occ(a, End(m)) == 0
  {
    hide Occ, Begin, End, Find, Plain, SplitRegion;
    var t := a + Begin(m) + c;
    MarkedParts(t, m);
    MarkersAreMarkers(m);
    var Parts(p, q, r) := SplitRegion(t, m);
    var d := q + End(m) + r;
    assert t == p + Begin(m) + d;
    FindUnique(a, Begin(m), c);
    FindUnique(p, Begin(m), d);
    assert a == t[..|a|] == p && c == t[|a| + |Begin(m)|..] == d;
    AroundMarker(q, End(m), r);
  }

  lemma AroundMarker(q: string, m: string, r: string)
    requires Marker(m)
    ensures Occ(q + m + r, m) == Occ(q, m) + 1 + Occ(r, m)
  {
    hide Occ;
    OccMarker(m, m);
    OccAppend(q, m, m);
    OccAppend(q + m, r, m);
  }

  /** The begin of m stands before region n: then so does its end. */
  lemma LayBefore(m: string, n: string, p: string, q: string, r: string)
    returns (a: string, b: string, c: string)
    requires Plain(m) && Plain(n) && m != n && Disjoint(Put(p, n, q, r), m, n)
    requires Free2(q, m, n) && Free(p, n) && Free(r, n) && Occ(p, Begin(m)) == 1
    ensures p == Put(a, m, b, c) && Free(a, m) && Free(b, m) && Free(c, m) && Free(r, m)
  {
    hide Occ, Begin, End, SplitRegion, Find, Plain;
    MarkersAreMarkers(m);
    MarkersDiffer(m, m);
    PutFree(p, n, q, r, m);
    var c0;
    a, c0 := CutAt(p, Begin(m));
    assert Put(p, n, q, r) == a + Begin(m) + Put(c0, n, q, r);
    EndFollows(a, m, Put(c0, n, q, r));
    PutFree(c0, n, q, r, m);
    if Occ(c0, End(m)) > 0 {
      b, c := CutAt(c0, End(m));
      assert p == Put(a, m, b, c);
    } else {
      b, c := "", "";
      var r1, r2 := CutAt(r, End(m));
      EndInside(a, m, c0, n, q, r1, r2);
      assert false;
    }
  }

  /** A region whose begin and end stand on either side of region n holds the marker of n in its body. */
  lemma EndInside(a: string, m: string, c: string, n: string, q: string, d: string, e: string)
    requires Plain(m) && Plain(n) && m != n
    requires Occ(a, Begin(m)) == 0 && Occ(c, End(m)) == 0 && Occ(q, End(m)) == 0 && Occ(d, End(m)) == 0
    ensures !Disjoint(Put(a + Begin(m) + c, n, q, d + End(m) + e), m, n)
  {
    hide Occ, SplitRegion, Find, Plain;
    var x := Put(c, n, q, d);
    PutFree(c, n, q, d, m);
    PutOwn(c, n, q, d);
    PutSplits(a, m, x, e);
    PutMerges(a, m, c, n, q, d, e);
  }

  lemma PutMerges(a: string, m: string, c: string, n: string, q: string, d: string, e: string)
    ensures Put(a + Begin(m) + c, n, q, d + End(m) + e) == Put(a, m, Put(c, n, q, d), e)
  {
    hide Begin, End;
    calc {
      Put(a + Begin(m) + c, n, q, d + End(m) + e);
      (a + Begin(m) + c) + Begin(n) + q + End(n) + (d + End(m) + e);
      a + Begin(m) + (c + Begin(n) + q + End(n) + d) + End(m) + e;
      Put(a, m, Put(c, n, q, d), e);
    }
  }

  /** The begin of m stands after region n: then so does its end. */
  lemma LayAfter(m: string, n: string, p: string, q: string, r: string)
    returns (a: string, b: string, c: string)
    requires Plain(m) && Plain(n) && m != n && Disjoint(Put(p, n, q, r), m, n)
    requires Free2(q, m, n) && Free(p, n) && Free(r, n) && Occ(p, Begin(m)) == 0
    ensures r == Put(a, m, b, c) && Free(a, m) && Free(b, m) && Free(c, m) && Free(p, m)
  {
    hide Occ, Begin, End, SplitRegion, Find, Plain;
    MarkersAreMarkers(m);
    MarkersDiffer(m, m);
    PutFree(p, n, q, r, m);
    var c0;
    a, c0 := CutAt(r, Begin(m));
    PutFree(p, n, q, a, m);
    assert Put(p, n, q, r) == Put(p, n, q, a) + Begin(m) + c0;
    EndFollows(Put(p, n, q, a), m, c0);
    b, c := CutAt(c0, End(m));
    assert r == Put(a, m, b, c);
  }

  /** The second of two disjoint regions lies wholly before or wholly after the first. */
  lemma Lay(t: string, m: string, n: string)
    returns (first: bool, a: string, b: string, c: string, d: string, e: string)
    requires Plain(m) && Plain(n) && m != n && Disjoint(t, m, n)
    ensures first ==> Laid(t, m, n, a, b, c, d, e)
    ensures !first ==> Laid(t, n, m, a, b, c, d, e)
  {
    hide Occ, Begin, End, SplitRegion, Plain, Put;
    MarkedParts(t, n);
    var Parts(p, q, r) := SplitRegion(t, n);
    PutFree(p, n, q, r, m);
    first := Occ(p, Begin(m)) == 1;
    if first {
      a, b, c := LayBefore(m, n, p, q, r);
      d, e := q, r;
      PutFree(a, m, b, c, n);
    } else {
      c, d, e := LayAfter(m, n, p, q, r);
      a, b := p, q;
      PutFree(c, m, d, e, n);
      PutNests(p, n, q, c, m, d, e);
    }
  }

  // ---------------------------------------------------------------- replacing bodies

  /** Replacing one body leaves the other region, and both markings, as they were. */
  lemma SetFrames(t: string, m: string, n: string, v: string)
    requires Plain(m) && Plain(n) && m != n && Disjoint(t, m, n) && Free2(v, m, n)
    ensures Disjoint(SetBody(t, m, v), m, n)
    ensures Body(SetBody(t, m, v), m) == v && Body(SetBody(t, m, v), n) == Body(t, n)
  {
    hide Put, Free, Occ, SplitRegion, SetBody, Plain;
    var first, a, b, c, d, e := Lay(t, m, n);
    if first {
      LaidSet(t, m, n, a, b, c, d, e, v);
      LaidSplits(t, m, n, a, b, c, d, e);
      LaidSplits(SetBody(t, m, v), m, n, a, v, c, d, e);
    } else {
      LaidSet(t, n, m, a, b, c, d, e, v);
      LaidSplits(t, n, m, a, b, c, d, e);
      LaidSplits(SetBody(t, m, v), n, m, a, b, c, v, e);
    }
  }

  lemma LaidKeepsSecond(t: string, x: string, y: string,
                        a: string, b: string, c: string, d: string, e: string, v: string)
    requires Plain(x) && Plain(y) && x != y && Laid(t, x, y, a, b, c, d, e) && Free(v, y)
    ensures SplitRegion(SetBody(t, x, v), y) == Parts(Put(a, x, v, c), d, e)
  {
    hide Put, Marked, SplitRegion, Plain, Occ;
    LaidSplits(t, x, y, a, b, c, d, e);
    PutNests(a, x, v, c, y, d, e);
    PutFree(a, x, v, c, y);
    PutSplits(Put(a, x, v, c), y, d, e);
  }

  lemma LaidKeepsFirst(t: string, x: string, y: string,
                       a: string, b: string, c: string, d: string, e: string, v: string)
    requires Plain(x) && Plain(y) && x != y && Laid(t, x, y, a, b, c, d, e)
    ensures SplitRegion(SetBody(t, y, v), x) == Parts(a, b, Put(c, y, v, e))
  {
    hide Put, Marked, SplitRegion, Plain, Occ;
    LaidSplits(t, x, y, a, b, c, d, e);
    PutNests(a, x, b, c, y, v, e);
    PutSplits(a, x, b, Put(c, y, v, e));
  }

  /** The other region keeps its body even when the new one repeats the markers of its own region. */
  lemma SetKeepsOther(t: string, m: string, n: string, v: string)
    requires Plain(m) && Plain(n) && m != n && Disjoint(t, m, n) && Free(v, n)
    ensures SplitRegion(SetBody(t, m, v), n).Parts? && Body(SetBody(t, m, v), n) == Body(t, n)
  {
    hide Put, Occ, SplitRegion, SetBody, Plain, Begin, End, Laid, Free;
    var first, a, b, c, d, e := Lay(t, m, n);
    if first {
      LaidSplits(t, m, n, a, b, c, d, e);
      LaidKeepsSecond(t, m, n, a, b, c, d, e, v);
    } else {
      LaidSplits(t, n, m, a, b, c, d, e);
      LaidKeepsFirst(t, n, m, a, b, c, d, e, v);
    }
  }

  lemma LaidCommute(t: string, x: string, y: string, a: string, b: string, c: string, d: string,
                    e: string, v: string, w: string)
    requires Plain(x) && Plain(y) && x != y && Laid(t, x, y, a, b, c, d, e) && Free2(v, x, y) && Free2(w, x, y)
    ensures SetBody(SetBody(t, x, v), y, w) == SetBody(SetBody(t, y, w), x, v)
  {
    hide Put, Free, SetBody, Plain;
    LaidSet(t, x, y, a, b, c, d, e, v);
    LaidSet(t, x, y, a, b, c, d, e, w);
    LaidSet(SetBody(t, x, v), x, y, a, v, c, d, e, w);
    LaidSet(SetBody(t, y, w), x, y, a, b, c, w, e, v);
  }

  /** Replacements of disjoint bodies commute. */
  lemma SetsCommute(t: string, m: string, n: string, v: string, w: string)
    requires Plain(m) && Plain(n) && m != n && Disjoint(t, m, n) && Free2(v, m, n) && Free2(w, m, n)
    ensures SetBody(SetBody(t, m, v), n, w) == SetBody(SetBody(t, n, w), m, v)
  {
    hide Put, Free, Occ, SplitRegion, SetBody, Plain, Laid;
    var first, a, b, c, d, e := Lay(t, m, n);
    if first {
      LaidCommute(t, m, n, a, b, c, d, e, v, w);
    } else {
      LaidCommute(t, n, m, a, b, c, d, e, w, v);
    }
  }

  /** A replaced body is read back, the last replacement wins, and replacing a body by itself changes nothing. */
  lemma SetLaws(t: string, n: string, v: string, w: string)
    requires Plain(n) && SplitRegion(t, n).Parts? && Occ(v, End(n)) == 0
    ensures SplitRegion(SetBody(t, n, v), n).Parts? && Body(SetBody(t, n, v), n) == v
    ensures SetBody(SetBody(t, n, v), n, w) == SetBody(t, n, w)
    ensures SetBody(t, n, Body(t, n)) == t
  {
    SplitIsPut(t, n);
    var Parts(p, q, r) := SplitRegion(t, n);
    hide SplitRegion, Put, Occ;
    PutSplits(p, n, v, r);
  }

  /** Replacing a body without a marker by another such body keeps the occurrences of that marker. */
  lemma SetCounts(t: string, n: string, v: string, m: string)
    requires Plain(n) && Marker(m) && SplitRegion(t, n).Parts?
    ensures Occ(SetBody(t, n, v), m) == Occ(t, m) - Occ(Body(t, n), m) + Occ(v, m)
  {
    SplitIsPut(t, n);
    var Parts(p, q, r) := SplitRegion(t, n);
    hide SplitRegion, Put, Occ, Begin, End;
    PutOcc(p, n, q, r, m);
    PutOcc(p, n, v, r, m);
  }

  /** Replacing the body of a marked region keeps it marked when the new body holds none of its markers. */
  lemma SetMarked(t: string, n: string, v: string)
    requires Plain(n) && Marked(t, n) && Free(v, n)
    ensures Marked(SetBody(t, n, v), n)
  {
    MarkedParts(t, n);
    var Parts(p, q, r) := SplitRegion(t, n);
    hide SplitRegion, Put, Occ;
    PutMarked(p, n, v, r);
  }

  // ---------------------------------------------------------------- a table of regions

  ghost predicate Names(names: seq<string>) {
    && (forall n :: n in names ==> Plain(n))
    && (forall i, j :: 0 <= i < j < |names| ==> names[i] != names[j])
  }

  /** The table of regions, in the order in which they are rewritten, and the regions a check does not compare. */
  const REGIONS: seq<string> := [
    "pins", "pins-observed", "inventory", "per-module", "unharnessed-entry-points", "bounds", "stubs",
    "oracles", "non-vacuity", "disclosed-vacuities", "properties", "l4", "evidence", "evidence-coverage"
  ]

  const ADVISORY: set<string> := {"pins-observed", "evidence-coverage"}

  lemma RegionsAreNames()
    ensures Names(REGIONS)
  {
    var lengths := [4, 13, 9, 10, 24, 6, 5, 7, 11, 19, 10, 2, 8, 17];
    assert forall i :: 0 <= i < |REGIONS| ==> |REGIONS[i]| == lengths[i];
    assert REGIONS[3][1] == 'e' && REGIONS[10][1] == 'r';
    forall i, j | 0 <= i < j < |REGIONS| ensures REGIONS[i] != REGIONS[j] {
      assert lengths[i] != lengths[j] || (i == 3 && j == 10);
    }
    forall i | 0 <= i < |REGIONS| ensures Plain(REGIONS[i]) { RegionIsPlain(i); }
  }

  lemma RegionIsPlain(i: nat)
    requires i < |REGIONS|
    ensures Plain(REGIONS[i])
  {
    assert Plain("pins");
    assert Plain("pins-observed");
    assert Plain("inventory");
    assert Plain("per-module");
    assert Plain("unharnessed-entry-points");
    assert Plain("bounds");
    assert Plain("stubs");
    assert Plain("oracles");
    assert Plain("non-vacuity");
    assert Plain("disclosed-vacuities");
    assert Plain("properties");
    assert Plain("l4");
    assert Plain("evidence");
    assert Plain("evidence-coverage");
  }

  ghost predicate FreeOf(text: string, names: seq<string>) {
    forall n :: n in names ==> Free(text, n)
  }

  /** Every region of the table is either absent, or marked with a body that holds no marker of the table. */
  ghost predicate WellMarked(t: string, names: seq<string>) {
    forall n :: n in names ==> Absent(t, n) || (Marked(t, n) && FreeOf(Body(t, n), names))
  }

  lemma WellMarkedDisjoint(t: string, names: seq<string>, m: string, n: string)
    requires WellMarked(t, names) && m in names && n in names && Marked(t, m) && Marked(t, n)
    ensures Disjoint(t, m, n)
  {
    hide SplitRegion, Occ;
  }

  /** What replacing the body of n does to region k. */
  lemma SetOther(t: string, names: seq<string>, n: string, v: string, k: string)
    requires Names(names) && WellMarked(t, names) && n in names && Marked(t, n) && FreeOf(v, names) && k in names
    ensures Absent(t, k) ==> Absent(SetBody(t, n, v), k)
    ensures Marked(t, k) ==>
      Marked(SetBody(t, n, v), k) && Body(SetBody(t, n, v), k) == if k == n then v else Body(t, k)
  {
    hide SplitRegion, Occ, SetBody, Put, Begin, End, Plain;
    if k == n {
      SetMarked(t, n, v);
      SetLaws(t, n, v, v);
    } else if Marked(t, k) {
      WellMarkedDisjoint(t, names, n, k);
      SetFrames(t, n, k, v);
    } else {
      MarkersAreMarkers(k);
      SetCounts(t, n, v, Begin(k));
      SetCounts(t, n, v, End(k));
    }
  }

  /** Replacing a body keeps the table well marked. */
  lemma SetKeeps(t: string, names: seq<string>, n: string, v: string)
    requires Names(names) && WellMarked(t, names) && n in names && Marked(t, n) && FreeOf(v, names)
    ensures WellMarked(SetBody(t, n, v), names)
    ensures forall k :: k in names ==> (Absent(t, k) <==> Absent(SetBody(t, n, v), k))
    ensures forall k :: k in names && Marked(t, k) ==>
      Marked(SetBody(t, n, v), k) && Body(SetBody(t, n, v), k) == if k == n then v else Body(t, k)
  {
    hide SplitRegion, Occ, SetBody, Names, FreeOf;
    forall k | k in names
      ensures Absent(t, k) <==> Absent(SetBody(t, n, v), k)
      ensures Marked(t, k) ==>
        Marked(SetBody(t, n, v), k) && Body(SetBody(t, n, v), k) == if k == n then v else Body(t, k)
    {
      SetOther(t, names, n, v, k);
    }
  }

  // ---------------------------------------------------------------- rewriting

  datatype Rewritten = Rewritten(text: string, missing: seq<string>) | ValueError

  /** The body a region is given: its rendering between two newlines. */
  function Generated(render: string -> string, name: string): string {
    "\n" + render(name) + "\n"
  }

  function RewriteStep(state: Rewritten, name: string, render: string -> string): Rewritten {
    match state
    case ValueError => ValueError
    case Rewritten(text, missing) =>
      match SplitRegion(text, name)
      case Unmarked => Rewritten(text, missing + [name])
      case Misordered => ValueError
      case Parts(prefix, _, suffix) => Rewritten(Put(prefix, name, Generated(render, name), suffix), missing)
  }

  /** The first k regions of the table rewritten in turn. */
  function RewriteTo(text: string, names: seq<string>, k: nat, render: string -> string): Rewritten
    requires k <= |names|
  {
    if k == 0 then Rewritten(text, []) else RewriteStep(RewriteTo(text, names, k - 1, render), names[k - 1], render)
  }

  method Rewrite(original: string, names: seq<string>, render: string -> string) returns (r: Rewritten)
    ensures r == RewriteTo(original, names, |names|, render)
  {
    hide SplitRegion, Put, Generated;
    var text, missing := original, [];
    for k := 0 to |names|
      invariant Rewritten(text, missing) == RewriteTo(original, names, k, render)
    {
      var name := names[k];
      var parts := SplitRegion(text, name);
      match parts {
        case Unmarked => missing := missing + [name];
        case Misordered => FailureStays(original, names, k + 1, |names|, render); return ValueError;
        case Parts(prefix, _, suffix) => text := Put(prefix, name, Generated(render, name), suffix);
      }
    }
    r := Rewritten(text, missing);
  }

  lemma {:induction false} FailureStays(text: string, names: seq<string>, j: nat, k: nat, render: string -> string)
    requires j <= k <= |names| && RewriteTo(text, names, j, render).ValueError?
    ensures RewriteTo(text, names, k, render).ValueError?
  {
    hide SplitRegion, Put, Generated;
    if j < k { FailureStays(text, names, j, k - 1, render); }
  }

  /** The regions among the first k whose markers are not both there. */
  function Missing(text: string, names: seq<string>, k: nat): seq<string>
    requires k <= |names|
  {
    if k == 0 then []
    else Missing(text, names, k - 1) + if SplitRegion(text, names[k - 1]).Unmarked? then [names[k - 1]] else []
  }

  lemma {:induction false} MissingExactly(t: string, names: seq<string>, k: nat, n: string)
    requires k <= |names|
    ensures n in Missing(t, names, k) <==> n in names[..k] && (Occ(t, Begin(n)) == 0 || Occ(t, End(n)) == 0)
  {
    hide SplitRegion, Occ;
    if k > 0 {
      MissingExactly(t, names, k - 1, n);
      AbsentSplits(t, names[k - 1]);
      assert names[..k] == names[..k - 1] + [names[k - 1]];
    }
  }

  lemma {:induction false} SameMissing(t: string, u: string, names: seq<string>, k: nat)
    requires k <= |names| && forall n :: n in names ==> (Absent(t, n) <==> Absent(u, n))
    ensures Missing(t, names, k) == Missing(u, names, k)
  {
    hide SplitRegion, Absent;
    if k > 0 {
      SameMissing(t, u, names, k - 1);
      AbsentSplits(t, names[k - 1]);
      AbsentSplits(u, names[k - 1]);
    }
  }

  ghost predicate RendersFree(render: string -> string, names: seq<string>) {
    forall n :: n in names ==> FreeOf(Generated(render, n), names)
  }

  /** Region k after the first j regions are rewritten. */
  ghost predicate RewrittenRegion(t: string, u: string, names: seq<string>, j: nat, render: string -> string, k: string)
    requires j <= |names|
  {
    && (Absent(t, k) <==> Absent(u, k))
    && (Marked(t, k) ==>
          Marked(u, k) && Body(u, k) == if k in names[..j] then Generated(render, k) else Body(t, k))
  }

  /** On a well marked text, rewriting succeeds, reports the absent regions, and sets every other body. */
  lemma {:induction false} RewriteSets(t: string, names: seq<string>, k: nat, render: string -> string)
    requires Names(names) && WellMarked(t, names) && RendersFree(render, names) && k <= |names|
    ensures RewriteTo(t, names, k, render).Rewritten?
    ensures WellMarked(RewriteTo(t, names, k, render).text, names)
    ensures forall n :: n in names ==> RewrittenRegion(t, RewriteTo(t, names, k, render).text, names, k, render, n)
    ensures RewriteTo(t, names, k, render).missing == Missing(t, names, k)
  {
    hide Occ, Names, FreeOf, SplitRegion, Generated;
    if k > 0 {
      RewriteSets(t, names, k - 1, render);
      var u := RewriteTo(t, names, k - 1, render).text;
      var name := names[k - 1];
      assert name in names;
      assert names[..k] == names[..k - 1] + [name];
      AbsentSplits(u, name);
      AbsentSplits(t, name);
      assert RewrittenRegion(t, u, names, k - 1, render, name);
      if Marked(u, name) {
        SetKeeps(u, names, name, Generated(render, name));
      }
    }
  }

  /** A text lacking either marker is reported unmarked. */
  lemma AbsentSplits(t: string, n: string)
    ensures SplitRegion(t, n).Unmarked? <==> Absent(t, n)
  {
    hide Occ, Find;
    FindSplits(t, Begin(n));
    FindSplits(t, End(n));
  }

  /** When the first k bodies are already the generated ones, rewriting them changes nothing. */
  lemma {:induction false} RewriteFixed(t: string, names: seq<string>, k: nat, render: string -> string)
    requires Names(names) && WellMarked(t, names) && k <= |names|
    requires forall n :: n in names[..k] && Marked(t, n) ==> Body(t, n) == Generated(render, n)
    ensures RewriteTo(t, names, k, render).Rewritten? && RewriteTo(t, names, k, render).text == t
  {
    hide Occ, FreeOf, Generated, Put, Plain;
    if k > 0 {
      var name := names[k - 1];
      assert names[..k] == names[..k - 1] + [name];
      RewriteFixed(t, names, k - 1, render);
      AbsentSplits(t, name);
      if Marked(t, name) { SplitIsPut(t, name); }
    }
  }

  /** Rewriting a rewritten text gives the same text and misses the same regions. */
  lemma RewriteIdempotent(t: string, names: seq<string>, render: string -> string)
    requires Names(names) && WellMarked(t, names) && RendersFree(render, names)
    ensures var once := RewriteTo(t, names, |names|, render);
      once.Rewritten? && RewriteTo(once.text, names, |names|, render) == once
  {
    hide Occ, Names, FreeOf, SplitRegion, Generated, RewriteTo, RendersFree, Absent, Missing;
    RewriteSets(t, names, |names|, render);
    var u := RewriteTo(t, names, |names|, render).text;
    assert names[..|names|] == names;
    forall n | n in names ensures Marked(u, n) ==> Body(u, n) == Generated(render, n) {
      RewrittenBody(t, names, render, n);
    }
    RewriteFixed(u, names, |names|, render);
    RewriteSets(u, names, |names|, render);
    SameMissing(t, u, names, |names|);
  }

  /** After rewriting, a region is marked when it was, and its body is the generated one. */
  lemma RewrittenBody(t: string, names: seq<string>, render: string -> string, n: string)
    requires Names(names) && WellMarked(t, names) && RendersFree(render, names) && n in names
    ensures var r := RewriteTo(t, names, |names|, render);
      r.Rewritten? && (Absent(t, n) <==> Absent(r.text, n)) && (Marked(t, n) <==> Marked(r.text, n))
      && (Marked(r.text, n) ==> Body(r.text, n) == Generated(render, n))
  {
    hide Occ, Names, FreeOf, SplitRegion, Generated, RewriteTo, RendersFree, Missing;
    RewriteSets(t, names, |names|, render);
    assert names[..|names|] == names;
    assert RewrittenRegion(t, RewriteTo(t, names, |names|, render).text, names, |names|, render, n);
  }

  /** The text with the bodies of the first k regions emptied. */
  function Emptied(t: string, names: seq<string>, k: nat): string
    requires k <= |names|
  {
    if k == 0 then t else SetBody(Emptied(t, names, k - 1), names[k - 1], "")
  }

  lemma EmptyIsFree(names: seq<string>)
    ensures FreeOf("", names)
  {
  }

  lemma {:induction false} EmptiedKeeps(t: string, names: seq<string>, k: nat)
    requires Names(names) && WellMarked(t, names) && k <= |names|
    ensures WellMarked(Emptied(t, names, k), names)
    ensures forall n :: n in names ==> (Absent(t, n) <==> Absent(Emptied(t, names, k), n))
    ensures forall n :: n in names && Marked(t, n) ==> Marked(Emptied(t, names, k), n)
  {
    hide Occ, Names, FreeOf, SplitRegion, SetBody;
    if k > 0 {
      var u := Emptied(t, names, k - 1);
      EmptiedKeeps(t, names, k - 1);
      assert names[k - 1] in names;
      if Marked(u, names[k - 1]) {
        EmptyIsFree(names);
        SetKeeps(u, names, names[k - 1], "");
      } else {
        AbsentUnchanged(u, names[k - 1], "");
      }
    }
  }

  lemma AbsentUnchanged(t: string, n: string, v: string)
    requires Absent(t, n)
    ensures SetBody(t, n, v) == t
  {
    AbsentSplits(t, n);
    hide SplitRegion, Occ;
  }

  /** Emptying region m of a text in which the body of n was replaced. */
  lemma EmptyAfterSet(u: string, names: seq<string>, m: string, n: string, v: string)
    requires Names(names) && WellMarked(u, names) && m in names && n in names && Marked(u, n) && FreeOf(v, names)
    ensures SetBody(SetBody(u, n, v), m, "")
      == if m == n then SetBody(u, n, "") else SetBody(SetBody(u, m, ""), n, v)
  {
    hide Occ, SplitRegion, SetBody, Absent, Plain;
    EmptyIsFree(names);
    if m == n {
      SetLaws(u, n, v, "");
    } else if Marked(u, m) {
      WellMarkedDisjoint(u, names, m, n);
      SetsCommute(u, m, n, "", v);
    } else {
      SetOther(u, names, n, v, m);
      AbsentUnchanged(u, m, "");
      AbsentUnchanged(SetBody(u, n, v), m, "");
    }
  }

  /** The emptied text forgets the body of an emptied region, and carries along the body of any other. */
  lemma {:induction false} EmptiedForgets(t: string, names: seq<string>, n: string, v: string, k: nat)
    requires Names(names) && WellMarked(t, names) && n in names && Marked(t, n) && FreeOf(v, names) && k <= |names|
    ensures Emptied(SetBody(t, n, v), names, k)
      == if n in names[..k] then Emptied(t, names, k) else SetBody(Emptied(t, names, k), n, v)
  {
    hide Occ, FreeOf, SplitRegion, SetBody, WellMarked, Marked, Plain;
    if k > 0 {
      var m := names[k - 1];
      assert names[..k] == names[..k - 1] + [m];
      EmptiedForgets(t, names, n, v, k - 1);
      EmptiedKeeps(t, names, k - 1);
      if n !in names[..k - 1] {
        EmptyAfterSet(Emptied(t, names, k - 1), names, m, n, v);
      }
    }
  }

  /** Rewriting changes nothing outside the bodies of the table's regions. */
  lemma {:induction false} RewriteKeepsOutside(t: string, names: seq<string>, k: nat, render: string -> string)
    requires Names(names) && WellMarked(t, names) && RendersFree(render, names) && k <= |names|
    ensures RewriteTo(t, names, k, render).Rewritten?
    ensures Emptied(RewriteTo(t, names, k, render).text, names, |names|) == Emptied(t, names, |names|)
  {
    hide Occ, FreeOf, SplitRegion, Emptied, Generated, WellMarked, Plain, Put;
    RewriteSets(t, names, k, render);
    if k > 0 {
      RewriteKeepsOutside(t, names, k - 1, render);
      RewriteSets(t, names, k - 1, render);
      var u := RewriteTo(t, names, k - 1, render).text;
      var name := names[k - 1];
      assert names[..|names|] == names;
      if SplitRegion(u, name).Parts? {
        PresentIsMarked(u, names, name);
        EmptiedForgets(u, names, name, Generated(render, name), |names|);
      }
    }
  }

  lemma PresentIsMarked(t: string, names: seq<string>, n: string)
    requires WellMarked(t, names) && n in names && SplitRegion(t, n).Parts?
    ensures Marked(t, n)
  {
    AbsentSplits(t, n);
    hide SplitRegion, Occ;
  }

  // ---------------------------------------------------------------- the differences a check reports

  /** The lines of a text, split at every line break. */
  function Lines(s: string): (lines: seq<string>)
    ensures |lines| > 0
  {
    if s == "" then [""]
    else
      var rest := Lines(s[1..]);
      if s[0] == '\n' then [""] + rest else [[s[0]] + rest[0]] + rest[1..]
  }

  function Unlines(lines: seq<string>): string
    requires |lines| > 0
  {
    if |lines| == 1 then lines[0] else lines[0] + "\n" + Unlines(lines[1..])
  }

  /** Splitting keeps every character, so different texts have different lines. */
  lemma {:induction false} UnlinesLines(s: string)
    ensures Unlines(Lines(s)) == s
  {
    if s != "" {
      UnlinesLines(s[1..]);
      var rest := Lines(s[1..]);
      if s[0] == '\n' {
        assert ([""] + rest)[1..] == rest;
      } else {
        var lines := [[s[0]] + rest[0]] + rest[1..];
        assert lines[1..] == rest[1..];
        assert Unlines(lines) == [s[0]] + Unlines(rest);
      }
    }
  }

  /** No line holds a break; with the law above that makes them the lines. */
  lemma {:induction false} LinesHaveNoBreaks(s: string, line: string)
    requires line in Lines(s)
    ensures '\n' !in line
  {
    if s != "" {
      var rest := Lines(s[1..]);
      if line in rest {
        LinesHaveNoBreaks(s[1..], line);
      } else if s[0] != '\n' {
        LinesHaveNoBreaks(s[1..], rest[0]);
      }
    }
  }

  lemma {:induction false} LinesEnd(s: string)
    ensures Lines(s + "\n") == Lines(s) + [""]
  {
    if s == "" {
      assert (s + "\n")[1..] == "";
    } else {
      assert (s + "\n")[1..] == s[1..] + "\n";
      LinesEnd(s[1..]);
    }
  }

  /** The lines of a text between two breaks: an empty one, its own, and an empty one. */
  lemma BracketedLines(s: string)
    ensures Lines("\n" + s + "\n") == [""] + Lines(s) + [""]
  {
    assert ("\n" + s + "\n")[1..] == s + "\n";
    LinesEnd(s);
  }

  /** The text of a region: the rendering on lines of its own between the markers. */
  ghost predicate Shows(t: string, n: string, rendering: string) {
    exists prefix, suffix :: t == prefix + Begin(n) + "\n" + rendering + "\n" + End(n) + suffix
                             && Occ(prefix, Begin(n)) == 0
  }

  lemma BodyShows(t: string, n: string, rendering: string)
    requires Marked(t, n) && Body(t, n) == "\n" + rendering + "\n"
    ensures Shows(t, n, rendering) && Lines(Body(t, n)) == [""] + Lines(rendering) + [""]
  {
    BracketedLines(rendering);
    SplitIsPut(t, n);
    hide SplitRegion, Occ, Begin, End, Lines;
    var Parts(prefix, body, suffix) := SplitRegion(t, n);
    PutText(prefix, n, "\n", rendering, "\n", suffix);
  }

  lemma PutText(prefix: string, n: string, a: string, b: string, c: string, suffix: string)
    ensures Put(prefix, n, a + b + c, suffix) == prefix + Begin(n) + a + b + c + End(n) + suffix
  {
    hide Begin, End;
    assert prefix + Begin(n) + (a + b + c) == prefix + Begin(n) + a + b + c;
  }

  /** What rewriting leaves between the markers of every region that has them. */
  lemma RewrittenText(t: string, names: seq<string>, render: string -> string, n: string)
    requires Names(names) && WellMarked(t, names) && RendersFree(render, names) && n in names && !Absent(t, n)
    ensures RewriteTo(t, names, |names|, render).Rewritten?
    ensures var u := RewriteTo(t, names, |names|, render).text;
      && Marked(u, n) && Body(u, n) == "\n" + render(n) + "\n"
      && Shows(u, n, render(n)) && Lines(Body(u, n)) == [""] + Lines(render(n)) + [""]
  {
    hide Names, FreeOf, RendersFree, Occ, RewriteTo, SplitRegion, Shows, Lines;
    RewrittenBody(t, names, render, n);
    BodyShows(RewriteTo(t, names, |names|, render).text, n, render(n));
  }

  /** A text whose regions already show their renderings so is left as it is. */
  lemma CurrentTextKept(t: string, names: seq<string>, render: string -> string)
    requires Names(names) && WellMarked(t, names)
    requires forall n :: n in names && Marked(t, n) ==> Lines(Body(t, n)) == [""] + Lines(render(n)) + [""]
    ensures RewriteTo(t, names, |names|, render).Rewritten? && RewriteTo(t, names, |names|, render).text == t
  {
    hide Names, FreeOf, Occ, RewriteTo, SplitRegion, Lines;
    forall n | n in names && Marked(t, n) ensures Body(t, n) == Generated(render, n) {
      SameLines(Body(t, n), render(n));
    }
    assert names[..|names|] == names;
    RewriteFixed(t, names, |names|, render);
  }

  /** A body whose lines are those is that text. */
  lemma SameLines(body: string, rendering: string)
    ensures Lines(body) == [""] + Lines(rendering) + [""] <==> body == "\n" + rendering + "\n"
  {
    BracketedLines(rendering);
    UnlinesLines(body);
    UnlinesLines("\n" + rendering + "\n");
    hide Lines, Unlines;
  }

  datatype Diff = Diff(name: string, committed: seq<string>, generated: seq<string>)

  datatype Diffs = Diffs(found: seq<Diff>) | DiffsValueError

  function DiffStep(state: Diffs, text: string, name: string, advisory: set<string>, render: string -> string): Diffs {
    match state
    case DiffsValueError => DiffsValueError
    case Diffs(found) =>
      if name in advisory then state
      else
        match SplitRegion(text, name)
        case Unmarked => state
        case Misordered => DiffsValueError
        case Parts(_, body, _) =>
          var generated := Generated(render, name);
          if body != generated then Diffs(found + [Diff(name, Lines(body), Lines(generated))]) else state
  }

  function DiffsTo(text: string, names: seq<string>, k: nat, advisory: set<string>, render: string -> string): Diffs
    requires k <= |names|
  {
    if k == 0 then Diffs([])
    else DiffStep(DiffsTo(text, names, k - 1, advisory, render), text, names[k - 1], advisory, render)
  }

  method RegionDiffs(text: string, names: seq<string>, advisory: set<string>, render: string -> string)
    returns (r: Diffs)
    ensures r == DiffsTo(text, names, |names|, advisory, render)
  {
    hide SplitRegion, Generated;
    var out := [];
    for k := 0 to |names|
      invariant Diffs(out) == DiffsTo(text, names, k, advisory, render)
    {
      var name := names[k];
      if name in advisory { continue; }
      var parts := SplitRegion(text, name);
      match parts {
        case Unmarked =>
        case Misordered => DiffFailureStays(text, names, k + 1, |names|, advisory, render); return DiffsValueError;
        case Parts(_, committed, _) =>
          var generated := Generated(render, name);
          if committed != generated { out := out + [Diff(name, Lines(committed), Lines(generated))]; }
      }
    }
    r := Diffs(out);
  }

  lemma {:induction false} DiffFailureStays(text: string, names: seq<string>, j: nat, k: nat, advisory: set<string>,
                                            render: string -> string)
    requires j <= k <= |names| && DiffsTo(text, names, j, advisory, render).DiffsValueError?
    ensures DiffsTo(text, names, k, advisory, render).DiffsValueError?
  {
    hide SplitRegion, Generated;
    if j < k { DiffFailureStays(text, names, j, k - 1, advisory, render); }
  }

  /** On a well marked text the reported regions are the enforced ones whose body is not the generated one. */
  lemma {:induction false} DiffsExact(t: string, names: seq<string>, k: nat, advisory: set<string>,
                                      render: string -> string)
    requires WellMarked(t, names) && k <= |names|
    ensures DiffsTo(t, names, k, advisory, render).Diffs?
    ensures forall d :: d in DiffsTo(t, names, k, advisory, render).found <==>
      && d.name in names[..k] && d.name !in advisory && Marked(t, d.name)
      && Body(t, d.name) != Generated(render, d.name)
      && d.committed == Lines(Body(t, d.name)) && d.generated == Lines(Generated(render, d.name))
  {
    hide Occ, FreeOf, Generated, Lines;
    if k > 0 {
      var name := names[k - 1];
      assert names[..k] == names[..k - 1] + [name];
      DiffsExact(t, names, k - 1, advisory, render);
      AbsentSplits(t, name);
      hide SplitRegion;
    }
  }

  /** An enforced region is reported exactly when its lines are not its rendering's between two empty ones. */
  lemma DiffsExactly(t: string, names: seq<string>, advisory: set<string>, render: string -> string, d: Diff)
    requires WellMarked(t, names)
    ensures DiffsTo(t, names, |names|, advisory, render).Diffs?
    ensures d in DiffsTo(t, names, |names|, advisory, render).found <==>
      && d.name in names && d.name !in advisory && Marked(t, d.name)
      && d.committed == Lines(Body(t, d.name)) && d.generated == [""] + Lines(render(d.name)) + [""]
      && d.committed != d.generated
  {
    hide Lines, SplitRegion, FreeOf, Occ, DiffsTo;
    DiffsExact(t, names, |names|, advisory, render);
    assert names[..|names|] == names;
    BracketedLines(render(d.name));
    if Marked(t, d.name) { SameLines(Body(t, d.name), render(d.name)); }
  }

  /** The reports stand in the order of the table, one to a region. */
  ghost predicate InOrder(found: seq<Diff>, names: seq<string>) {
    forall i, j :: 0 <= i < j < |found| ==> Precedes(names, found[i].name, found[j].name)
  }

  /** m stands before n in the table. */
  ghost predicate Precedes(names: seq<string>, m: string, n: string) {
    forall a, b :: 0 <= a < |names| && 0 <= b < |names| && names[a] == m && names[b] == n ==> a < b
  }

  lemma {:induction false} DiffsInOrder(t: string, names: seq<string>, k: nat, advisory: set<string>,
                                        render: string -> string)
    requires Names(names) && WellMarked(t, names) && k <= |names|
    ensures DiffsTo(t, names, k, advisory, render).Diffs?
    ensures InOrder(DiffsTo(t, names, k, advisory, render).found, names)
  {
    hide Lines, SplitRegion, WellMarked, Generated, Names, Precedes;
    DiffsExact(t, names, k, advisory, render);
    if k > 0 {
      DiffsInOrder(t, names, k - 1, advisory, render);
      DiffsExact(t, names, k - 1, advisory, render);
      var was, found := DiffsTo(t, names, k - 1, advisory, render).found, DiffsTo(t, names, k, advisory, render).found;
      assert found == was || (|found| == |was| + 1 && found[..|was|] == was && found[|was|].name == names[k - 1]);
      forall i | 0 <= i < |was| ensures Precedes(names, was[i].name, names[k - 1]) {
        assert was[i] in was;
        EarlierPrecedes(names, k - 1, was[i].name);
      }
      forall i | 0 <= i < |was| ensures found[i] == was[i] {}
    }
  }

  lemma EarlierPrecedes(names: seq<string>, k: nat, m: string)
    requires Names(names) && k < |names| && m in names[..k]
    ensures Precedes(names, m, names[k])
  {
  }

  /** Rewriting leaves nothing to report. */
  lemma RewriteLeavesNoDiffs(t: string, names: seq<string>, advisory: set<string>,
                             render: string -> string)
    requires Names(names) && WellMarked(t, names) && RendersFree(render, names)
    ensures var r := RewriteTo(t, names, |names|, render);
      r.Rewritten? && DiffsTo(r.text, names, |names|, advisory, render) == Diffs([])
  {
    hide Occ, Names, FreeOf, SplitRegion, Generated, RewriteTo, RendersFree, Absent, Missing, DiffsTo;
    RewriteSets(t, names, |names|, render);
    var u := RewriteTo(t, names, |names|, render).text;
    DiffsExact(u, names, |names|, advisory, render);
    assert names[..|names|] == names;
    var found := DiffsTo(u, names, |names|, advisory, render).found;
    if found != [] {
      var d := found[0];
      assert d in found;
      RewrittenBody(t, names, render, d.name);
    }
  }

  /** A reported region is reported with a visible difference. */
  lemma DiffsShow(t: string, names: seq<string>, advisory: set<string>, render: string -> string, d: Diff)
    requires WellMarked(t, names) && DiffsTo(t, names, |names|, advisory, render).Diffs?
    requires d in DiffsTo(t, names, |names|, advisory, render).found
    ensures d.committed != d.generated
  {
    hide Lines, Unlines, Generated, SplitRegion, FreeOf, Occ, DiffsTo;
    DiffsExact(t, names, |names|, advisory, render);
    UnlinesLines(Body(t, d.name));
    UnlinesLines(Generated(render, d.name));
  }

  /** The regions that a check compares. */
  function Enforced(names: seq<string>, advisory: set<string>): seq<string> {
    if names == [] then []
    else (if names[0] in advisory then [] else [names[0]]) + Enforced(names[1..], advisory)
  }

  lemma {:induction false} EnforcedMembers(names: seq<string>, advisory: set<string>)
    requires Names(names)
    ensures Names(Enforced(names, advisory))
    ensures forall n :: n in Enforced(names, advisory) <==> n in names && n !in advisory
  {
    hide Plain;
    if names != [] {
      EnforcedMembers(names[1..], advisory);
      assert names == [names[0]] + names[1..];
      assert names[0] !in names[1..];
    }
  }

  /** Nothing differs exactly when rewriting the enforced regions alone would change nothing. */
  lemma NoDiffsWhenCurrent(t: string, names: seq<string>, advisory: set<string>, render: string -> string)
    requires Names(names) && WellMarked(t, names) && RendersFree(render, names)
    ensures var enforced := Enforced(names, advisory);
      DiffsTo(t, names, |names|, advisory, render) == Diffs([])
      <==> RewriteTo(t, enforced, |enforced|, render).Rewritten?
           && RewriteTo(t, enforced, |enforced|, render).text == t
  {
    hide Occ, FreeOf, SplitRegion, Generated, RewriteTo, Absent, Missing, DiffsTo, Plain, Enforced, Lines;
    var enforced := Enforced(names, advisory);
    EnforcedMembers(names, advisory);
    DiffsExact(t, names, |names|, advisory, render);
    assert names[..|names|] == names && enforced[..|enforced|] == enforced;
    var found := DiffsTo(t, names, |names|, advisory, render).found;
    assert WellMarked(t, enforced) && RendersFree(render, enforced) by { SubTable(t, names, enforced, render); }
    if found == [] {
      forall n | n in enforced && Marked(t, n) ensures Body(t, n) == Generated(render, n) {
        assert Diff(n, Lines(Body(t, n)), Lines(Generated(render, n))) !in found;
      }
      RewriteFixed(t, enforced, |enforced|, render);
    } else {
      var d := found[0];
      assert d in found;
      RewrittenBody(t, enforced, render, d.name);
    }
  }

  lemma {:induction false} NoneMissing(t: string, names: seq<string>, k: nat)
    requires k <= |names|
    ensures Missing(t, names, k) == [] <==> forall n :: n in names[..k] ==> !Absent(t, n)
  {
    hide SplitRegion, Absent;
    if k > 0 {
      NoneMissing(t, names, k - 1);
      AbsentSplits(t, names[k - 1]);
      assert names[..k] == names[..k - 1] + [names[k - 1]];
    }
  }

  /**
    The check passes, with no region missing and none differing, exactly when every region is marked and
    regenerating would change advisory bodies at most: rewriting the enforced regions is then the identity.
   */
  lemma CheckPassesWhenCurrent(t: string, names: seq<string>, advisory: set<string>, render: string -> string)
    requires Names(names) && WellMarked(t, names) && RendersFree(render, names)
    ensures var r, enforced := RewriteTo(t, names, |names|, render), Enforced(names, advisory);
      && r.Rewritten?
      && (r.missing == [] && DiffsTo(t, names, |names|, advisory, render) == Diffs([])
          <==> (forall n :: n in names ==> Marked(t, n))
               && RewriteTo(t, enforced, |enforced|, render) == Rewritten(t, []))
  {
    hide Occ, FreeOf, SplitRegion, Generated, RewriteTo, Missing, DiffsTo, Plain, Enforced;
    var enforced := Enforced(names, advisory);
    EnforcedMembers(names, advisory);
    RewriteSets(t, names, |names|, render);
    NoDiffsWhenCurrent(t, names, advisory, render);
    SubTable(t, names, enforced, render);
    RewriteSets(t, enforced, |enforced|, render);
    NoneMissing(t, names, |names|);
    NoneMissing(t, enforced, |enforced|);
    assert names[..|names|] == names && enforced[..|enforced|] == enforced;
    forall n | n in names ensures Absent(t, n) <==> !Marked(t, n) {}
  }

  lemma SubTable(t: string, names: seq<string>, some: seq<string>, render: string -> string)
    requires WellMarked(t, names) && RendersFree(render, names) && forall n :: n in some ==> n in names
    ensures WellMarked(t, some) && RendersFree(render, some)
  {
    hide Occ, SplitRegion, Generated;
  }

  // ---------------------------------------------------------------- the manifest

  /** The manifest's own table: writing it settles it, and its check passes exactly when writing would. */
  lemma ManifestSettles(t: string, render: string -> string)
    requires WellMarked(t, REGIONS) && RendersFree(render, REGIONS)
    ensures var once := RewriteTo(t, REGIONS, |REGIONS|, render);
      && once.Rewritten? && RewriteTo(once.text, REGIONS, |REGIONS|, render) == once
      && DiffsTo(once.text, REGIONS, |REGIONS|, ADVISORY, render) == Diffs([])
      && Emptied(once.text, REGIONS, |REGIONS|) == Emptied(t, REGIONS, |REGIONS|)
    ensures var r, enforced := RewriteTo(t, REGIONS, |REGIONS|, render), Enforced(REGIONS, ADVISORY);
      r.missing == [] && DiffsTo(t, REGIONS, |REGIONS|, ADVISORY, render) == Diffs([])
      <==> (forall n :: n in REGIONS ==> Marked(t, n))
           && RewriteTo(t, enforced, |enforced|, render) == Rewritten(t, [])
  {
    RegionsAreNames();
    hide *;
    RewriteIdempotent(t, REGIONS, render);
    RewriteLeavesNoDiffs(t, REGIONS, ADVISORY, render);
    RewriteKeepsOutside(t, REGIONS, |REGIONS|, render);
    CheckPassesWhenCurrent(t, REGIONS, ADVISORY, render);
  }
}
