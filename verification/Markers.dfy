/**
  Searching text for region markers. A marker begins with '<' and ends with '>' and holds neither in between, so
  two occurrences never overlap and none straddles the place where one is inserted.
 */
module Markers {
  import opened Bytes

  ghost predicate Marker(m: string) {
    && |m| >= 2 && m[0] == '<' && m[|m| - 1] == '>'
    && (forall i :: 0 < i < |m| ==> m[i] != '<')
    && (forall i :: 0 <= i < |m| - 1 ==> m[i] != '>')
  }

  /** The first position of m in t. */
  function Find(t: string, m: string): Option<nat>
    decreases |t|
  {
    if m <= t then Some(0)
    else if t == "" then None
    else
      match Find(t[1..], m)
      case None => None
      case Some(i) => Some(i + 1)
  }

  /** How many occurrences a left-to-right scan that never looks back finds. */
  function Count(t: string, m: string): nat
    requires |m| > 0
    decreases |t|
  {
    if t == "" then 0
    else if m <= t then 1 + Count(t[|m|..], m)
    else Count(t[1..], m)
  }

  /** At how many positions of t an occurrence of m starts. */
  ghost function Occ(t: string, m: string): nat
    decreases |t|
  {
    if t == "" then 0 else (if m <= t then 1 else 0) + Occ(t[1..], m)
  }

  /** The text may be cut between u and v without cutting a marker. */
  ghost predicate Seam(u: string, v: string) {
    u == "" || v == "" || u[|u| - 1] == '>' || v[0] == '<'
  }

  lemma {:induction false} OccAppend(u: string, v: string, m: string)
    requires Marker(m) && Seam(u, v)
    ensures Occ(u + v, m) == Occ(u, m) + Occ(v, m)
    decreases |u|
  {
    if u == "" {
      assert u + v == v;
    } else {
      assert (u + v)[1..] == u[1..] + v;
      OccAppend(u[1..], v, m);
      assert (u + v)[|u| - 1] == u[|u| - 1] && (v != "" ==> (u + v)[|u|] == v[0]);
      assert forall k :: 0 <= k < |u| ==> (u + v)[k] == u[k];
      assert m <= u + v <==> m <= u;
    }
  }

  /** A marker holds one marker: itself. */
  lemma OccMarker(t: string, m: string)
    requires Marker(t) && Marker(m)
    ensures Occ(t, m) == if t == m then 1 else 0
  {
    OccNoStart(t[1..], m);
    if m <= t { assert m[|m| - 1] == t[|m| - 1]; }
  }

  lemma {:induction false} OccNoStart(t: string, m: string)
    requires Marker(m) && forall i :: 0 <= i < |t| ==> t[i] != '<'
    ensures Occ(t, m) == 0
    decreases |t|
  {
    if t != "" {
      OccNoStart(t[1..], m);
      assert t[0] != m[0];
    }
  }

  /** The scanning count is the number of positions. */
  lemma {:induction false} CountIsOcc(t: string, m: string)
    requires Marker(m)
    ensures Count(t, m) == Occ(t, m)
    decreases |t|
  {
    if t != "" {
      if m <= t {
        assert t == m + t[|m|..];
        CountIsOcc(t[|m|..], m);
        OccAppend(m, t[|m|..], m);
        OccMarker(m, m);
      } else {
        CountIsOcc(t[1..], m);
      }
    }
  }

  lemma {:induction false} FindNone(t: string, m: string)
    requires |m| > 0
    ensures Find(t, m).None? <==> Occ(t, m) == 0
    decreases |t|
  {
    if t != "" { FindNone(t[1..], m); }
  }

  lemma {:induction false} FindAt(t: string, m: string)
    requires |m| > 0 && Find(t, m).Some?
    ensures Find(t, m).value <= |t| && m <= t[Find(t, m).value..]
    decreases |t|
  {
    if m <= t {
      assert t[0..] == t;
    } else {
      FindAt(t[1..], m);
      assert t[1..][Find(t[1..], m).value..] == t[Find(t, m).value..];
    }
  }

  lemma {:induction false} FindFirst(t: string, m: string)
    requires |m| > 0 && Find(t, m).Some? && Find(t, m).value <= |t|
    ensures Occ(t[..Find(t, m).value], m) == 0
    decreases |t|
  {
    if !(m <= t) {
      FindFirst(t[1..], m);
      var i := Find(t, m).value;
      assert t[..i][1..] == t[1..][..i - 1];
      assert !(m <= t[..i]) by { assert t[..i] <= t; }
    }
  }

  /** The first position splits t around an occurrence with none before it. */
  lemma {:induction false} FindSplits(t: string, m: string)
    requires |m| > 0
    ensures Find(t, m).None? <==> Occ(t, m) == 0
    ensures Find(t, m).Some? ==>
      var i := Find(t, m).value;
      i + |m| <= |t| && t == t[..i] + m + t[i + |m|..] && Occ(t[..i], m) == 0
  {
    FindNone(t, m);
    if Find(t, m).Some? {
      hide Find, Occ;
      FindAt(t, m);
      FindFirst(t, m);
      var i := Find(t, m).value;
      assert t[i..] == m + t[i + |m|..];
      assert t == t[..i] + t[i..];
    }
  }

  /** The first occurrence is the one with none before it. */
  lemma {:induction false} FindUnique(p: string, m: string, r: string)
    requires Marker(m) && Occ(p, m) == 0
    ensures Find(p + m + r, m) == Some(|p|)
    decreases |p|
  {
    var t := p + m + r;
    if p == "" {
      assert t == m + r;
    } else {
      assert t[1..] == p[1..] + m + r;
      FindUnique(p[1..], m, r);
      assert t[|p|] == m[0];
      assert forall k :: 0 <= k < |p| ==> t[k] == p[k];
    }
  }
}
