/**
  The projection of a captured proof floor into the manifest: two region bodies are replaced, and a later reader
  accepts a projected manifest when blanking those bodies makes it equal to the blanked original.
 */
module FloorProjection {
  import opened Bytes
  import opened Markers
  import opened ManifestRegions

  const TABLE: string := "evidence"
  const COVERAGE: string := "evidence-coverage"
  const FLOOR_REGIONS: seq<string> := [TABLE, COVERAGE]

  /** What a blanked body is: the line break between the markers. */
  const BLANK: string := "\n"

  datatype Failure = CountError | OrderError | OutsideChanged

  type Projected = Result<string, Failure>

  lemma BlankHoldsNone(m: string)
    requires Marker(m)
    ensures Occ(BLANK, m) == 0
  {
    OccNoStart(BLANK, m);
  }

  lemma FloorNames()
    ensures Names(FLOOR_REGIONS) && Plain(TABLE) && Plain(COVERAGE) && TABLE != COVERAGE
    ensures Free2(BLANK, TABLE, COVERAGE)
  {
    assert |TABLE| == 8 && |COVERAGE| == 17;
    assert forall n :: n in FLOOR_REGIONS ==> n == TABLE || n == COVERAGE;
    MarkersAreMarkers(TABLE);
    MarkersAreMarkers(COVERAGE);
    BlankHoldsNone(Begin(TABLE));
    BlankHoldsNone(End(TABLE));
    BlankHoldsNone(Begin(COVERAGE));
    BlankHoldsNone(End(COVERAGE));
  }

  /** One region replaced, after a count of its markers. */
  function ReplaceCounted(text: string, name: string, body: string): Projected {
    if Count(text, Begin(name)) != 1 || Count(text, End(name)) != 1 then Err(CountError)
    else
      match SplitRegion(text, name)
      case Parts(prefix, _, suffix) => Ok(Put(prefix, name, body, suffix))
      case _ => Err(OrderError)
  }

  /** The first k floor regions replaced in turn; the first failure ends the pass. */
  function ReplaceTo(text: string, k: nat, body: string -> string): Projected
    requires k <= |FLOOR_REGIONS|
  {
    if k == 0 then Ok(text)
    else
      match ReplaceTo(text, k - 1, body)
      case Err(e) => Err(e)
      case Ok(t) => ReplaceCounted(t, FLOOR_REGIONS[k - 1], body(FLOOR_REGIONS[k - 1]))
  }

  function NoBody(name: string): string {
    BLANK
  }

  function Skeleton(text: string): Projected {
    ReplaceTo(text, |FLOOR_REGIONS|, NoBody)
  }

  function Projection(text: string, render: string -> string): Projected {
    ReplaceTo(text, |FLOOR_REGIONS|, name => Generated(render, name))
  }

  method ReplaceRegions(original: string, body: string -> string) returns (r: Projected)
    ensures r == ReplaceTo(original, |FLOOR_REGIONS|, body)
  {
    hide ReplaceCounted;
    var text := original;
    for k := 0 to |FLOOR_REGIONS|
      invariant Ok(text) == ReplaceTo(original, k, body)
    {
      var next := ReplaceCounted(text, FLOOR_REGIONS[k], body(FLOOR_REGIONS[k]));
      match next {
        case Err(e) => ErrorStays(original, k + 1, |FLOOR_REGIONS|, body); return Err(e);
        case Ok(t) => text := t;
      }
    }
    r := Ok(text);
  }

  lemma {:induction false} ErrorStays(text: string, j: nat, k: nat, body: string -> string)
    requires j <= k <= |FLOOR_REGIONS| && ReplaceTo(text, j, body).Err?
    ensures ReplaceTo(text, k, body) == ReplaceTo(text, j, body)
  {
    hide ReplaceCounted;
    if j < k { ErrorStays(text, j, k - 1, body); }
  }

  method ProjectedManifest(original: string, render: string -> string) returns (r: Projected)
    ensures r == Projection(original, render)
  {
    r := ReplaceRegions(original, name => Generated(render, name));
  }

  /** Why a projected manifest is rejected, if it is: the original is examined first. */
  function Verdict(original: string, projected: string): Option<Failure> {
    match Skeleton(original)
    case Err(e) => Some(e)
    case Ok(s) =>
      match Skeleton(projected)
      case Err(e) => Some(e)
      case Ok(u) => if s == u then None else Some(OutsideChanged)
  }

  method ValidateProjectionInvariants(original: string, projected: string) returns (r: Option<Failure>)
    ensures r == Verdict(original, projected)
  {
    hide ReplaceTo;
    var s := ReplaceRegions(original, NoBody);
    if s.Err? { return Some(s.error); }
    var u := ReplaceRegions(projected, NoBody);
    if u.Err? { return Some(u.error); }
    r := if s.value == u.value then None else Some(OutsideChanged);
  }

  // ---------------------------------------------------------------- when a replacement succeeds

  lemma CountedSucceeds(t: string, n: string, v: string)
    requires Plain(n)
    ensures ReplaceCounted(t, n, v).Ok? <==> Marked(t, n)
    ensures ReplaceCounted(t, n, v).Ok? ==> ReplaceCounted(t, n, v).value == SetBody(t, n, v)
  {
    hide Occ, Count, SplitRegion, Begin, End, Put;
    MarkersAreMarkers(n);
    CountIsOcc(t, Begin(n));
    CountIsOcc(t, End(n));
  }

  /** One of the region's markers is missing or duplicated. */
  ghost predicate Miscounted(t: string, n: string) {
    Occ(t, Begin(n)) != 1 || Occ(t, End(n)) != 1
  }

  /** Each marker occurs once, and the end stands before the begin. */
  ghost predicate Crossed(t: string, n: string) {
    !Miscounted(t, n) && exists p, q, r :: t == p + End(n) + q + Begin(n) + r
  }

  lemma MisorderedIsCrossed(t: string, n: string)
    requires Plain(n) && !Miscounted(t, n) && !SplitRegion(t, n).Parts?
    ensures Crossed(t, n)
  {
    MarkersAreMarkers(n);
    MarkersDiffer(n, n);
    AbsentSplits(t, n);
    FindSplits(t, Begin(n));
    var i := Find(t, Begin(n)).value;
    var a, c := t[..i], t[i + |Begin(n)|..];
    FindSplits(c, End(n));
    hide Occ, Find, Begin, End, Plain;
    assert t == a + Begin(n) + c;
    OccMarker(Begin(n), End(n));
    OccAppend(a, Begin(n), End(n));
    OccAppend(a + Begin(n), c, End(n));
    var p, q := CutAt(a, End(n));
    assert t == p + End(n) + q + Begin(n) + c;
  }

  lemma CrossedIsNotMarked(t: string, n: string)
    requires Plain(n) && Crossed(t, n)
    ensures !Marked(t, n)
  {
    hide Occ, SplitRegion, Begin, End, Plain;
    var p, q, r :| t == p + End(n) + q + Begin(n) + r;
    MarkersAreMarkers(n);
    var a := p + End(n) + q;
    AroundMarker(a, Begin(n), r);
    AroundMarker(p, End(n), q);
    if Marked(t, n) { EndFollows(a, n, r); }
  }

  /** How replacing one region fails. */
  lemma CountedFails(t: string, n: string, v: string)
    requires Plain(n)
    ensures ReplaceCounted(t, n, v) == Err(CountError) <==> Miscounted(t, n)
    ensures ReplaceCounted(t, n, v) == Err(OrderError) <==> Crossed(t, n)
  {
    MarkersAreMarkers(n);
    CountIsOcc(t, Begin(n));
    CountIsOcc(t, End(n));
    hide Occ, Count, SplitRegion, Begin, End, Put, Crossed, Plain;
    if Crossed(t, n) {
      CrossedIsNotMarked(t, n);
      CrossedCounts(t, n);
    }
    if !Miscounted(t, n) && !SplitRegion(t, n).Parts? { MisorderedIsCrossed(t, n); }
  }

  lemma CrossedCounts(t: string, n: string)
    requires Crossed(t, n)
    ensures !Miscounted(t, n)
  {
  }

  /** Both regions are found in turn: the second one after the first body was replaced by v. */
  ghost predicate Replaceable(t: string, v: string) {
    Marked(t, TABLE) && Marked(SetBody(t, TABLE, v), COVERAGE)
  }

  lemma ReplaceSucceeds(t: string, body: string -> string)
    ensures ReplaceTo(t, 2, body).Ok? <==> Replaceable(t, body(TABLE))
    ensures ReplaceTo(t, 2, body).Ok? ==>
      ReplaceTo(t, 2, body).value == SetBody(SetBody(t, TABLE, body(TABLE)), COVERAGE, body(COVERAGE))
  {
    hide ReplaceCounted, Marked, SetBody;
    FloorNames();
    assert ReplaceTo(t, 0, body) == Ok(t);
    assert FLOOR_REGIONS[0] == TABLE && FLOOR_REGIONS[1] == COVERAGE;
    assert ReplaceTo(t, 1, body) == ReplaceCounted(t, TABLE, body(TABLE));
    CountedSucceeds(t, TABLE, body(TABLE));
    CountedSucceeds(SetBody(t, TABLE, body(TABLE)), COVERAGE, body(COVERAGE));
  }

  /** How the pass over both regions fails: at the table, or at the coverage once the table's body is replaced by v. */
  ghost predicate FailsBy(t: string, v: string, e: Failure) {
    || (e == CountError && (Miscounted(t, TABLE) || (Marked(t, TABLE) && Miscounted(SetBody(t, TABLE, v), COVERAGE))))
    || (e == OrderError && (Crossed(t, TABLE) || (Marked(t, TABLE) && Crossed(SetBody(t, TABLE, v), COVERAGE))))
  }

  lemma ReplaceFails(t: string, body: string -> string, e: Failure)
    ensures ReplaceTo(t, 2, body) == Err(e) <==> FailsBy(t, body(TABLE), e)
  {
    hide ReplaceCounted, Marked, SetBody, Miscounted, Crossed;
    FloorNames();
    assert ReplaceTo(t, 0, body) == Ok(t);
    assert FLOOR_REGIONS[0] == TABLE && FLOOR_REGIONS[1] == COVERAGE;
    assert ReplaceTo(t, 1, body) == ReplaceCounted(t, TABLE, body(TABLE));
    var u := SetBody(t, TABLE, body(TABLE));
    CountedSucceeds(t, TABLE, body(TABLE));
    CountedFails(t, TABLE, body(TABLE));
    CountedFails(u, COVERAGE, body(COVERAGE));
    CountedKinds(t, TABLE, body(TABLE));
    CountedKinds(u, COVERAGE, body(COVERAGE));
  }

  lemma CountedKinds(t: string, n: string, v: string)
    ensures ReplaceCounted(t, n, v).Err? ==>
      ReplaceCounted(t, n, v).error == CountError || ReplaceCounted(t, n, v).error == OrderError
  {
  }

  /** The text with both floor bodies blanked. */
  function Blank(t: string): string {
    SetBody(SetBody(t, TABLE, BLANK), COVERAGE, BLANK)
  }

  lemma VerdictMeans(o: string, p: string)
    ensures Verdict(o, p) == None <==> Replaceable(o, BLANK) && Replaceable(p, BLANK) && Blank(o) == Blank(p)
  {
    hide ReplaceTo, SetBody, Replaceable;
    ReplaceSucceeds(o, NoBody);
    ReplaceSucceeds(p, NoBody);
  }

  /** Why a manifest is rejected: the original's own failure first, then the projected text's, then the difference. */
  lemma VerdictExactly(o: string, p: string, e: Failure)
    ensures Verdict(o, p) == Some(e) <==>
      || FailsBy(o, BLANK, e)
      || (Replaceable(o, BLANK) && FailsBy(p, BLANK, e))
      || (Replaceable(o, BLANK) && Replaceable(p, BLANK) && Blank(o) != Blank(p) && e == OutsideChanged)
  {
    hide ReplaceTo, SetBody, Replaceable, FailsBy;
    ReplaceSucceeds(o, NoBody);
    ReplaceSucceeds(p, NoBody);
    forall x ensures Skeleton(o) == Err(x) <==> FailsBy(o, BLANK, x) { ReplaceFails(o, NoBody, x); }
    forall x ensures Skeleton(p) == Err(x) <==> FailsBy(p, BLANK, x) { ReplaceFails(p, NoBody, x); }
  }

  // ---------------------------------------------------------------- exactly which manifests are accepted

  /** The original with other floor bodies: w for the coverage, then v for the table. */
  ghost predicate DiffersInBodies(o: string, p: string, v: string, w: string) {
    Free(v, TABLE) && Free2(w, TABLE, COVERAGE) && p == SetBody(SetBody(o, COVERAGE, w), TABLE, v)
  }

  lemma BlankForgets(o: string, p: string, v: string, w: string)
    requires Disjoint(o, TABLE, COVERAGE) && DiffersInBodies(o, p, v, w)
    ensures Replaceable(p, BLANK) && Blank(p) == Blank(o)
  {
    hide Occ, SplitRegion, SetBody, Plain;
    FloorNames();
    var o1 := SetBody(o, COVERAGE, w);
    SetFrames(o, COVERAGE, TABLE, w);
    SetMarked(o1, TABLE, v);
    SetLaws(o1, TABLE, v, BLANK);
    SetFrames(o1, TABLE, COVERAGE, BLANK);
    SetsCommute(o, TABLE, COVERAGE, BLANK, w);
    SetFrames(o, TABLE, COVERAGE, BLANK);
    SetLaws(SetBody(o, TABLE, BLANK), COVERAGE, w, BLANK);
  }

  lemma BlankDetermines(o: string, p: string) returns (v: string, w: string)
    requires Disjoint(o, TABLE, COVERAGE) && Replaceable(p, BLANK) && Blank(p) == Blank(o)
    ensures DiffersInBodies(o, p, v, w)
  {
    hide Occ, SplitRegion, SetBody, Plain;
    FloorNames();
    var s, p1 := Blank(o), SetBody(p, TABLE, BLANK);
    v, w := Body(p, TABLE), Body(p1, COVERAGE);
    MarkedParts(p, TABLE);
    MarkedParts(p1, COVERAGE);
    SetMarked(p, TABLE, BLANK);
    SetFrames(o, TABLE, COVERAGE, BLANK);
    SetFrames(SetBody(o, TABLE, BLANK), COVERAGE, TABLE, BLANK);
    MarkersAreMarkers(TABLE);
    SetCounts(p1, COVERAGE, BLANK, Begin(TABLE));
    SetCounts(p1, COVERAGE, BLANK, End(TABLE));
    SetLaws(p1, COVERAGE, BLANK, w);
    SetLaws(p1, COVERAGE, w, w);
    SetLaws(p, TABLE, BLANK, v);
    SetLaws(p, TABLE, v, v);
    SetLaws(SetBody(o, TABLE, BLANK), COVERAGE, BLANK, w);
    SetsCommute(o, TABLE, COVERAGE, BLANK, w);
    SetFrames(o, COVERAGE, TABLE, w);
    SetLaws(SetBody(o, COVERAGE, w), TABLE, BLANK, v);
  }

  /**
    A manifest is accepted against an original with disjoint floor regions exactly when it is the original with
    other floor bodies, the table's free of the table's markers and the coverage's free of the markers of both.
   */
  lemma AcceptedExactly(o: string, p: string)
    requires Disjoint(o, TABLE, COVERAGE)
    ensures Verdict(o, p) == None <==> exists v, w :: DiffersInBodies(o, p, v, w)
  {
    hide Verdict, Blank, SetBody, SplitRegion, Occ, DiffersInBodies;
    VerdictMeans(o, p);
    EmptyReplaceable(o);
    if Verdict(o, p) == None {
      var v, w := BlankDetermines(o, p);
    }
    forall v, w | DiffersInBodies(o, p, v, w) ensures Replaceable(p, BLANK) && Blank(p) == Blank(o) {
      BlankForgets(o, p, v, w);
    }
  }

  lemma EmptyReplaceable(o: string)
    requires Disjoint(o, TABLE, COVERAGE)
    ensures Replaceable(o, BLANK)
  {
    hide Occ, SplitRegion, SetBody, Plain;
    FloorNames();
    SetFrames(o, TABLE, COVERAGE, BLANK);
  }

  /** When both manifests have disjoint floor regions: accepted exactly when they agree outside the two bodies. */
  lemma AcceptedMeansAgree(o: string, p: string)
    requires Disjoint(o, TABLE, COVERAGE) && Disjoint(p, TABLE, COVERAGE)
    ensures Verdict(o, p) == None <==> p == SetBody(SetBody(o, COVERAGE, Body(p, COVERAGE)), TABLE, Body(p, TABLE))
  {
    hide Verdict, Occ, SplitRegion, SetBody, Plain;
    FloorNames();
    AcceptedExactly(o, p);
    MarkedParts(p, TABLE);
    MarkedParts(p, COVERAGE);
    if Verdict(o, p) == None {
      var v, w :| DiffersInBodies(o, p, v, w);
      SetFrames(o, COVERAGE, TABLE, w);
      SetLaws(SetBody(o, COVERAGE, w), TABLE, v, v);
      SetFrames(SetBody(o, COVERAGE, w), TABLE, COVERAGE, v);
    }
    if p == SetBody(SetBody(o, COVERAGE, Body(p, COVERAGE)), TABLE, Body(p, TABLE)) {
      assert DiffersInBodies(o, p, Body(p, TABLE), Body(p, COVERAGE));
    }
  }

  /** Accepting a manifest fixes how often the table's markers occur in it, and the coverage's outside the table. */
  lemma AcceptedCounts(o: string, p: string)
    requires Verdict(o, p) == None
    ensures Marked(p, TABLE) && Marked(SetBody(p, TABLE, BLANK), COVERAGE)
  {
    hide Verdict, Blank;
    VerdictMeans(o, p);
  }

  /** With another table body the original is accepted exactly when that body is free of the table's markers. */
  lemma TableBodyAccepted(o: string, v: string)
    requires Disjoint(o, TABLE, COVERAGE)
    ensures Verdict(o, SetBody(o, TABLE, v)) == None <==> Free(v, TABLE)
  {
    hide Verdict, Occ, SplitRegion, SetBody, Plain, Begin, End;
    FloorNames();
    MarkersAreMarkers(TABLE);
    MarkedParts(o, TABLE);
    MarkedParts(o, COVERAGE);
    var p := SetBody(o, TABLE, v);
    if Verdict(o, p) == None {
      AcceptedCounts(o, p);
      SetCounts(o, TABLE, v, Begin(TABLE));
      SetCounts(o, TABLE, v, End(TABLE));
    }
    if Free(v, TABLE) {
      SetLaws(o, COVERAGE, Body(o, COVERAGE), BLANK);
      assert DiffersInBodies(o, p, v, Body(o, COVERAGE));
      AcceptedExactly(o, p);
    }
  }

  /** With another coverage body it is accepted exactly when that body is free of the markers of both regions. */
  lemma CoverageBodyAccepted(o: string, w: string)
    requires Disjoint(o, TABLE, COVERAGE)
    ensures Verdict(o, SetBody(o, COVERAGE, w)) == None <==> Free2(w, TABLE, COVERAGE)
  {
    hide Verdict, Occ, SplitRegion, SetBody, Plain, Begin, End;
    FloorNames();
    MarkersAreMarkers(TABLE);
    MarkersAreMarkers(COVERAGE);
    MarkedParts(o, TABLE);
    MarkedParts(o, COVERAGE);
    var p := SetBody(o, COVERAGE, w);
    if Verdict(o, p) == None {
      AcceptedCounts(o, p);
      SetCounts(o, COVERAGE, w, Begin(TABLE));
      SetCounts(o, COVERAGE, w, End(TABLE));
      SetKeepsOther(o, COVERAGE, TABLE, w);
      SetCounts(o, COVERAGE, w, Begin(COVERAGE));
      SetCounts(o, COVERAGE, w, End(COVERAGE));
      SetCounts(p, TABLE, BLANK, Begin(COVERAGE));
      SetCounts(p, TABLE, BLANK, End(COVERAGE));
    }
    if Free2(w, TABLE, COVERAGE) {
      SetFrames(o, COVERAGE, TABLE, w);
      SetLaws(p, TABLE, Body(o, TABLE), BLANK);
      assert DiffersInBodies(o, p, Body(o, TABLE), w);
      AcceptedExactly(o, p);
    }
  }

  /**
    A duplicated coverage marker inside the table's body escapes the duplicate count: that body is blanked before
    the coverage markers are counted.
   */
  lemma DuplicateInTableAccepted(o: string)
    requires Disjoint(o, TABLE, COVERAGE)
    ensures var p := SetBody(o, TABLE, Begin(COVERAGE));
      Count(p, Begin(COVERAGE)) == 2 && Verdict(o, p) == None
  {
    hide Verdict, Occ, Count, SplitRegion, SetBody, Plain, Begin, End;
    FloorNames();
    MarkersAreMarkers(TABLE);
    MarkersAreMarkers(COVERAGE);
    MarkersDiffer(COVERAGE, TABLE);
    MarkersDiffer(TABLE, COVERAGE);
    var p := SetBody(o, TABLE, Begin(COVERAGE));
    CountIsOcc(p, Begin(COVERAGE));
    OccMarker(Begin(COVERAGE), Begin(COVERAGE));
    OccMarker(Begin(COVERAGE), Begin(TABLE));
    OccMarker(Begin(COVERAGE), End(TABLE));
    SetCounts(o, TABLE, Begin(COVERAGE), Begin(COVERAGE));
    TableBodyAccepted(o, Begin(COVERAGE));
  }

  // ---------------------------------------------------------------- the projection

  /** The projection sets the two floor bodies, touches no other region, and is accepted against the original. */
  lemma ProjectionAccepted(o: string, render: string -> string)
    requires Disjoint(o, TABLE, COVERAGE)
    requires RendersFree(render, FLOOR_REGIONS)
    ensures Projection(o, render).Ok?
    ensures var p := Projection(o, render).value;
      && Disjoint(p, TABLE, COVERAGE) && Blank(p) == Blank(o) && Verdict(o, p) == None
      && Body(p, TABLE) == Generated(render, TABLE) && Body(p, COVERAGE) == Generated(render, COVERAGE)
  {
    hide Verdict, Occ, SplitRegion, SetBody, Plain, Generated, ReplaceTo;
    FloorNames();
    assert TABLE in FLOOR_REGIONS && COVERAGE in FLOOR_REGIONS;
    var v, w := Generated(render, TABLE), Generated(render, COVERAGE);
    ReplaceSucceeds(o, name => Generated(render, name));
    SetFrames(o, TABLE, COVERAGE, v);
    SetFrames(SetBody(o, TABLE, v), COVERAGE, TABLE, w);
    SetsCommute(o, TABLE, COVERAGE, v, w);
    var p := SetBody(SetBody(o, TABLE, v), COVERAGE, w);
    assert DiffersInBodies(o, p, v, w);
    BlankForgets(o, p, v, w);
    AcceptedExactly(o, p);
  }

  /** What the projection leaves between the markers of the two floor regions. */
  lemma ProjectedText(o: string, render: string -> string)
    requires Disjoint(o, TABLE, COVERAGE) && RendersFree(render, FLOOR_REGIONS)
    ensures Projection(o, render).Ok?
    ensures var p := Projection(o, render).value;
      && Marked(p, TABLE) && Body(p, TABLE) == "\n" + render(TABLE) + "\n" && Shows(p, TABLE, render(TABLE))
      && Marked(p, COVERAGE) && Body(p, COVERAGE) == "\n" + render(COVERAGE) + "\n"
      && Shows(p, COVERAGE, render(COVERAGE))
  {
    hide Projection, Occ, SplitRegion, Shows, Lines, Verdict, Blank, RendersFree;
    ProjectionAccepted(o, render);
    var p := Projection(o, render).value;
    BodyShows(p, TABLE, render(TABLE));
    BodyShows(p, COVERAGE, render(COVERAGE));
  }

  /** Any further region keeps its body under the projection. */
  lemma ProjectionFrames(o: string, render: string -> string, n: string)
    requires Plain(n) && n != TABLE && n != COVERAGE
    requires WellMarked(o, FLOOR_REGIONS + [n]) && RendersFree(render, FLOOR_REGIONS + [n])
    requires Marked(o, TABLE) && Marked(o, COVERAGE) && Marked(o, n)
    ensures Projection(o, render).Ok? && Marked(Projection(o, render).value, n)
    ensures Body(Projection(o, render).value, n) == Body(o, n)
  {
    hide Occ, SplitRegion, SetBody, Plain, Generated, ReplaceTo;
    FloorNames();
    var names := FLOOR_REGIONS + [n];
    assert TABLE in names && COVERAGE in names && n in names;
    var v, w := Generated(render, TABLE), Generated(render, COVERAGE);
    ReplaceSucceeds(o, name => Generated(render, name));
    SetKeeps(o, names, TABLE, v);
    SetKeeps(SetBody(o, TABLE, v), names, COVERAGE, w);
  }
}
