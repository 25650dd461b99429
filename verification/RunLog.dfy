/** The recogniser of full-run logs: one Kani stage between unique markers, then a final pass. */
module RunLog {
  import opened Bytes

  type Name = string

  /** A log line, as the recogniser's patterns classify it. */
  datatype Line =
    | KaniStart | KaniEnd | FullPass | LeanPass
    | Start(name: Name)                       // "Checking harness NAME..."
    | Cover(satisfied: nat, total: nat)       // "** S of T cover properties satisfied"
    | OddCover                                // mentions cover properties, but not in that form
    | Verdict(successful: bool)               // begins with "VERIFICATION:"
    | Other

  datatype LogError = NoUniqueStage | StageOrder | StartedBeforeVerdict | DuplicateHarness | BadCover
                    | UnknownCover | BadVerdict | RosterMismatch | CoverMissing | RegistryMismatch

  datatype Counts = Counts(successful: nat, failed: nat, coversUnsatisfied: int)

  /** The loop variables: finished harnesses in order, the running one, and recorded shortfalls. */
  datatype Scan = Scan(results: seq<Name>, current: Option<Name>, covers: seq<(Name, nat)>)

  const BEGIN := Scan([], None, [])

  predicate Recorded(covers: seq<(Name, nat)>, name: Name) {
    exists i :: 0 <= i < |covers| && covers[i].0 == name
  }

  function Count(lines: seq<Line>, x: Line): nat {
    if |lines| == 0 then 0 else Count(lines[1..], x) + if lines[0] == x then 1 else 0
  }

  function IndexOf(lines: seq<Line>, x: Line): (i: nat)
    requires x in lines
    ensures i < |lines| && lines[i] == x
  {
    if lines[0] == x then 0 else 1 + IndexOf(lines[1..], x)
  }

  function Total(covers: seq<(Name, nat)>): nat {
    if |covers| == 0 then 0 else Total(covers[..|covers| - 1]) + covers[|covers| - 1].1
  }

  function Names(covers: seq<(Name, nat)>): set<Name> {
    set i | 0 <= i < |covers| :: covers[i].0
  }

  function Unsatisfied(covers: seq<(Name, nat)>): set<Name> {
    set i | 0 <= i < |covers| && covers[i].1 > 0 :: covers[i].0
  }

  function Elements(s: seq<Name>): set<Name> {
    set x | x in s
  }

  /** The loop body on one line. */
  function Step(st: Scan, line: Line): Result<Scan, LogError> {
    match line
    case Start(name) =>
      if st.current.Some? then Err(StartedBeforeVerdict)
      else if name in st.results then Err(DuplicateHarness)
      else Ok(st.(current := Some(name)))
    case Cover(satisfied, total) =>
      if st.current.None? || Recorded(st.covers, st.current.value) || satisfied > total then Err(BadCover)
      else Ok(st.(covers := st.covers + [(st.current.value, total - satisfied)]))
    case OddCover => Err(UnknownCover)
    case Verdict(successful) =>
      if st.current.None? || !successful then Err(BadVerdict)
      else Ok(st.(results := st.results + [st.current.value], current := None))
    case _ => Ok(st)
  }

  /** The loop over a whole stage. */
  function ScanStage(stage: seq<Line>): Result<Scan, LogError> {
    if |stage| == 0 then Ok(BEGIN)
    else
      match ScanStage(stage[..|stage| - 1])
      case Err(e) => Err(e)
      case Ok(st) => Step(st, stage[|stage| - 1])
  }

  /** The markers around the stage: unique, in order, with the Lean pass and the final pass after it. */
  predicate Framed(lines: seq<Line>) {
    && |lines| > 0 && lines[|lines| - 1] == FullPass
    && Count(lines, KaniStart) == 1 && Count(lines, KaniEnd) == 1
    && KaniStart in lines && KaniEnd in lines
    && IndexOf(lines, KaniStart) < IndexOf(lines, KaniEnd)
    && LeanPass in lines[IndexOf(lines, KaniEnd)..]
  }

  function Stage(lines: seq<Line>): seq<Line>
    requires Framed(lines)
  {
    lines[IndexOf(lines, KaniStart) + 1..IndexOf(lines, KaniEnd)]
  }

  /** The checks after the loop. */
  function Conclude(st: Scan, expected: seq<Name>, expectedCovers: seq<Name>, registry: Option<seq<Name>>):
    Result<Counts, LogError>
  {
    if st.current.Some? || multiset(st.results) != multiset(expected) then Err(RosterMismatch)
    else if Elements(expectedCovers) - Names(st.covers) != {} then Err(CoverMissing)
    else if registry.Some? && Unsatisfied(st.covers) != Elements(registry.value) then Err(RegistryMismatch)
    else Ok(Counts(|st.results|, 0, Total(st.covers)))
  }

  /** What validate_log returns. */
  function LogOf(lines: seq<Line>, expected: seq<Name>, expectedCovers: seq<Name>, registry: Option<seq<Name>>):
    Result<Counts, LogError>
  {
    if |lines| == 0 || lines[|lines| - 1] != FullPass || Count(lines, KaniStart) != 1 || Count(lines, KaniEnd) != 1 then
      Err(NoUniqueStage)
    else if !Framed(lines) then Err(StageOrder)
    else
      match ScanStage(Stage(lines))
      case Err(e) => Err(e)
      case Ok(st) => Conclude(st, expected, expectedCovers, registry)
  }

  method ValidateLog(lines: seq<Line>, expected: seq<Name>, expectedCovers: seq<Name>, registry: Option<seq<Name>>)
    returns (r: Result<Counts, LogError>)
    ensures r == LogOf(lines, expected, expectedCovers, registry)
  {
    hide Count, IndexOf, Unsatisfied, Names, Elements, Recorded, Total, ScanStage;
    CountPositive(lines, KaniStart);
    CountPositive(lines, KaniEnd);
    if |lines| == 0 || lines[|lines| - 1] != FullPass || Count(lines, KaniStart) != 1 || Count(lines, KaniEnd) != 1 {
      return Err(NoUniqueStage);
    }
    var start, end := IndexOf(lines, KaniStart), IndexOf(lines, KaniEnd);
    if start >= end || LeanPass !in lines[end..] { return Err(StageOrder); }
    var stage := lines[start + 1..end];
    var results: seq<Name>, current: Option<Name>, covers: seq<(Name, nat)> := [], None, [];
    ScanEmpty(stage);
    for i := 0 to |stage|
      invariant ScanStage(stage[..i]) == Ok(Scan(results, current, covers))
    {
      var line := stage[i];
      ghost var st := Scan(results, current, covers);
      ScanOne(stage, i, st);
      if Step(st, line).Err? { ScanFails(stage, i + 1); }
      if line.Start? {
        if current.Some? { return Err(StartedBeforeVerdict); }
        if line.name in results { return Err(DuplicateHarness); }
        current := Some(line.name);
      } else if line.Cover? {
        if current.None? || Recorded(covers, current.value) || line.satisfied > line.total { return Err(BadCover); }
        covers := covers + [(current.value, line.total - line.satisfied)];
      } else if line.OddCover? {
        return Err(UnknownCover);
      } else if line.Verdict? {
        if current.None? || !line.successful { return Err(BadVerdict); }
        results, current := results + [current.value], None;
      }
    }
    assert stage[..|stage|] == stage;
    if current.Some? || multiset(results) != multiset(expected) { return Err(RosterMismatch); }
    if Elements(expectedCovers) - Names(covers) != {} { return Err(CoverMissing); }
    var unsatisfied := Unsatisfied(covers);
    if registry.Some? && unsatisfied != Elements(registry.value) { return Err(RegistryMismatch); }
    return Ok(Counts(|results|, 0, Total(covers)));
  }

  lemma ScanEmpty(stage: seq<Line>)
    ensures ScanStage(stage[..0]) == Ok(BEGIN)
  {
  }

  lemma ScanOne(stage: seq<Line>, i: nat, st: Scan)
    requires i < |stage| && ScanStage(stage[..i]) == Ok(st)
    ensures ScanStage(stage[..i + 1]) == Step(st, stage[i])
  {
    assert stage[..i + 1][..i] == stage[..i];
  }

  lemma CountPositive(lines: seq<Line>, x: Line)
    ensures Count(lines, x) > 0 <==> x in lines
  {
  }

  /** The first failing line decides. */
  lemma {:induction false} ScanFails(stage: seq<Line>, i: nat)
    requires i <= |stage| && ScanStage(stage[..i]).Err?
    ensures ScanStage(stage) == ScanStage(stage[..i])
  {
    if i < |stage| {
      var init := stage[..|stage| - 1];
      assert init[..i] == stage[..i];
      ScanFails(init, i);
    } else {
      assert stage[..i] == stage;
    }
  }

  // ---------------------------------------------------------------- the printed run

  /** One harness of a run: its name and, if it has covers, how many of how many were satisfied. */
  datatype Block = Block(name: Name, cover: Option<(nat, nat)>)

  /** The harness being run when a stage is cut short. */
  datatype Running = Idle | Started(name: Name) | Covered(name: Name, cover: (nat, nat))

  function Opening(b: Block): seq<Line> {
    [Start(b.name)] + if b.cover.Some? then [Cover(b.cover.value.0, b.cover.value.1)] else []
  }

  function Print(blocks: seq<Block>): seq<Line> {
    if |blocks| == 0 then []
    else Print(blocks[..|blocks| - 1]) + (Opening(blocks[|blocks| - 1]) + [Verdict(true)])
  }

  function PrintRunning(running: Running): seq<Line> {
    match running
    case Idle => []
    case Started(name) => Opening(Block(name, None))
    case Covered(name, cover) => Opening(Block(name, Some(cover)))
  }

  predicate IsSignificant(line: Line) {
    line.Start? || line.Cover? || line.OddCover? || line.Verdict?
  }

  /** The stage without the lines the recogniser ignores. */
  function Significant(stage: seq<Line>): seq<Line> {
    if |stage| == 0 then []
    else
      Significant(stage[..|stage| - 1])
      + if IsSignificant(stage[|stage| - 1]) then [stage[|stage| - 1]] else []
  }

  function BlockNames(blocks: seq<Block>): seq<Name> {
    seq(|blocks|, i requires 0 <= i < |blocks| => blocks[i].name)
  }

  /** The shortfalls of the blocks that have covers, in order. */
  function Shortfalls(blocks: seq<Block>): seq<(Name, nat)>
    requires CoversOk(blocks)
  {
    if |blocks| == 0 then []
    else
      var b := blocks[|blocks| - 1];
      Shortfalls(blocks[..|blocks| - 1])
      + if b.cover.Some? then [(b.name, b.cover.value.1 - b.cover.value.0)] else []
  }

  predicate CoversOk(blocks: seq<Block>) {
    forall i :: 0 <= i < |blocks| && blocks[i].cover.Some? ==> blocks[i].cover.value.0 <= blocks[i].cover.value.1
  }

  predicate DistinctNames(blocks: seq<Block>) {
    forall i, j :: 0 <= i < j < |blocks| ==> blocks[i].name != blocks[j].name
  }

  /** Harnesses run once each, and no cover summary claims more than there are. */
  predicate ProperRun(blocks: seq<Block>, running: Running) {
    && CoversOk(blocks) && DistinctNames(blocks)
    && (!running.Idle? ==> forall i :: 0 <= i < |blocks| ==> blocks[i].name != running.name)
    && (running.Covered? ==> running.cover.0 <= running.cover.1)
  }

  function StateOf(blocks: seq<Block>, running: Running): Scan
    requires ProperRun(blocks, running)
  {
    Scan(BlockNames(blocks),
         if running.Idle? then None else Some(running.name),
         Shortfalls(blocks) + if running.Covered? then [(running.name, running.cover.1 - running.cover.0)] else [])
  }

  lemma {:induction false} ShortfallNames(blocks: seq<Block>, name: Name)
    requires CoversOk(blocks) && Recorded(Shortfalls(blocks), name)
    ensures exists i :: 0 <= i < |blocks| && blocks[i].name == name
  {
    var k :| 0 <= k < |Shortfalls(blocks)| && Shortfalls(blocks)[k].0 == name;
    var init := blocks[..|blocks| - 1];
    if k < |Shortfalls(init)| {
      assert Shortfalls(init)[k].0 == name;
      ShortfallNames(init, name);
      var i :| 0 <= i < |init| && init[i].name == name;
      assert blocks[i].name == name;
    } else {
      assert blocks[|blocks| - 1].name == name;
    }
  }

  /** The running harness has a recorded shortfall exactly when its cover line was seen. */
  lemma RunningRecorded(blocks: seq<Block>, running: Running)
    requires ProperRun(blocks, running) && !running.Idle?
    ensures Recorded(StateOf(blocks, running).covers, running.name) <==> running.Covered?
  {
    var covers := StateOf(blocks, running).covers;
    if running.Covered? {
      assert covers[|covers| - 1].0 == running.name;
    } else if Recorded(covers, running.name) {
      assert covers == Shortfalls(blocks);
      ShortfallNames(blocks, running.name);
    }
  }

  // ---------------------------------------------------------------- scanning and printing are inverse

  lemma PrintSnoc(blocks: seq<Block>, b: Block)
    ensures Print(blocks + [b]) == Print(blocks) + (Opening(b) + [Verdict(true)])
  {
    assert (blocks + [b])[..|blocks|] == blocks;
  }

  lemma StateSnoc(blocks: seq<Block>, b: Block)
    requires ProperRun(blocks + [b], Idle)
    ensures ProperRun(blocks, Idle)
    ensures BlockNames(blocks + [b]) == BlockNames(blocks) + [b.name]
    ensures Shortfalls(blocks + [b])
      == Shortfalls(blocks) + if b.cover.Some? then [(b.name, b.cover.value.1 - b.cover.value.0)] else []
  {
    var all := blocks + [b];
    assert all[..|blocks|] == blocks;
    assert forall i :: 0 <= i < |blocks| ==> all[i] == blocks[i];
  }

  /** The block a running harness becomes when its verdict arrives. */
  function Finished(running: Running): Block
    requires !running.Idle?
  {
    Block(running.name, if running.Covered? then Some(running.cover) else None)
  }

  lemma FinishedProper(blocks: seq<Block>, running: Running)
    requires !running.Idle?
    ensures ProperRun(blocks, running) <==> ProperRun(blocks + [Finished(running)], Idle)
    ensures PrintRunning(running) == Opening(Finished(running))
  {
    var all := blocks + [Finished(running)];
    assert forall i :: 0 <= i < |blocks| ==> all[i] == blocks[i];
    assert all[|blocks|] == Finished(running);
  }

  /** A successful verdict turns the running harness into a finished block. */
  lemma FinishStep(blocks: seq<Block>, was: Running)
    requires ProperRun(blocks, was) && !was.Idle?
    ensures var all := blocks + [Finished(was)];
      && ProperRun(all, Idle)
      && Step(StateOf(blocks, was), Verdict(true)) == Ok(StateOf(all, Idle))
      && Print(all) == Print(blocks) + PrintRunning(was) + [Verdict(true)]
  {
    var all := blocks + [Finished(was)];
    FinishedProper(blocks, was);
    StateSnoc(blocks, Finished(was));
    PrintSnoc(blocks, Finished(was));
    hide Shortfalls, ProperRun, Print;
    assert StateOf(all, Idle).covers == StateOf(blocks, was).covers;
  }

  /** A cover summary is recorded for the running harness. */
  lemma CoverStep(blocks: seq<Block>, name: Name, cover: (nat, nat))
    requires ProperRun(blocks, Started(name)) && cover.0 <= cover.1
    ensures ProperRun(blocks, Covered(name, cover))
    ensures Step(StateOf(blocks, Started(name)), Cover(cover.0, cover.1)) == Ok(StateOf(blocks, Covered(name, cover)))
  {
    RunningRecorded(blocks, Started(name));
    assert Shortfalls(blocks) + [] == Shortfalls(blocks);
  }

  /** One accepted line extends the printed run by that line, or is ignored. */
  lemma SoundStep(blocks: seq<Block>, was: Running, line: Line)
    returns (blocks': seq<Block>, running: Running)
    requires ProperRun(blocks, was) && Step(StateOf(blocks, was), line).Ok?
    ensures ProperRun(blocks', running) && Step(StateOf(blocks, was), line) == Ok(StateOf(blocks', running))
    ensures Print(blocks') + PrintRunning(running)
      == Print(blocks) + PrintRunning(was) + if IsSignificant(line) then [line] else []
  {
    hide Shortfalls, Print;
    blocks', running := blocks, was;
    if !was.Idle? { RunningRecorded(blocks, was); }
    match line {
      case Start(name) =>
        running := Started(name);
        NamesMembers(blocks);
      case Cover(satisfied, total) =>
        running := Covered(was.name, (satisfied, total));
        CoverStep(blocks, was.name, (satisfied, total));
      case Verdict(_) =>
        FinishStep(blocks, was);
        blocks', running := blocks + [Finished(was)], Idle;
      case _ =>
    }
  }

  /** What a successfully scanned stage printed, up to ignored lines. */
  lemma {:induction false} ScanSound(stage: seq<Line>) returns (blocks: seq<Block>, running: Running)
    requires ScanStage(stage).Ok?
    ensures Significant(stage) == Print(blocks) + PrintRunning(running)
    ensures ProperRun(blocks, running) && ScanStage(stage) == Ok(StateOf(blocks, running))
  {
    hide Step, StateOf, ProperRun;
    if |stage| == 0 {
      blocks, running := [], Idle;
      EmptyState();
    } else {
      var init, line := stage[..|stage| - 1], stage[|stage| - 1];
      var before, was := ScanSound(init);
      blocks, running := SoundStep(before, was, line);
    }
  }

  lemma EmptyState()
    ensures ProperRun([], Idle) && StateOf([], Idle) == BEGIN
  {
  }

  lemma NamesMembers(blocks: seq<Block>)
    ensures forall name :: name in BlockNames(blocks) <==> exists i :: 0 <= i < |blocks| && blocks[i].name == name
  {
    forall i | 0 <= i < |blocks| ensures blocks[i].name in BlockNames(blocks) {
      assert BlockNames(blocks)[i] == blocks[i].name;
    }
  }

  /** A stage that prints a proper run, up to ignored lines, is scanned to that run's state. */
  lemma {:induction false} ScanComplete(stage: seq<Line>, blocks: seq<Block>, running: Running)
    requires ProperRun(blocks, running)
    requires Significant(stage) == Print(blocks) + PrintRunning(running)
    ensures ScanStage(stage) == Ok(StateOf(blocks, running))
    decreases |stage|
  {
    if |stage| == 0 {
      assert blocks == [] by { if |blocks| > 0 { PrintNonempty(blocks); } }
      EmptyState();
    } else {
      var init, line := stage[..|stage| - 1], stage[|stage| - 1];
      if !IsSignificant(line) {
        ScanComplete(init, blocks, running);
      } else {
        assert Significant(stage) == Significant(init) + [line];
        CompleteStep(init, line, blocks, running);
        hide Print, PrintRunning, Shortfalls;
        match running {
          case Started(name) =>
            ScanComplete(init, blocks, Idle);
            NamesMembers(blocks);
          case Covered(name, cover) =>
            ScanComplete(init, blocks, Started(name));
            CoverStep(blocks, name, cover);
          case Idle =>
            var last, before := blocks[|blocks| - 1], blocks[..|blocks| - 1];
            assert blocks == before + [last];
            FinishedProper(before, Opened(last));
            ScanComplete(init, before, Opened(last));
            FinishStep(before, Opened(last));
        }
      }
    }
  }

  lemma PrintNonempty(blocks: seq<Block>)
    requires |blocks| > 0
    ensures |Print(blocks)| > 0
  {
  }

  /** The running harness just before block b was finished. */
  function Opened(b: Block): (r: Running)
    ensures !r.Idle? && Finished(r) == b
  {
    if b.cover.Some? then Covered(b.name, b.cover.value) else Started(b.name)
  }

  /** The last printed line, and what was printed before it. */
  lemma {:induction false} CompleteStep(init: seq<Line>, line: Line, blocks: seq<Block>, running: Running)
    requires Significant(init) + [line] == Print(blocks) + PrintRunning(running)
    ensures running.Started? ==>
      line == Start(running.name) && Significant(init) == Print(blocks) + PrintRunning(Idle)
    ensures running.Covered? ==>
      && line == Cover(running.cover.0, running.cover.1)
      && Significant(init) == Print(blocks) + PrintRunning(Started(running.name))
    ensures running.Idle? ==>
      && |blocks| > 0 && line == Verdict(true)
      && Significant(init) == Print(blocks[..|blocks| - 1]) + PrintRunning(Opened(blocks[|blocks| - 1]))
  {
    if running.Idle? && |blocks| > 0 {
      assert Print(blocks) == Print(blocks[..|blocks| - 1]) + (Opening(blocks[|blocks| - 1]) + [Verdict(true)]);
    }
    assert |blocks| == 0 ==> Print(blocks) == [];
    hide Print, Significant;
    var whole := Print(blocks) + PrintRunning(running);
    assert Significant(init) == whole[..|whole| - 1] && line == whole[|whole| - 1];
    match running {
      case Started(name) =>
        assert whole == Print(blocks) + [Start(name)];
      case Covered(name, cover) =>
        assert whole == (Print(blocks) + [Start(name)]) + [Cover(cover.0, cover.1)];
      case Idle =>
        var last, before := blocks[|blocks| - 1], blocks[..|blocks| - 1];
        OpenedPrints(last);
        assert whole == (Print(before) + PrintRunning(Opened(last))) + [Verdict(true)];
    }
  }

  lemma OpenedPrints(b: Block)
    ensures PrintRunning(Opened(b)) == Opening(b)
  {
  }

  // ---------------------------------------------------------------- theorems

  ghost predicate HasCover(blocks: seq<Block>, name: Name) {
    exists i :: 0 <= i < |blocks| && blocks[i].name == name && blocks[i].cover.Some?
  }

  ghost predicate FallsShort(blocks: seq<Block>, name: Name) {
    exists i :: 0 <= i < |blocks| && blocks[i].name == name && blocks[i].cover.Some?
                && blocks[i].cover.value.0 < blocks[i].cover.value.1
  }

  /** The sum over the blocks of covers present but not satisfied. */
  function Shortfall(blocks: seq<Block>): int {
    if |blocks| == 0 then 0
    else
      var b := blocks[|blocks| - 1];
      Shortfall(blocks[..|blocks| - 1]) + if b.cover.Some? then b.cover.value.1 - b.cover.value.0 else 0
  }

  /** Exactly the expected harnesses, each once; every expected cover is there; and the harnesses with
      an unsatisfied cover are exactly the disclosed ones. */
  ghost predicate RunFits(blocks: seq<Block>, expected: seq<Name>, expectedCovers: seq<Name>,
                          registry: Option<seq<Name>>) {
    && ProperRun(blocks, Idle)
    && multiset(BlockNames(blocks)) == multiset(expected)
    && (forall name :: name in expectedCovers ==> HasCover(blocks, name))
    && (registry.Some? ==> forall name :: name in registry.value <==> FallsShort(blocks, name))
  }

  lemma {:induction false} ShortfallTotal(blocks: seq<Block>)
    requires CoversOk(blocks)
    ensures Total(Shortfalls(blocks)) == Shortfall(blocks)
  {
    if |blocks| > 0 {
      var init, b := blocks[..|blocks| - 1], blocks[|blocks| - 1];
      ShortfallTotal(init);
      var entry := if b.cover.Some? then [(b.name, b.cover.value.1 - b.cover.value.0)] else [];
      assert Shortfalls(blocks) == Shortfalls(init) + entry;
      if b.cover.Some? {
        assert Shortfalls(blocks)[..|Shortfalls(blocks)| - 1] == Shortfalls(init);
      } else {
        assert Shortfalls(blocks) == Shortfalls(init);
      }
    }
  }

  /** Which blocks the recorded shortfalls come from. */
  lemma {:induction false} ShortfallEntries(blocks: seq<Block>, name: Name, n: nat)
    requires CoversOk(blocks)
    ensures (name, n) in Shortfalls(blocks)
      <==> exists i :: 0 <= i < |blocks| && blocks[i].name == name && blocks[i].cover.Some?
                       && blocks[i].cover.value.1 - blocks[i].cover.value.0 == n
  {
    if |blocks| > 0 {
      var init, b := blocks[..|blocks| - 1], blocks[|blocks| - 1];
      ShortfallEntries(init, name, n);
      if (name, n) in Shortfalls(init) {
        var i :| 0 <= i < |init| && init[i].name == name && init[i].cover.Some?
                 && init[i].cover.value.1 - init[i].cover.value.0 == n;
        assert blocks[i] == init[i];
      }
      if exists i :: 0 <= i < |blocks| && blocks[i].name == name && blocks[i].cover.Some?
                     && blocks[i].cover.value.1 - blocks[i].cover.value.0 == n {
        var i :| 0 <= i < |blocks| && blocks[i].name == name && blocks[i].cover.Some?
                 && blocks[i].cover.value.1 - blocks[i].cover.value.0 == n;
        if i < |init| { assert init[i] == blocks[i]; }
      }
    }
  }

  lemma CoverNames(blocks: seq<Block>, name: Name)
    requires CoversOk(blocks)
    ensures name in Names(Shortfalls(blocks)) <==> HasCover(blocks, name)
    ensures name in Unsatisfied(Shortfalls(blocks)) <==> FallsShort(blocks, name)
  {
    var covers := Shortfalls(blocks);
    hide Shortfalls;
    if name in Names(covers) {
      var i :| 0 <= i < |covers| && covers[i].0 == name;
      ShortfallEntries(blocks, name, covers[i].1);
      assert covers[i] == (name, covers[i].1);
    }
    if name in Unsatisfied(covers) {
      var i :| 0 <= i < |covers| && covers[i].1 > 0 && covers[i].0 == name;
      ShortfallEntries(blocks, name, covers[i].1);
      assert covers[i] == (name, covers[i].1);
    }
    forall i | 0 <= i < |blocks| && blocks[i].name == name && blocks[i].cover.Some?
      ensures (name, blocks[i].cover.value.1 - blocks[i].cover.value.0) in covers
    {
      ShortfallEntries(blocks, name, blocks[i].cover.value.1 - blocks[i].cover.value.0);
    }
  }

  /** The checks after the loop, on the state of a finished run. */
  lemma ConcludeOnRun(blocks: seq<Block>, expected: seq<Name>, expectedCovers: seq<Name>,
                      registry: Option<seq<Name>>, counts: Counts)
    requires ProperRun(blocks, Idle)
    ensures Conclude(StateOf(blocks, Idle), expected, expectedCovers, registry) == Ok(counts)
      <==> RunFits(blocks, expected, expectedCovers, registry) && counts == Counts(|expected|, 0, Shortfall(blocks))
  {
    var st := StateOf(blocks, Idle);
    assert st.covers == Shortfalls(blocks);
    forall name ensures name in Names(st.covers) <==> HasCover(blocks, name) { CoverNames(blocks, name); }
    forall name ensures name in Unsatisfied(st.covers) <==> FallsShort(blocks, name) { CoverNames(blocks, name); }
    ShortfallTotal(blocks);
    hide Shortfalls, Shortfall, HasCover, FallsShort, Names, Unsatisfied, ProperRun;
    assert multiset(st.results) == multiset(expected) ==> |st.results| == |expected| by {
      assert |multiset(st.results)| == |st.results| && |multiset(expected)| == |expected|;
    }
    CoversCheck(st.covers, expectedCovers);
    if registry.Some? {
      assert Unsatisfied(st.covers) == Elements(registry.value)
        <==> forall name :: name in registry.value <==> name in Unsatisfied(st.covers);
    }
  }

  lemma CoversCheck(covers: seq<(Name, nat)>, expectedCovers: seq<Name>)
    ensures Elements(expectedCovers) - Names(covers) == {}
      <==> forall name :: name in expectedCovers ==> name in Names(covers)
  {
    hide Names;
    assert forall name ::
      name in Elements(expectedCovers) - Names(covers) <==> name in expectedCovers && name !in Names(covers);
  }

  /**
    A log is accepted with given counts exactly when it is framed and its stage, ignored lines aside,
    is what a fitting run prints; the counts are then the roster size and the run's shortfall.
   */
  lemma LogAccepted(lines: seq<Line>, expected: seq<Name>, expectedCovers: seq<Name>,
                    registry: Option<seq<Name>>, counts: Counts)
    ensures LogOf(lines, expected, expectedCovers, registry) == Ok(counts)
      <==> Framed(lines)
           && exists blocks :: Significant(Stage(lines)) == Print(blocks)
                               && RunFits(blocks, expected, expectedCovers, registry)
                               && counts == Counts(|expected|, 0, Shortfall(blocks))
  {
    hide Print, Significant, Step, StateOf, RunFits, Shortfall, Count, IndexOf, Conclude;
    if LogOf(lines, expected, expectedCovers, registry) == Ok(counts) {
      var blocks, running := ScanSound(Stage(lines));
      ConcludeNeedsIdle(blocks, running, expected, expectedCovers, registry);
      assert Print(blocks) + [] == Print(blocks);
      ConcludeOnRun(blocks, expected, expectedCovers, registry, counts);
    }
    if Framed(lines) {
      forall blocks | Significant(Stage(lines)) == Print(blocks) && RunFits(blocks, expected, expectedCovers, registry)
                      && counts == Counts(|expected|, 0, Shortfall(blocks))
        ensures LogOf(lines, expected, expectedCovers, registry) == Ok(counts)
      {
        FittingIsProper(blocks, expected, expectedCovers, registry);
        assert Print(blocks) + PrintRunning(Idle) == Print(blocks);
        ScanComplete(Stage(lines), blocks, Idle);
        ConcludeOnRun(blocks, expected, expectedCovers, registry, counts);
      }
    }
  }

  lemma FittingIsProper(blocks: seq<Block>, expected: seq<Name>, expectedCovers: seq<Name>, registry: Option<seq<Name>>)
    requires RunFits(blocks, expected, expectedCovers, registry)
    ensures ProperRun(blocks, Idle)
  {
  }

  lemma ConcludeNeedsIdle(blocks: seq<Block>, running: Running, expected: seq<Name>, expectedCovers: seq<Name>,
                          registry: Option<seq<Name>>)
    requires ProperRun(blocks, running)
    requires Conclude(StateOf(blocks, running), expected, expectedCovers, registry).Ok?
    ensures running.Idle?
  {
  }

  lemma {:induction false} CountConcat(a: seq<Line>, b: seq<Line>, x: Line)
    ensures Count(a + b, x) == Count(a, x) + Count(b, x)
  {
    if |a| == 0 {
      assert a + b == b;
    } else {
      assert (a + b)[1..] == a[1..] + b;
      CountConcat(a[1..], b, x);
    }
  }

  /** A line that occurs first after a prefix without it. */
  lemma {:induction false} FirstAfter(a: seq<Line>, x: Line, b: seq<Line>)
    requires Count(a, x) == 0
    ensures var all := a + [x] + b; x in all && IndexOf(all, x) == |a| && Count(all, x) == 1 + Count(b, x)
  {
    var all := a + [x] + b;
    assert all[|a|] == x;
    if |a| > 0 {
      FirstAfter(a[1..], x, b);
      assert all[1..] == a[1..] + [x] + b;
      assert all[0] == a[0] != x;
    } else {
      assert all[1..] == b;
    }
  }

  /** Neither marker occurs in s. */
  predicate Unmarked(s: seq<Line>) {
    Count(s, KaniStart) == 0 && Count(s, KaniEnd) == 0
  }

  lemma UnmarkedRest(stage: seq<Line>, after: seq<Line>)
    requires Unmarked(stage) && Unmarked(after)
    ensures Count(stage + [KaniEnd] + after, KaniStart) == 0
    ensures forall before :: Unmarked(before) ==> Count(before + [KaniStart] + stage, KaniEnd) == 0
  {
    CountConcat(stage, [KaniEnd], KaniStart);
    CountConcat(stage + [KaniEnd], after, KaniStart);
    forall before | Unmarked(before) ensures Count(before + [KaniStart] + stage, KaniEnd) == 0 {
      CountConcat(before, [KaniStart], KaniEnd);
      CountConcat(before + [KaniStart], stage, KaniEnd);
    }
  }

  /** A log put together from a stage between the markers is framed, with that stage. */
  lemma FramedLog(before: seq<Line>, stage: seq<Line>, after: seq<Line>)
    requires Unmarked(before) && Unmarked(stage) && Unmarked(after)
    requires |after| > 0 && LeanPass in after && after[|after| - 1] == FullPass
    ensures var lines := before + [KaniStart] + stage + [KaniEnd] + after; Framed(lines) && Stage(lines) == stage
  {
    hide Count, IndexOf;
    var lines := before + [KaniStart] + stage + [KaniEnd] + after;
    var rest, front := stage + [KaniEnd] + after, before + [KaniStart] + stage;
    assert lines == before + [KaniStart] + rest;
    UnmarkedRest(stage, after);
    FirstAfter(before, KaniStart, rest);
    FirstAfter(front, KaniEnd, after);
    assert lines[|front|..] == [KaniEnd] + after;
    assert lines[|before| + 1..|front|] == stage;
  }

  /** Every log printed from a fitting run is accepted. */
  lemma PrintedLogAccepted(before: seq<Line>, stage: seq<Line>, after: seq<Line>, blocks: seq<Block>,
                           expected: seq<Name>, expectedCovers: seq<Name>, registry: Option<seq<Name>>)
    requires Unmarked(before) && Unmarked(stage) && Unmarked(after)
    requires |after| > 0 && LeanPass in after && after[|after| - 1] == FullPass
    requires Significant(stage) == Print(blocks) && RunFits(blocks, expected, expectedCovers, registry)
    ensures LogOf(before + [KaniStart] + stage + [KaniEnd] + after, expected, expectedCovers, registry).Ok?
  {
    hide Print, Significant, RunFits, Framed, LogOf, Stage, Shortfall, Unmarked;
    var lines := before + [KaniStart] + stage + [KaniEnd] + after;
    FramedLog(before, stage, after);
    LogAccepted(lines, expected, expectedCovers, registry, Counts(|expected|, 0, Shortfall(blocks)));
  }

  /** A log in its parts: one stage between the markers, the Lean pass after it, and the final pass at the very end. */
  ghost predicate IsLog(lines: seq<Line>, before: seq<Line>, stage: seq<Line>, after: seq<Line>) {
    && lines == before + [KaniStart] + stage + [KaniEnd] + after
    && KaniStart !in before + stage + after && KaniEnd !in before + stage + after
    && LeanPass in after && after[|after| - 1] == FullPass
  }

  lemma CutAt(lines: seq<Line>, x: Line)
    requires x in lines && Count(lines, x) == 1
    ensures var i := IndexOf(lines, x);
      && Count(lines[..i], x) == 0 && Count(lines[i + 1..], x) == 0
  {
    var i := IndexOf(lines, x);
    assert lines == lines[..i] + [x] + lines[i + 1..];
    CountConcat(lines[..i], [x], x);
    CountConcat(lines[..i] + [x], lines[i + 1..], x);
    assert Count([x], x) == 1;
  }

  /** Every framed log has those parts. */
  lemma FramedParts(lines: seq<Line>) returns (before: seq<Line>, after: seq<Line>)
    requires Framed(lines)
    ensures IsLog(lines, before, Stage(lines), after)
  {
    CutAt(lines, KaniStart);
    CutAt(lines, KaniEnd);
    hide Count, IndexOf;
    var start, end, stage := IndexOf(lines, KaniStart), IndexOf(lines, KaniEnd), Stage(lines);
    before, after := lines[..start], lines[end + 1..];
    PartsJoin(lines, start, end);
    PartsUnmarked(before, stage, after);
  }

  lemma PartsJoin(lines: seq<Line>, start: nat, end: nat)
    requires start < end < |lines| && lines[start] == KaniStart && lines[end] == KaniEnd
    requires LeanPass in lines[end..] && lines[|lines| - 1] == FullPass
    ensures var before, stage, after := lines[..start], lines[start + 1..end], lines[end + 1..];
      && lines[start + 1..] == stage + [KaniEnd] + after && lines[..end] == before + [KaniStart] + stage
      && lines == before + [KaniStart] + stage + [KaniEnd] + after
      && LeanPass in after && after[|after| - 1] == FullPass
  {
    assert lines[end..] == [KaniEnd] + lines[end + 1..];
  }

  lemma PartsUnmarked(before: seq<Line>, stage: seq<Line>, after: seq<Line>)
    requires Count(before, KaniStart) == 0 && Count(stage + [KaniEnd] + after, KaniStart) == 0
    requires Count(before + [KaniStart] + stage, KaniEnd) == 0 && Count(after, KaniEnd) == 0
    ensures KaniStart !in before + stage + after && KaniEnd !in before + stage + after
  {
    CountPositive(before, KaniStart);
    CountPositive(stage + [KaniEnd] + after, KaniStart);
    CountPositive(before + [KaniStart] + stage, KaniEnd);
    CountPositive(after, KaniEnd);
  }

  lemma PartsFramed(lines: seq<Line>, before: seq<Line>, stage: seq<Line>, after: seq<Line>)
    requires IsLog(lines, before, stage, after)
    ensures Framed(lines) && Stage(lines) == stage
  {
    forall x | x == KaniStart || x == KaniEnd
      ensures Count(before, x) == 0 && Count(stage, x) == 0 && Count(after, x) == 0
    {
      CountPositive(before, x);
      CountPositive(stage, x);
      CountPositive(after, x);
    }
    hide Framed, Stage, Count;
    FramedLog(before, stage, after);
  }

  /**
    A log is accepted exactly when it falls into those parts and its stage, ignored lines aside, is what a fitting
    run prints.
   */
  lemma LogAcceptedExactly(lines: seq<Line>, expected: seq<Name>, expectedCovers: seq<Name>,
                           registry: Option<seq<Name>>, counts: Counts)
    ensures LogOf(lines, expected, expectedCovers, registry) == Ok(counts)
      <==> exists before, stage, after, blocks ::
             && IsLog(lines, before, stage, after)
             && Significant(stage) == Print(blocks) && RunFits(blocks, expected, expectedCovers, registry)
             && counts == Counts(|expected|, 0, Shortfall(blocks))
  {
    LogAccepted(lines, expected, expectedCovers, registry, counts);
    hide Framed, LogOf, Stage, IsLog, Significant, Print, RunFits, Shortfall;
    if LogOf(lines, expected, expectedCovers, registry) == Ok(counts) {
      var before, after := FramedParts(lines);
    }
    forall before, stage, after | IsLog(lines, before, stage, after)
      ensures Framed(lines) && Stage(lines) == stage
    {
      PartsFramed(lines, before, stage, after);
    }
  }

  // ---------------------------------------------------------------- the lines of an accepted stage

  lemma {:induction false} SignificantCount(stage: seq<Line>, x: Line)
    ensures Count(Significant(stage), x)
      == if x.Start? || x.Cover? || x.OddCover? || x.Verdict? then Count(stage, x) else 0
  {
    if |stage| > 0 {
      var init, line := stage[..|stage| - 1], stage[|stage| - 1];
      assert stage == init + [line];
      SignificantCount(init, x);
      CountConcat(init, [line], x);
      CountConcat(Significant(init), if IsSignificant(line) then [line] else [], x);
    }
  }

  lemma {:induction false} PrintCount(blocks: seq<Block>, x: Line)
    requires !x.Cover?
    ensures Count(Print(blocks), x)
      == match x
         case Start(name) => multiset(BlockNames(blocks))[name]
         case Verdict(successful) => if successful then |blocks| else 0
         case _ => 0
  {
    if |blocks| > 0 {
      var init, b := blocks[..|blocks| - 1], blocks[|blocks| - 1];
      PrintCount(init, x);
      CountConcat(Print(init), Opening(b) + [Verdict(true)], x);
      BlockCount(b, x);
      assert BlockNames(blocks) == BlockNames(init) + [b.name];
    }
  }

  lemma BlockCount(b: Block, x: Line)
    requires !x.Cover?
    ensures Count(Opening(b) + [Verdict(true)], x) == if x == Start(b.name) || x == Verdict(true) then 1 else 0
  {
    CountConcat(Opening(b), [Verdict(true)], x);
    CountOne(Start(b.name), x);
    CountOne(Verdict(true), x);
    if b.cover.Some? {
      var cover := Cover(b.cover.value.0, b.cover.value.1);
      CountConcat([Start(b.name)], [cover], x);
      CountOne(cover, x);
    } else {
      assert Opening(b) == [Start(b.name)];
    }
  }

  lemma CountOne(y: Line, x: Line)
    ensures Count([y], x) == if x == y then 1 else 0
  {
    assert [y][1..] == [];
  }

  /**
    In an accepted log every harness of the roster is started, as often as the roster names it; as many verdicts
    were reached, all successful; and no cover summary is in another form.
   */
  lemma AcceptedLines(lines: seq<Line>, expected: seq<Name>, expectedCovers: seq<Name>, registry: Option<seq<Name>>)
    requires LogOf(lines, expected, expectedCovers, registry).Ok?
    ensures exists before, stage, after ::
      && IsLog(lines, before, stage, after)
      && (forall name :: Count(stage, Start(name)) == multiset(expected)[name])
      && Count(stage, Verdict(true)) == |expected| && Count(stage, Verdict(false)) == 0
      && Count(stage, OddCover) == 0
  {
    var counts := LogOf(lines, expected, expectedCovers, registry).value;
    LogAcceptedExactly(lines, expected, expectedCovers, registry, counts);
    hide LogOf, IsLog, Count, Significant, Print, Shortfall;
    var before, stage, after, blocks :| IsLog(lines, before, stage, after)
      && Significant(stage) == Print(blocks) && RunFits(blocks, expected, expectedCovers, registry)
      && counts == Counts(|expected|, 0, Shortfall(blocks));
    hide RunFits;
    StageLines(stage, blocks, expected, expectedCovers, registry);
  }

  lemma StageLines(stage: seq<Line>, blocks: seq<Block>, expected: seq<Name>, expectedCovers: seq<Name>,
                   registry: Option<seq<Name>>)
    requires Significant(stage) == Print(blocks) && RunFits(blocks, expected, expectedCovers, registry)
    ensures forall name :: Count(stage, Start(name)) == multiset(expected)[name]
    ensures Count(stage, Verdict(true)) == |expected| && Count(stage, Verdict(false)) == 0
    ensures Count(stage, OddCover) == 0
  {
    assert |multiset(BlockNames(blocks))| == |multiset(expected)|;
    hide Count, Significant, Print, BlockNames;
    forall x: Line | x.Start? || x.Verdict? || x.OddCover? ensures Count(stage, x) == Count(Print(blocks), x) {
      SignificantCount(stage, x);
    }
    forall name ensures Count(stage, Start(name)) == multiset(expected)[name] { PrintCount(blocks, Start(name)); }
    PrintCount(blocks, Verdict(true));
    PrintCount(blocks, Verdict(false));
    PrintCount(blocks, OddCover);
  }
}
