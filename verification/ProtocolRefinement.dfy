/**
  The protocol's processes against the sequential store: a process that holds the lock carries out one of the
  sequential operations on the store it found, and a reader's memory is of states the store went through.
 */
module ProtocolRefinement {
  import opened Bytes
  import opened RunStore
  import opened EvidenceProtocol

  /** How many writes of its retirement a process has made. */
  function Stage(proc: Proc): nat
    requires Victimizes(proc)
  {
    match proc
    case Marked(_, _) => 1
    case Noted(_, _) => 2
    case ReceiptMoved(_, _) => 3
    case LogMoved(_, _) => 4
    case _ => 0
  }

  /** The store found by a recording process was fit to record on. */
  predicate FitToRecord(st: Store) {
    st.index.None? || Trusted(st)
  }

  /** A recording of r on the store `start`, up to and including its receipt file. */
  function WithReceipt(start: Store, r: Receipt): Store {
    WriteReceipt(WriteLog(start, r.id, r.log), r)
  }

  /** What the holder of the lock, having found the store `start`, has made of it by now. */
  ghost predicate Since(start: Store, st: Store, proc: Proc) {
    match proc
    case Locked => st == start
    case Checked => st == start && FitToRecord(start)
    case Logging(id, _) => FitToRecord(start) && id in st.logs && st == WriteLog(start, id, st.logs[id])
    case Captured(id, _, log, _) => FitToRecord(start) && st == WriteLog(start, id, log)
    case Receipted(r) => FitToRecord(start) && r.sound && st == WithReceipt(start, r)
    case Reffed(r) => FitToRecord(start) && r.sound && st == WriteRef(WithReceipt(start, r), r.id, r.commit)
    case IndexRead(r, entries) =>
      && FitToRecord(start) && r.sound && st == WriteRef(WithReceipt(start, r), r.id, r.commit)
      && entries == Entries(start)
    case RetireLocked(_) => st == start
    case RetireRead(id, entries) => st == start && entries == Entries(start) && id in entries
    case RegistryRead(id, entries, registry) =>
      st == start && entries == Entries(start) && id in entries && registry == start.retired
    case Marked(id, entries) => entries == Entries(start) && id in entries && st == RetireSteps(start, id, 1)
    case Noted(id, entries) => entries == Entries(start) && id in entries && st == RetireSteps(start, id, 2)
    case ReceiptMoved(id, entries) => entries == Entries(start) && id in entries && st == RetireSteps(start, id, 3)
    case LogMoved(id, entries) => entries == Entries(start) && id in entries && st == RetireSteps(start, id, 4)
    case Releasing => Completed(start, st)
    case _ => true
  }

  /** A whole operation of the sequential store. */
  ghost predicate Completed(start: Store, st: Store) {
    || (exists id :: id in Entries(start) && st == Retired(start, id))
    || (exists r: Receipt :: r.sound && (start.index.None? || Trusted(start)) && st == Recorded(start, r))
  }

  // The steps of a recording, one file operation at a time.

  lemma BeforeReceiptSince(start: Store, st: Store, h: History, proc: Proc, a: Action)
    requires Since(start, st, proc) && HolderStep(st, h, proc, a).Some?
    requires proc.Locked? || proc.Checked? || proc.Logging? || proc.Captured?
    ensures var e := HolderStep(st, h, proc, a).value; Since(start, e.store, e.proc)
  {
    hide Trusted, RetireSteps, Completed;
  }

  lemma PutRefSince(start: Store, st: Store, h: History, proc: Proc)
    requires Since(start, st, proc) && PutSourceRef(st, h, proc).Some?
    ensures var e := PutSourceRef(st, h, proc).value; Since(start, e.store, e.proc)
  {
    hide FitToRecord, WithReceipt, RetireSteps, Completed;
  }

  lemma ReadIndexSince(start: Store, st: Store, h: History, proc: Proc)
    requires Since(start, st, proc) && ReadIndexFile(st, h, proc).Some?
    ensures var e := ReadIndexFile(st, h, proc).value; Since(start, e.store, e.proc)
  {
    hide FitToRecord, RetireSteps, Completed;
  }

  lemma PutIndexSince(start: Store, st: Store, h: History, proc: Proc)
    requires Since(start, st, proc) && PutIndexFile(st, h, proc).Some?
    ensures var e := PutIndexFile(st, h, proc).value; Since(start, e.store, e.proc)
  {
    hide Trusted, RetireSteps;
    assert PutIndexFile(st, h, proc).value.store == Recorded(start, proc.receipt);
  }

  lemma RecordSince(start: Store, st: Store, h: History, proc: Proc, a: Action)
    requires Since(start, st, proc) && HolderStep(st, h, proc, a).Some? && !Victimizes(proc) && !proc.RetireLocked?
    ensures var e := HolderStep(st, h, proc, a).value; Since(start, e.store, e.proc)
  {
    RecordingActions(st, h, proc, a);
    if proc.Locked? || proc.Checked? || proc.Logging? || proc.Captured? {
      BeforeReceiptSince(start, st, h, proc, a);
    } else {
      hide Since, PutSourceRef, ReadIndexFile, PutIndexFile;
      match a {
        case PutRef => PutRefSince(start, st, h, proc);
        case ReadIndex => ReadIndexSince(start, st, h, proc);
        case _ => PutIndexSince(start, st, h, proc);
      }
    }
  }

  lemma RecordingActions(st: Store, h: History, proc: Proc, a: Action)
    requires HolderStep(st, h, proc, a).Some? && !Victimizes(proc) && !proc.RetireLocked?
    ensures proc.Locked? || proc.Checked? || proc.Logging? || proc.Captured? || a.PutRef? || a.ReadIndex? || a.PutIndex?
  {
    hide Trusted;
  }

  // The steps of a retirement, one file operation at a time.

  lemma ReadVictimSince(start: Store, st: Store, h: History, proc: Proc)
    requires Since(start, st, proc) && ReadVictimEntry(st, h, proc).Some?
    ensures var e := ReadVictimEntry(st, h, proc).value; Since(start, e.store, e.proc)
  {
    hide RetireSteps, Completed;
  }

  lemma ReadRegistrySince(start: Store, st: Store, h: History, proc: Proc)
    requires Since(start, st, proc) && ReadRegistryFile(st, h, proc).Some?
    ensures var e := ReadRegistryFile(st, h, proc).value; Since(start, e.store, e.proc)
  {
    hide RetireSteps, Completed;
  }

  lemma PutRegistrySince(start: Store, st: Store, h: History, proc: Proc)
    requires Since(start, st, proc) && PutRegistryFile(st, h, proc).Some?
    ensures var e := PutRegistryFile(st, h, proc).value; Since(start, e.store, e.proc)
  {
    RetireStepsAreTheWrites(start, proc.id);
    hide RetireSteps, Completed;
  }

  lemma AppendNoteSince(start: Store, st: Store, h: History, proc: Proc)
    requires Since(start, st, proc) && AppendRetirementNote(st, h, proc).Some?
    ensures var e := AppendRetirementNote(st, h, proc).value; Since(start, e.store, e.proc)
  {
    RetireStepsAreTheWrites(start, proc.id);
    hide RetireSteps, Completed;
  }

  lemma MoveReceiptSince(start: Store, st: Store, h: History, proc: Proc)
    requires Since(start, st, proc) && QuarantineReceipt(st, h, proc).Some?
    ensures var e := QuarantineReceipt(st, h, proc).value; Since(start, e.store, e.proc)
  {
    RetireStepsAreTheWrites(start, proc.id);
    hide RetireSteps, Completed, MoveReceipt;
  }

  lemma MoveLogSince(start: Store, st: Store, h: History, proc: Proc)
    requires Since(start, st, proc) && QuarantineLog(st, h, proc).Some?
    ensures var e := QuarantineLog(st, h, proc).value; Since(start, e.store, e.proc)
  {
    RetireStepsAreTheWrites(start, proc.id);
    hide RetireSteps, Completed, MoveLog;
  }

  lemma DropIndexSince(start: Store, st: Store, h: History, proc: Proc)
    requires Since(start, st, proc) && DropFromIndex(st, h, proc).Some?
    ensures var e := DropFromIndex(st, h, proc).value; Since(start, e.store, e.proc)
  {
    RetireStepsAreTheWrites(start, proc.id);
    StepEntries(start, proc.id);
    hide RetireSteps;
    assert DropFromIndex(st, h, proc).value.store == Retired(start, proc.id);
  }

  lemma RetireSince(start: Store, st: Store, h: History, proc: Proc, a: Action)
    requires Since(start, st, proc) && HolderStep(st, h, proc, a).Some? && (Victimizes(proc) || proc.RetireLocked?)
    ensures var e := HolderStep(st, h, proc, a).value; Since(start, e.store, e.proc)
  {
    RetiringActions(st, h, proc, a);
    hide Since, ReadVictimEntry, ReadRegistryFile, PutRegistryFile, AppendRetirementNote;
    hide QuarantineReceipt, QuarantineLog, DropFromIndex;
    match a {
      case ReadVictim => ReadVictimSince(start, st, h, proc);
      case ReadRegistry => ReadRegistrySince(start, st, h, proc);
      case PutRegistry => PutRegistrySince(start, st, h, proc);
      case AppendNote => AppendNoteSince(start, st, h, proc);
      case MoveReceiptFile => MoveReceiptSince(start, st, h, proc);
      case MoveLogFile => MoveLogSince(start, st, h, proc);
      case _ => DropIndexSince(start, st, h, proc);
    }
  }

  lemma RetiringActions(st: Store, h: History, proc: Proc, a: Action)
    requires HolderStep(st, h, proc, a).Some? && (Victimizes(proc) || proc.RetireLocked?)
    ensures a.ReadVictim? || a.ReadRegistry? || a.PutRegistry? || a.AppendNote? || a.MoveReceiptFile? || a.MoveLogFile?
      || a.DropIndexEntry?
  {
    hide Trusted;
  }

  lemma StepEntries(start: Store, id: Id)
    requires id in Entries(start)
    ensures Entries(RetireSteps(start, id, 4)) == Entries(start)
  {
  }

  /**
    A process that holds the lock took it at some earlier state of the run, has held it since, and has carried the
    store of that state forward by the writes of one operation.
   */
  lemma {:induction false} HolderSince(run: seq<Sys>, n: nat, j: nat, p: nat) returns (i: nat)
    requires IsRun(run, n) && j < |run| && p < n && p < |run[j].procs| && Holds(run[j].procs[p])
    ensures i <= j && Since(run[i].store, run[j].store, run[j].procs[p])
    ensures forall m: nat :: i <= m <= j ==> p < |run[m].procs| && Holds(run[m].procs[p])
    decreases j
  {
    hide Inv, Step, Since, Holds, Initial;
    RunKeeps(run, n, j);
    if j == 0 {
      InitialIdle(n, p);
    } else {
      RunKeeps(run, n, j - 1);
      assert Next(run[j - 1], run[j]);
      var q: nat, a :| q < |run[j - 1].procs| && Step(run[j - 1], q, a) == Some(run[j]);
      if HoldsAt(run[j - 1], p) {
        i := HolderSince(run, n, j - 1, p);
        SinceStep(run[i].store, run[j - 1], q, a, p);
      } else {
        i := j;
        JustLocked(run[j - 1], q, a, p);
      }
    }
  }

  predicate HoldsAt(s: Sys, p: nat) {
    p < |s.procs| && Holds(s.procs[p])
  }

  lemma InitialIdle(n: nat, p: nat)
    requires p < n
    ensures p < |Initial(n).procs| && !Holds(Initial(n).procs[p])
  {
  }

  /** A process that holds the lock now and did not before has just taken it. */
  lemma JustLocked(s: Sys, q: nat, a: Action, p: nat)
    requires q < |s.procs| && p < |s.procs| && Step(s, q, a).Some? && !Holds(s.procs[p])
    requires var t := Step(s, q, a).value; p < |t.procs| && Holds(t.procs[p])
    ensures var t := Step(s, q, a).value; Since(t.store, t.store, t.procs[p])
  {
    hide HolderStep;
    if HolderStep(s.store, s.history, s.procs[q], a).Some? { HolderStepHolds(s.store, s.history, s.procs[q], a); }
    hide ReadStep;
    if ReadStep(s.store, s.procs[q], a).Some? { ReadStepReads(s.store, s.procs[q], a); }
  }

  lemma ReadStepReads(st: Store, proc: Proc, a: Action)
    requires ReadStep(st, proc, a).Some?
    ensures IsReader(ReadStep(st, proc, a).value)
  {
  }

  /** A step while p holds the lock, by p or by another process. */
  lemma SinceStep(start: Store, s: Sys, q: nat, a: Action, p: nat)
    requires Inv(s) && q < |s.procs| && p < |s.procs| && Step(s, q, a).Some?
    requires Holds(s.procs[p]) && Since(start, s.store, s.procs[p])
    requires var t := Step(s, q, a).value; p < |t.procs| && Holds(t.procs[p])
    ensures var t := Step(s, q, a).value; Since(start, t.store, t.procs[p])
  {
    hide HolderStep, ReadStep, Since, StoreOk, HolderOk, ReaderOk;
    assert ProcOk(s, p) && ProcOk(s, q);
    if HolderStep(s.store, s.history, s.procs[q], a).Some? {
      HolderStepHolds(s.store, s.history, s.procs[q], a);
      if q == p {
        if Victimizes(s.procs[p]) || s.procs[p].RetireLocked? {
          RetireSince(start, s.store, s.history, s.procs[p], a);
        } else {
          RecordSince(start, s.store, s.history, s.procs[p], a);
        }
      }
    }
    if ReadStep(s.store, s.procs[q], a).Some? { ReadStepReads(s.store, s.procs[q], a); }
  }

  // ---------------------------------------------------------------- retirements in a run

  /** The store of a run in the middle of a retirement: the store that the retiring process found, some writes later. */
  lemma RetirementIsSteps(run: seq<Sys>, n: nat, j: nat, p: nat) returns (i: nat)
    requires IsRun(run, n) && j < |run| && p < n && p < |run[j].procs| && Victimizes(run[j].procs[p])
    ensures var proc := run[j].procs[p];
      i <= j && proc.id in Entries(run[i].store) && run[j].store == RetireSteps(run[i].store, proc.id, Stage(proc))
    ensures forall m: nat :: i <= m <= j ==> p < |run[m].procs| && Holds(run[m].procs[p])
  {
    hide RetireSteps, IsRun;
    i := HolderSince(run, n, j, p);
    RetireStepsAreTheWrites(run[i].store, run[j].procs[p].id);
  }

  /** Wherever in it the retiring process is stopped, retiring again completes what was begun, notes aside. */
  lemma RetirementResumesInRun(run: seq<Sys>, n: nat, j: nat, p: nat) returns (i: nat)
    requires IsRun(run, n) && j < |run| && p < n && p < |run[j].procs| && Victimizes(run[j].procs[p])
    ensures var id := run[j].procs[p].id;
      && i <= j && id in Entries(run[i].store) && id in Entries(run[j].store)
      && SameButNotes(Retired(run[j].store, id), Retired(run[i].store, id))
  {
    hide IsRun, Retired, SameButNotes, RetireSteps;
    i := RetirementIsSteps(run, n, j, p);
    RetireResumes(run[i].store, run[j].procs[p].id, Stage(run[j].procs[p]));
  }

  /** And every other run verifies then as it did when the retirement began. */
  lemma RetirementFramesInRun(run: seq<Sys>, n: nat, j: nat, p: nat, other: Id) returns (i: nat)
    requires IsRun(run, n) && j < |run| && p < n && p < |run[j].procs| && Victimizes(run[j].procs[p])
    requires other != run[j].procs[p].id
    ensures i <= j
    ensures var s, t := run[i].store, run[j].store;
      && (other in Entries(t) <==> other in Entries(s))
      && (other in Entries(s) ==> Entries(t)[other] == Entries(s)[other])
      && (other in t.retired <==> other in s.retired)
      && forall pin :: EntryVerifies(t, other, pin) <==> EntryVerifies(s, other, pin)
  {
    hide IsRun, RetireSteps, EntryVerifies;
    i := RetirementIsSteps(run, n, j, p);
    RetireFrames(run[i].store, run[j].procs[p].id, Stage(run[j].procs[p]), other);
  }

  /** When a process is about to free the lock, it has carried out one whole operation on the store it found. */
  lemma OperationCompletes(run: seq<Sys>, n: nat, j: nat, p: nat) returns (i: nat)
    requires IsRun(run, n) && j < |run| && p < n && p < |run[j].procs| && run[j].procs[p].Releasing?
    ensures i <= j && Completed(run[i].store, run[j].store)
    ensures forall m: nat :: i <= m <= j ==> p < |run[m].procs| && Holds(run[m].procs[p])
  {
    hide IsRun, Completed;
    i := HolderSince(run, n, j, p);
  }

  // ---------------------------------------------------------------- what a reader read

  /** Between states k and i, some state of the run had that receipt, that ref, or that log. */
  ghost predicate SawReceipt(run: seq<Sys>, k: nat, i: nat, id: Id, receipt: Receipt)
    requires i < |run|
  {
    exists m: nat :: k <= m <= i && id in run[m].store.receipts && run[m].store.receipts[id] == receipt
  }

  ghost predicate SawRef(run: seq<Sys>, k: nat, i: nat, id: Id, commit: nat)
    requires i < |run|
  {
    exists m: nat :: k <= m <= i && id in run[m].store.refs && run[m].store.refs[id] == commit
  }

  ghost predicate SawLog(run: seq<Sys>, k: nat, i: nat, id: Id, log: Log)
    requires i < |run|
  {
    exists m: nat :: k <= m <= i && id in run[m].store.logs && run[m].store.logs[id] == log
  }

  /** The files of every run the reader has verified, and of the one it is at, were seen between the two states. */
  ghost predicate SawFiles(run: seq<Sys>, k: nat, i: nat, proc: Proc)
    requires i < |run| && SawRegistry(proc)
  {
    && (forall id :: id in proc.done ==>
          var x := proc.done[id];
          SawReceipt(run, k, i, id, x) && SawRef(run, k, i, id, x.commit) && SawLog(run, k, i, id, x.log))
    && (proc.Parsed? || proc.RefChecked? ==> SawReceipt(run, k, i, proc.id, proc.receipt))
    && (proc.RefChecked? ==> SawRef(run, k, i, proc.id, proc.receipt.commit))
  }

  /** One read of a file, from one state of the reader to the next. */
  ghost predicate ReadsFile(st: Store, was: Proc, proc: Proc) {
    match proc
    case Verifying(_, _, done) =>
      || (was.Reading? && done == map[])
      || (was.RefChecked? && done == was.done[was.id := was.receipt]
          && was.id in st.logs && st.logs[was.id] == was.receipt.log)
    case Hashed(_, _, done, _) => was.Verifying? && done == was.done
    case Parsed(_, _, done, id, receipt) =>
      was.Hashed? && done == was.done && id in st.receipts && st.receipts[id] == receipt
    case RefChecked(_, _, done, id, receipt) =>
      && was.Parsed? && done == was.done && id == was.id && receipt == was.receipt
      && id in st.refs && st.refs[id] == receipt.commit
    case Returned(_, _, done) => was.Verifying? && done == was.done
    case _ => false
  }

  lemma FileStep(s: Sys, q: nat, a: Action, p: nat)
    requires q < |s.procs| && p < |s.procs| && Step(s, q, a).Some?
    requires var t := Step(s, q, a).value; p < |t.procs| && SawRegistry(t.procs[p])
    ensures var t := Step(s, q, a).value;
      t.procs[p] == s.procs[p] || ReadsFile(s.store, s.procs[p], t.procs[p])
  {
    hide HolderStep;
    if HolderStep(s.store, s.history, s.procs[q], a).Some? { HolderStepStays(s.store, s.history, s.procs[q], a); }
  }

  lemma LaterSees(run: seq<Sys>, k: nat, i: nat, proc: Proc)
    requires 0 < i < |run| && SawRegistry(proc) && SawFiles(run, k, i - 1, proc)
    ensures SawFiles(run, k, i, proc)
  {
    hide SawRegistry;
    forall id, receipt | SawReceipt(run, k, i - 1, id, receipt) ensures SawReceipt(run, k, i, id, receipt) {
      var m: nat :| k <= m <= i - 1 && id in run[m].store.receipts && run[m].store.receipts[id] == receipt;
    }
    forall id, commit | SawRef(run, k, i - 1, id, commit) ensures SawRef(run, k, i, id, commit) {
      var m: nat :| k <= m <= i - 1 && id in run[m].store.refs && run[m].store.refs[id] == commit;
    }
    forall id, log | SawLog(run, k, i - 1, id, log) ensures SawLog(run, k, i, id, log) {
      var m: nat :| k <= m <= i - 1 && id in run[m].store.logs && run[m].store.logs[id] == log;
    }
  }

  /** A reader that goes on reading adds what it reads to what it has seen. */
  lemma ReadAdds(run: seq<Sys>, k: nat, i: nat, was: Proc, proc: Proc)
    requires 0 < i < |run| && k <= i - 1 && SawRegistry(was) && SawRegistry(proc) && SawFiles(run, k, i - 1, was)
    requires ReadsFile(run[i - 1].store, was, proc)
    ensures SawFiles(run, k, i, proc)
  {
    LaterSees(run, k, i, was);
    var st := run[i - 1].store;
    assert proc.Parsed? ==> SawReceipt(run, k, i, proc.id, proc.receipt);
    assert proc.RefChecked? ==> SawRef(run, k, i, proc.id, proc.receipt.commit);
    assert was.RefChecked? && was.id in st.logs ==> SawLog(run, k, i, was.id, st.logs[was.id]);
    hide SawReceipt, SawRef, SawLog;
  }

  lemma FirstSight(run: seq<Sys>, k: nat, i: nat, proc: Proc)
    requires i < |run| && proc.Verifying? && proc.done == map[]
    ensures SawFiles(run, k, i, proc)
  {
  }

  /** The index and the registry a reader remembers are those of states of the run, in that order, and what it has
      verified since are files of states from there on. */
  lemma {:induction false} ReaderSaw(run: seq<Sys>, n: nat, i: nat, p: nat) returns (j: nat, k: nat)
    requires IsRun(run, n) && i < |run| && p < n && p < |run[i].procs| && IsReader(run[i].procs[p])
    ensures j <= k <= i && run[j].store.index == Some(run[i].procs[p].entries)
    ensures SawRegistry(run[i].procs[p]) ==> run[k].store.retired == run[i].procs[p].seen
    ensures SawRegistry(run[i].procs[p]) ==> SawFiles(run, k, i, run[i].procs[p])
    decreases i
  {
    hide Inv, Step, IsReader, SawRegistry, Initial, SawFiles, ReadsFile;
    RunKeeps(run, n, i);
    if i == 0 {
      InitialNoReader(n, p);
    } else {
      RunKeeps(run, n, i - 1);
      assert Next(run[i - 1], run[i]);
      var q: nat, a :| q < |run[i - 1].procs| && Step(run[i - 1], q, a) == Some(run[i]);
      ReaderStep(run[i - 1], q, a, p);
      if IsReader(run[i - 1].procs[p]) {
        j, k := ReaderSaw(run, n, i - 1, p);
        if !SawRegistry(run[i - 1].procs[p]) { k := i; }
        if SawRegistry(run[i].procs[p]) {
          FileStep(run[i - 1], q, a, p);
          FilesSeen(run, k, i, run[i - 1].procs[p], run[i].procs[p]);
        }
      } else {
        j, k := i, i;
      }
    }
  }

  /** Either way of getting to state i. */
  lemma FilesSeen(run: seq<Sys>, k: nat, i: nat, was: Proc, proc: Proc)
    requires 0 < i < |run| && k <= i && SawRegistry(proc)
    requires proc == was || ReadsFile(run[i - 1].store, was, proc)
    requires SawRegistry(was) ==> k <= i - 1 && SawFiles(run, k, i - 1, was)
    ensures SawFiles(run, k, i, proc)
  {
    hide SawFiles;
    if !SawRegistry(was) {
      FirstSight(run, k, i, proc);
    } else if proc == was {
      LaterSees(run, k, i, proc);
    } else {
      ReadAdds(run, k, i, was, proc);
    }
  }

  lemma InitialNoReader(n: nat, p: nat)
    requires p < n
    ensures p < |Initial(n).procs| && !IsReader(Initial(n).procs[p])
  {
  }

  /** What a step does to what a reader remembers. */
  lemma ReaderStep(s: Sys, q: nat, a: Action, p: nat)
    requires q < |s.procs| && p < |s.procs| && Step(s, q, a).Some?
    requires var t := Step(s, q, a).value; p < |t.procs| && IsReader(t.procs[p])
    ensures var t := Step(s, q, a).value; var was, proc := s.procs[p], t.procs[p];
      && (!IsReader(was) ==> t.store.index == Some(proc.entries) && !SawRegistry(proc))
      && (IsReader(was) ==> proc.entries == was.entries)
      && (IsReader(was) && SawRegistry(was) ==> SawRegistry(proc) && proc.seen == was.seen)
      && (IsReader(was) && !SawRegistry(was) && SawRegistry(proc) ==> t.store.retired == proc.seen)
  {
    hide HolderStep;
    if HolderStep(s.store, s.history, s.procs[q], a).Some? { HolderStepStays(s.store, s.history, s.procs[q], a); }
  }

  /**
    What a reader returns: exactly the entries of an index that the store had, none of them in a registry that the
    store had at that time or later, and each the receipt its pin hashes, written once. Each of its files was, at
    some state from there on, the one the receipt describes.
   */
  lemma ReaderReturnsPinned(run: seq<Sys>, n: nat, i: nat, p: nat) returns (j: nat, k: nat)
    requires IsRun(run, n) && i < |run| && p < n && p < |run[i].procs| && run[i].procs[p].Returned?
    ensures j <= k <= i
    ensures var result := run[i].procs[p].done;
      && run[j].store.index == Some(result) && result.Keys !! run[k].store.retired.Keys
      && (forall id :: id in result ==>
            && id in run[i].history.written && result[id] == run[i].history.written[id]
            && result[id].id == id && result[id].sound)
      && (forall id :: id in result ==>
            && (exists m: nat :: k <= m <= i && id in run[m].store.receipts && run[m].store.receipts[id] == result[id])
            && (exists m: nat :: k <= m <= i && id in run[m].store.refs && run[m].store.refs[id] == result[id].commit)
            && (exists m: nat :: k <= m <= i && id in run[m].store.logs && run[m].store.logs[id] == result[id].log))
  {
    hide IsRun;
    j, k := ReaderSaw(run, n, i, p);
    ReturnedOk(run, n, i, p);
    WrittenNames(run, n, i);
  }

  lemma WrittenNames(run: seq<Sys>, n: nat, i: nat)
    requires IsRun(run, n) && i < |run|
    ensures var written := run[i].history.written;
      forall id :: id in written ==> written[id].id == id && written[id].sound
  {
    hide IsRun, IndexExact, FilesInPlace, RegistryExact, ProcOk;
    RunKeeps(run, n, i);
  }
}
