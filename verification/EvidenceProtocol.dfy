/**
  Recording, retiring and lock-free reading as interleaved steps, one file operation at a time, with a
  crash allowed between any two.

  A process that fails a check behaves like one that crashes: it gives up its lock and stops.
 */
module EvidenceProtocol {
  import opened Bytes
  import opened RunStore

  type Index = map<Id, Receipt>

  /** Where a process is, and what it remembers of the files it read. */
  datatype Proc =
    | Idle
    // recording, with the lock held
    | Locked
    | Checked
    | Logging(id: Id, commit: nat)
    | Captured(id: Id, commit: nat, log: Log, finished: nat)
    | Receipted(receipt: Receipt)
    | Reffed(receipt: Receipt)
    | IndexRead(receipt: Receipt, entries: Index)
    // retiring, with the lock held
    | RetireLocked(id: Id)
    | RetireRead(id: Id, entries: Index)
    | RegistryRead(id: Id, entries: Index, registry: map<Id, Receipt>)
    | Marked(id: Id, entries: Index)
    | Noted(id: Id, entries: Index)
    | ReceiptMoved(id: Id, entries: Index)
    | LogMoved(id: Id, entries: Index)
    // done, with the lock held
    | Releasing
    // reading, without a lock: the index read, the registry seen, the receipts verified so far
    | Reading(entries: Index)
    | Verifying(entries: Index, seen: map<Id, Receipt>, done: Index)
    | Hashed(entries: Index, seen: map<Id, Receipt>, done: Index, id: Id)
    | Parsed(entries: Index, seen: map<Id, Receipt>, done: Index, id: Id, receipt: Receipt)
    | RefChecked(entries: Index, seen: map<Id, Receipt>, done: Index, id: Id, receipt: Receipt)
    | Returned(entries: Index, seen: map<Id, Receipt>, done: Index)

  /** The ids drawn, the receipts written, and the ids that entered and left the index. */
  datatype History = History(used: set<Id>, written: map<Id, Receipt>, added: set<Id>, removed: set<Id>)

  /** The store, its lock, the processes, and the history so far. */
  datatype Sys = Sys(store: Store, lock: Option<nat>, procs: seq<Proc>, history: History)

  datatype Action =
    | Crash
    | AcquireToRecord | CheckExisting | DrawId(newId: Id, atCommit: nat) | AppendLog(output: Log) | ReadLog(at: nat)
    | PutReceipt | PutRef | ReadIndex | PutIndex
    | AcquireToRetire(victim: Id) | ReadVictim | ReadRegistry | PutRegistry | AppendNote | MoveReceiptFile
    | MoveLogFile | DropIndexEntry
    | Release
    | StartReading | SeeRegistry | HashReceipt(which: Id) | ParseReceipt | CheckRef | CheckLog | Return

  predicate Holds(proc: Proc) {
    !proc.Idle? && !IsReader(proc)
  }

  predicate IsReader(proc: Proc) {
    proc.Reading? || proc.Verifying? || proc.Hashed? || proc.Parsed? || proc.RefChecked? || proc.Returned?
  }

  // ---------------------------------------------------------------- steps

  /** What a step of one process leaves behind: the store, the history, and the process itself. */
  datatype Effect = Effect(store: Store, history: History, proc: Proc)

  // Recording. Each function is one file operation of a process that holds the lock.

  function CheckExistingRuns(st: Store, h: History, proc: Proc): Option<Effect> {
    if proc.Locked? && (st.index.None? || Trusted(st)) then Some(Effect(st, h, Checked)) else None
  }

  function DrawFreshId(st: Store, h: History, proc: Proc, id: Id, commit: nat): Option<Effect> {
    if proc.Checked? && id !in h.used then
      Some(Effect(WriteLog(st, id, []), h.(used := h.used + {id}), Logging(id, commit)))
    else None
  }

  function AppendToLog(st: Store, h: History, proc: Proc, output: Log): Option<Effect> {
    if proc.Logging? && proc.id in st.logs then
      Some(Effect(WriteLog(st, proc.id, st.logs[proc.id] + output), h, proc))
    else None
  }

  function ReadBackLog(st: Store, h: History, proc: Proc, finished: nat): Option<Effect> {
    if proc.Logging? && proc.id in st.logs then
      Some(Effect(st, h, Captured(proc.id, proc.commit, st.logs[proc.id], finished)))
    else None
  }

  function PutReceiptFile(st: Store, h: History, proc: Proc): Option<Effect> {
    if proc.Captured? then
      var receipt := Receipt(proc.id, proc.commit, proc.log, proc.finished, true);
      Some(Effect(WriteReceipt(st, receipt), h.(written := h.written[proc.id := receipt]), Receipted(receipt)))
    else None
  }

  function PutSourceRef(st: Store, h: History, proc: Proc): Option<Effect> {
    if proc.Receipted? && proc.receipt.id !in st.refs then
      Some(Effect(WriteRef(st, proc.receipt.id, proc.receipt.commit), h, Reffed(proc.receipt)))
    else None
  }

  function ReadIndexFile(st: Store, h: History, proc: Proc): Option<Effect> {
    if proc.Reffed? then Some(Effect(st, h, IndexRead(proc.receipt, Entries(st)))) else None
  }

  function PutIndexFile(st: Store, h: History, proc: Proc): Option<Effect> {
    if proc.IndexRead? then
      Some(Effect(st.(index := Some(proc.entries[proc.receipt.id := proc.receipt])),
                  h.(added := h.added + {proc.receipt.id}), Releasing))
    else None
  }

  // Retiring, with the lock held.

  function ReadVictimEntry(st: Store, h: History, proc: Proc): Option<Effect> {
    if proc.RetireLocked? && proc.id in Entries(st) then Some(Effect(st, h, RetireRead(proc.id, Entries(st)))) else None
  }

  function ReadRegistryFile(st: Store, h: History, proc: Proc): Option<Effect> {
    if proc.RetireRead? then Some(Effect(st, h, RegistryRead(proc.id, proc.entries, st.retired))) else None
  }

  function PutRegistryFile(st: Store, h: History, proc: Proc): Option<Effect> {
    if proc.RegistryRead? && proc.id in proc.entries then
      Some(Effect(st.(retired := proc.registry[proc.id := proc.entries[proc.id]]), h, Marked(proc.id, proc.entries)))
    else None
  }

  function AppendRetirementNote(st: Store, h: History, proc: Proc): Option<Effect> {
    if proc.Marked? then Some(Effect(NoteRetired(st, proc.id), h, Noted(proc.id, proc.entries))) else None
  }

  function QuarantineReceipt(st: Store, h: History, proc: Proc): Option<Effect> {
    if proc.Noted? then Some(Effect(MoveReceipt(st, proc.id), h, ReceiptMoved(proc.id, proc.entries))) else None
  }

  function QuarantineLog(st: Store, h: History, proc: Proc): Option<Effect> {
    if proc.ReceiptMoved? then Some(Effect(MoveLog(st, proc.id), h, LogMoved(proc.id, proc.entries))) else None
  }

  function DropFromIndex(st: Store, h: History, proc: Proc): Option<Effect> {
    if proc.LogMoved? then
      Some(Effect(st.(index := IndexFile(proc.entries - {proc.id})), h.(removed := h.removed + {proc.id}), Releasing))
    else None
  }

  /** A step of the lock holder. */
  function HolderStep(st: Store, h: History, proc: Proc, a: Action): Option<Effect> {
    match a
    case CheckExisting => CheckExistingRuns(st, h, proc)
    case DrawId(id, commit) => DrawFreshId(st, h, proc, id, commit)
    case AppendLog(output) => AppendToLog(st, h, proc, output)
    case ReadLog(at) => ReadBackLog(st, h, proc, at)
    case PutReceipt => PutReceiptFile(st, h, proc)
    case PutRef => PutSourceRef(st, h, proc)
    case ReadIndex => ReadIndexFile(st, h, proc)
    case PutIndex => PutIndexFile(st, h, proc)
    case ReadVictim => ReadVictimEntry(st, h, proc)
    case ReadRegistry => ReadRegistryFile(st, h, proc)
    case PutRegistry => PutRegistryFile(st, h, proc)
    case AppendNote => AppendRetirementNote(st, h, proc)
    case MoveReceiptFile => QuarantineReceipt(st, h, proc)
    case MoveLogFile => QuarantineLog(st, h, proc)
    case DropIndexEntry => DropFromIndex(st, h, proc)
    case _ => None
  }

  // Reading, without the lock. Each function is one read of a file, kept in the reader's own memory.

  function ReadIndexToVerify(st: Store, proc: Proc): Option<Proc> {
    if proc.Idle? && st.index.Some? && st.index.value != map[] then Some(Reading(st.index.value)) else None
  }

  function ReadRegistryToVerify(st: Store, proc: Proc): Option<Proc> {
    if proc.Reading? && proc.entries.Keys !! st.retired.Keys then Some(Verifying(proc.entries, st.retired, map[]))
    else None
  }

  function HashReceiptOf(st: Store, proc: Proc, id: Id): Option<Proc> {
    if proc.Verifying? && id in proc.entries && id in st.receipts && st.receipts[id] == proc.entries[id] then
      Some(Hashed(proc.entries, proc.seen, proc.done, id))
    else None
  }

  function ReadReceiptAgain(st: Store, proc: Proc): Option<Proc> {
    if proc.Hashed? && proc.id in st.receipts then
      Some(Parsed(proc.entries, proc.seen, proc.done, proc.id, st.receipts[proc.id]))
    else None
  }

  function CompareRef(st: Store, proc: Proc): Option<Proc> {
    if proc.Parsed? && proc.receipt.id == proc.id && proc.receipt.sound
       && proc.id in st.refs && st.refs[proc.id] == proc.receipt.commit then
      Some(RefChecked(proc.entries, proc.seen, proc.done, proc.id, proc.receipt))
    else None
  }

  function CompareLog(st: Store, proc: Proc): Option<Proc> {
    if proc.RefChecked? && proc.id in st.logs && st.logs[proc.id] == proc.receipt.log then
      Some(Verifying(proc.entries, proc.seen, proc.done[proc.id := proc.receipt]))
    else None
  }

  function ReturnVerified(proc: Proc): Option<Proc> {
    if proc.Verifying? && proc.done.Keys == proc.entries.Keys then Some(Returned(proc.entries, proc.seen, proc.done))
    else None
  }

  /** A step of a reader, which takes no lock and changes nothing but its own memory. */
  function ReadStep(st: Store, proc: Proc, a: Action): Option<Proc> {
    match a
    case StartReading => ReadIndexToVerify(st, proc)
    case SeeRegistry => ReadRegistryToVerify(st, proc)
    case HashReceipt(id) => HashReceiptOf(st, proc, id)
    case ParseReceipt => ReadReceiptAgain(st, proc)
    case CheckRef => CompareRef(st, proc)
    case CheckLog => CompareLog(st, proc)
    case Return => ReturnVerified(proc)
    case _ => None
  }

  /** The process an idle process becomes when it takes the free lock. */
  function Acquired(a: Action): Option<Proc> {
    if a.AcquireToRecord? then Some(Locked)
    else if a.AcquireToRetire? then Some(RetireLocked(a.victim))
    else None
  }

  /** One step of process p; None if p cannot take action a. */
  function Step(s: Sys, p: nat, a: Action): Option<Sys>
    requires p < |s.procs|
  {
    var proc := s.procs[p];
    if a.Crash? || (a.Release? && proc.Releasing?) then
      Some(Sys(s.store, if s.lock == Some(p) then None else s.lock, s.procs[p := Idle], s.history))
    else if Acquired(a).Some? then
      if proc.Idle? && s.lock.None? then Some(Sys(s.store, Some(p), s.procs[p := Acquired(a).value], s.history))
      else None
    else if HolderStep(s.store, s.history, proc, a).Some? then
      var e := HolderStep(s.store, s.history, proc, a).value;
      Some(Sys(e.store, s.lock, s.procs[p := e.proc], e.history))
    else if ReadStep(s.store, proc, a).Some? then
      Some(Sys(s.store, s.lock, s.procs[p := ReadStep(s.store, proc, a).value], s.history))
    else None
  }

  ghost predicate Next(s: Sys, t: Sys) {
    exists p: nat, a :: p < |s.procs| && Step(s, p, a) == Some(t)
  }

  /** An empty store and idle processes. */
  function Initial(n: nat): Sys {
    Sys(Store(None, map[], map[], map[], map[], [], map[], map[]), None, seq(n, _ => Idle), History({}, map[], {}, {}))
  }

  ghost predicate IsRun(run: seq<Sys>, n: nat) {
    && |run| > 0 && run[0] == Initial(n)
    && forall i :: 0 < i < |run| ==> Next(run[i - 1], run[i])
  }

  // ---------------------------------------------------------------- invariant

  /** Receipt files are never rewritten. */
  ghost predicate WriteOnce(receipts: map<Id, Receipt>, used: set<Id>, written: map<Id, Receipt>) {
    && (forall id :: id in receipts ==> id in written && receipts[id] == written[id])
    && (forall id :: id in written ==> id in used && written[id].id == id && written[id].sound)
  }

  /** The index holds exactly the ids that entered and did not leave, pinned and with a ref. */
  ghost predicate IndexExact(entries: Index, refs: map<Id, nat>, written: map<Id, Receipt>, added: set<Id>,
                             removed: set<Id>) {
    && (forall id :: id in entries <==> id in added && id !in removed)
    && (forall id :: id in entries ==>
          id in written && entries[id] == written[id] && id in refs && refs[id] == entries[id].commit)
  }

  /** The files of an entry are in place unless its retirement has begun. */
  ghost predicate FilesInPlace(entries: Index, receipts: map<Id, Receipt>, logs: map<Id, Log>,
                               retired: map<Id, Receipt>) {
    forall id :: id in entries && id !in retired ==> id in receipts && id in logs && logs[id] == entries[id].log
  }

  /** What left the index is registered as retired, and only runs that entered it are. */
  ghost predicate RegistryExact(retired: map<Id, Receipt>, refs: map<Id, nat>, h: History) {
    && (forall id :: id in h.removed ==> id in h.added && id in retired)
    && (forall id :: id in retired ==> id in h.added)
    && (forall id :: id in h.added ==> id in h.written)
    && (forall id :: id in refs ==> id in h.used)
  }

  ghost predicate StoreOk(st: Store, h: History) {
    && WriteOnce(st.receipts, h.used, h.written)
    && IndexExact(Entries(st), st.refs, h.written, h.added, h.removed)
    && FilesInPlace(Entries(st), st.receipts, st.logs, st.retired)
    && RegistryExact(st.retired, st.refs, h)
    && (st.index.Some? ==> st.index.value != map[])
  }

  /** What a reader remembers was true of the store's history. */
  ghost predicate ReaderOk(retired: map<Id, Receipt>, written: map<Id, Receipt>, proc: Proc)
    requires IsReader(proc)
  {
    && (forall id :: id in proc.entries ==> id in written && proc.entries[id] == written[id])
    && (!proc.Reading? ==>
          && proc.entries.Keys !! proc.seen.Keys
          && (forall id :: id in proc.seen ==> id in retired)
          && (forall id :: id in proc.done ==> id in proc.entries && proc.done[id] == proc.entries[id]))
    && (proc.Hashed? || proc.Parsed? || proc.RefChecked? ==> proc.id in proc.entries)
    && (proc.Parsed? || proc.RefChecked? ==> proc.receipt == proc.entries[proc.id])
    && (proc.Returned? ==> proc.done.Keys == proc.entries.Keys)
  }

  /** A recorded run that is on its way into the index. */
  ghost predicate OnItsWay(st: Store, h: History, receipt: Receipt) {
    && receipt.id in h.written && h.written[receipt.id] == receipt && receipt.id !in h.added
    && receipt.id in st.receipts && receipt.id in st.logs && st.logs[receipt.id] == receipt.log
  }

  /** What the lock holder remembers is still true. */
  ghost predicate HolderOk(st: Store, h: History, proc: Proc) {
    && (proc.Logging? || proc.Captured? ==> proc.id in h.used && proc.id !in h.written && proc.id !in h.added)
    && (proc.Captured? ==> proc.id in st.logs && st.logs[proc.id] == proc.log)
    && (proc.Receipted? || proc.Reffed? || proc.IndexRead? ==> OnItsWay(st, h, proc.receipt))
    && (proc.Reffed? || proc.IndexRead? ==>
          proc.receipt.id in st.refs && st.refs[proc.receipt.id] == proc.receipt.commit)
    && (proc.IndexRead? ==> proc.entries == Entries(st))
    && (Victimizes(proc) ==> proc.entries == Entries(st) && proc.id in proc.entries)
    && (proc.RegistryRead? ==> proc.registry == st.retired)
    && (proc.Marked? || proc.Noted? || proc.ReceiptMoved? || proc.LogMoved? ==> proc.id in st.retired)
  }

  /** The process has read the entry it is retiring. */
  predicate Victimizes(proc: Proc) {
    proc.RetireRead? || proc.RegistryRead? || proc.Marked? || proc.Noted? || proc.ReceiptMoved? || proc.LogMoved?
  }

  ghost predicate ProcOk(s: Sys, p: nat)
    requires p < |s.procs|
  {
    var proc := s.procs[p];
    && (Holds(proc) ==> s.lock == Some(p) && HolderOk(s.store, s.history, proc))
    && (IsReader(proc) ==> ReaderOk(s.store.retired, s.history.written, proc))
  }

  ghost predicate Inv(s: Sys) {
    && StoreOk(s.store, s.history)
    && (forall p: nat :: p < |s.procs| ==> ProcOk(s, p))
    && (s.lock.Some? ==> s.lock.value < |s.procs| && Holds(s.procs[s.lock.value]))
  }

  // ---------------------------------------------------------------- the invariant is kept

  /** What every step does to the history: ids, receipts and retirements are never forgotten. */
  ghost predicate Grows(st: Store, h: History, st': Store, h': History) {
    && (forall id :: id in h.written ==> id in h'.written && h'.written[id] == h.written[id])
    && h.used <= h'.used && h.added <= h'.added && h.removed <= h'.removed
    && (forall id :: id in st.retired ==> id in st'.retired)
  }

  /** A process that did not move keeps what it knows. */
  lemma OthersKeep(s: Sys, t: Sys, p: nat, q: nat)
    requires p < |s.procs| && q < |s.procs| && p != q && |t.procs| == |s.procs|
    requires Grows(s.store, s.history, t.store, t.history)
    requires t.procs[q] == s.procs[q] && ProcOk(s, q)
    requires Holds(s.procs[q]) ==> t.store == s.store && t.history == s.history && t.lock == s.lock
    ensures ProcOk(t, q)
  {
    hide HolderOk;
  }

  /** A step of the lock holder leaves the store, the history and the holder consistent. */
  ghost predicate Kept(st: Store, h: History, o: Option<Effect>) {
    o.Some? ==>
      && StoreOk(o.value.store, o.value.history)
      && Grows(st, h, o.value.store, o.value.history)
      && Holds(o.value.proc) && HolderOk(o.value.store, o.value.history, o.value.proc)
  }

  // The conjuncts of StoreOk, one write at a time.

  lemma IndexGains(entries: Index, refs: map<Id, nat>, written: map<Id, Receipt>, added: set<Id>, removed: set<Id>,
                   receipt: Receipt)
    requires IndexExact(entries, refs, written, added, removed)
    requires receipt.id !in removed && receipt.id in written && written[receipt.id] == receipt
    requires receipt.id in refs && refs[receipt.id] == receipt.commit
    ensures IndexExact(entries[receipt.id := receipt], refs, written, added + {receipt.id}, removed)
  {
  }

  lemma IndexLoses(entries: Index, refs: map<Id, nat>, written: map<Id, Receipt>, added: set<Id>, removed: set<Id>,
                   id: Id)
    requires IndexExact(entries, refs, written, added, removed)
    ensures IndexExact(entries - {id}, refs, written, added, removed + {id})
  {
  }

  lemma IndexUnaffected(entries: Index, refs: map<Id, nat>, refs': map<Id, nat>, written: map<Id, Receipt>,
                        written': map<Id, Receipt>, added: set<Id>, removed: set<Id>, id: Id)
    requires IndexExact(entries, refs, written, added, removed) && id !in added
    requires forall x :: x != id && x in written ==> x in written' && written'[x] == written[x]
    requires forall x :: x != id && x in refs ==> x in refs' && refs'[x] == refs[x]
    ensures IndexExact(entries, refs', written', added, removed)
  {
  }

  lemma FilesUnaffected(entries: Index, receipts: map<Id, Receipt>, receipts': map<Id, Receipt>, logs: map<Id, Log>,
                        logs': map<Id, Log>, retired: map<Id, Receipt>, id: Id)
    requires FilesInPlace(entries, receipts, logs, retired) && (id in entries ==> id in retired)
    requires forall x :: x != id && x in receipts ==> x in receipts'
    requires forall x :: x != id && x in logs ==> x in logs' && logs'[x] == logs[x]
    ensures FilesInPlace(entries, receipts', logs', retired)
  {
  }

  lemma FilesGain(entries: Index, receipts: map<Id, Receipt>, logs: map<Id, Log>, retired: map<Id, Receipt>,
                  receipt: Receipt)
    requires FilesInPlace(entries, receipts, logs, retired)
    requires receipt.id in receipts && receipt.id in logs && logs[receipt.id] == receipt.log
    ensures FilesInPlace(entries[receipt.id := receipt], receipts, logs, retired)
  {
  }

  lemma ReceiptWritten(receipts: map<Id, Receipt>, used: set<Id>, written: map<Id, Receipt>, receipt: Receipt)
    requires WriteOnce(receipts, used, written) && receipt.id in used && receipt.id !in written && receipt.sound
    ensures WriteOnce(receipts[receipt.id := receipt], used, written[receipt.id := receipt])
  {
  }

  lemma PutIndexStore(st: Store, h: History, entries: Index, receipt: Receipt)
    requires StoreOk(st, h) && OnItsWay(st, h, receipt) && entries == Entries(st)
    requires receipt.id in st.refs && st.refs[receipt.id] == receipt.commit
    ensures StoreOk(st.(index := Some(entries[receipt.id := receipt])), h.(added := h.added + {receipt.id}))
  {
    hide IndexExact, FilesInPlace, WriteOnce;
    IndexGains(entries, st.refs, h.written, h.added, h.removed, receipt);
    FilesGain(entries, st.receipts, st.logs, st.retired, receipt);
    assert receipt.id in entries[receipt.id := receipt];
  }

  lemma DropEntryStore(st: Store, h: History, entries: Index, id: Id)
    requires StoreOk(st, h) && entries == Entries(st) && id in entries && id in st.retired
    ensures StoreOk(st.(index := IndexFile(entries - {id})), h.(removed := h.removed + {id}))
  {
    hide WriteOnce;
    var st' := st.(index := IndexFile(entries - {id}));
    assert Entries(st') == entries - {id};
    IndexLoses(entries, st.refs, h.written, h.added, h.removed, id);
    assert FilesInPlace(entries - {id}, st.receipts, st.logs, st.retired) by { hide IndexExact, RegistryExact; }
    assert id in h.added;
    hide IndexExact, FilesInPlace;
  }

  lemma PutReceiptStore(st: Store, h: History, receipt: Receipt)
    requires StoreOk(st, h) && receipt.sound
    requires receipt.id in h.used && receipt.id !in h.written && receipt.id !in h.added
    ensures StoreOk(WriteReceipt(st, receipt), h.(written := h.written[receipt.id := receipt]))
  {
    var st' := WriteReceipt(st, receipt);
    assert Entries(st') == Entries(st) && receipt.id !in Entries(st) by { hide FilesInPlace, RegistryExact, WriteOnce; }
    hide FilesInPlace, IndexExact, WriteOnce;
    ReceiptWritten(st.receipts, h.used, h.written, receipt);
    FilesUnaffected(Entries(st), st.receipts, st'.receipts, st.logs, st.logs, st.retired, receipt.id);
    var written := h.written[receipt.id := receipt];
    IndexUnaffected(Entries(st), st.refs, st.refs, h.written, written, h.added, h.removed, receipt.id);
  }

  lemma DrawIdStore(st: Store, h: History, id: Id)
    requires StoreOk(st, h) && id !in h.used
    ensures StoreOk(WriteLog(st, id, []), h.(used := h.used + {id})) && id !in h.written && id !in h.added
  {
    var st' := WriteLog(st, id, []);
    assert id !in h.written && id !in h.added by { hide FilesInPlace, IndexExact; }
    assert Entries(st') == Entries(st) && id !in Entries(st) by { hide FilesInPlace, RegistryExact, WriteOnce; }
    assert WriteOnce(st.receipts, h.used + {id}, h.written) by { hide FilesInPlace, IndexExact, RegistryExact; }
    hide FilesInPlace, IndexExact, WriteOnce;
    FilesUnaffected(Entries(st), st.receipts, st.receipts, st.logs, st'.logs, st.retired, id);
  }

  lemma PutRefStore(st: Store, h: History, id: Id, commit: nat)
    requires StoreOk(st, h) && id in h.used && id !in h.added
    ensures StoreOk(WriteRef(st, id, commit), h)
  {
    var st' := WriteRef(st, id, commit);
    assert Entries(st') == Entries(st);
    hide FilesInPlace, IndexExact, WriteOnce;
    IndexUnaffected(Entries(st), st.refs, st'.refs, h.written, h.written, h.added, h.removed, id);
  }

  lemma CheckExistingRunsKeeps(st: Store, h: History, proc: Proc)
    requires StoreOk(st, h) && HolderOk(st, h, proc)
    ensures Kept(st, h, CheckExistingRuns(st, h, proc))
  {
    hide WriteOnce, RegistryExact, IndexExact, FilesInPlace, OnItsWay, Trusted;
  }

  lemma DrawFreshIdKeeps(st: Store, h: History, proc: Proc, id: Id, commit: nat)
    requires StoreOk(st, h) && HolderOk(st, h, proc)
    ensures Kept(st, h, DrawFreshId(st, h, proc, id, commit))
  {
    if id !in h.used { DrawIdStore(st, h, id); }
    hide StoreOk;
  }

  lemma AppendToLogKeeps(st: Store, h: History, proc: Proc, output: Log)
    requires StoreOk(st, h) && HolderOk(st, h, proc)
    ensures Kept(st, h, AppendToLog(st, h, proc, output))
  {
    hide WriteOnce, RegistryExact;
  }

  lemma ReadBackLogKeeps(st: Store, h: History, proc: Proc, finished: nat)
    requires StoreOk(st, h) && HolderOk(st, h, proc)
    ensures Kept(st, h, ReadBackLog(st, h, proc, finished))
  {
    hide WriteOnce, RegistryExact, IndexExact, FilesInPlace, OnItsWay, Trusted;
  }

  lemma PutReceiptFileKeeps(st: Store, h: History, proc: Proc)
    requires StoreOk(st, h) && HolderOk(st, h, proc)
    ensures Kept(st, h, PutReceiptFile(st, h, proc))
  {
    if proc.Captured? { PutReceiptStore(st, h, Receipt(proc.id, proc.commit, proc.log, proc.finished, true)); }
    hide StoreOk, Entries;
  }

  lemma PutSourceRefKeeps(st: Store, h: History, proc: Proc)
    requires StoreOk(st, h) && HolderOk(st, h, proc)
    ensures Kept(st, h, PutSourceRef(st, h, proc))
  {
    if proc.Receipted? {
      assert proc.receipt.id in h.used;
      PutRefStore(st, h, proc.receipt.id, proc.receipt.commit);
    }
    hide StoreOk;
  }

  lemma ReadIndexFileKeeps(st: Store, h: History, proc: Proc)
    requires StoreOk(st, h) && HolderOk(st, h, proc)
    ensures Kept(st, h, ReadIndexFile(st, h, proc))
  {
    hide WriteOnce, RegistryExact, IndexExact, FilesInPlace, OnItsWay, Trusted;
  }

  lemma PutIndexFileKeeps(st: Store, h: History, proc: Proc)
    requires StoreOk(st, h) && HolderOk(st, h, proc)
    ensures Kept(st, h, PutIndexFile(st, h, proc))
  {
    if proc.IndexRead? { PutIndexStore(st, h, proc.entries, proc.receipt); }
    hide StoreOk, OnItsWay, Entries;
  }

  lemma ReadVictimEntryKeeps(st: Store, h: History, proc: Proc)
    requires StoreOk(st, h) && HolderOk(st, h, proc)
    ensures Kept(st, h, ReadVictimEntry(st, h, proc))
  {
    hide WriteOnce, RegistryExact, IndexExact, FilesInPlace, OnItsWay, Trusted;
  }

  lemma ReadRegistryFileKeeps(st: Store, h: History, proc: Proc)
    requires StoreOk(st, h) && HolderOk(st, h, proc)
    ensures Kept(st, h, ReadRegistryFile(st, h, proc))
  {
    hide WriteOnce, RegistryExact, IndexExact, FilesInPlace, OnItsWay, Trusted;
  }

  lemma PutRegistryFileKeeps(st: Store, h: History, proc: Proc)
    requires StoreOk(st, h) && HolderOk(st, h, proc)
    ensures Kept(st, h, PutRegistryFile(st, h, proc))
  {
  }

  lemma AppendRetirementNoteKeeps(st: Store, h: History, proc: Proc)
    requires StoreOk(st, h) && HolderOk(st, h, proc)
    ensures Kept(st, h, AppendRetirementNote(st, h, proc))
  {
    hide WriteOnce, RegistryExact, IndexExact, FilesInPlace, OnItsWay, Trusted;
  }

  lemma QuarantineReceiptKeeps(st: Store, h: History, proc: Proc)
    requires StoreOk(st, h) && HolderOk(st, h, proc)
    ensures Kept(st, h, QuarantineReceipt(st, h, proc))
  {
  }

  lemma QuarantineLogKeeps(st: Store, h: History, proc: Proc)
    requires StoreOk(st, h) && HolderOk(st, h, proc)
    ensures Kept(st, h, QuarantineLog(st, h, proc))
  {
  }

  lemma DropFromIndexKeeps(st: Store, h: History, proc: Proc)
    requires StoreOk(st, h) && HolderOk(st, h, proc)
    ensures Kept(st, h, DropFromIndex(st, h, proc))
  {
    if proc.LogMoved? { DropEntryStore(st, h, proc.entries, proc.id); }
    hide StoreOk, OnItsWay, Entries;
  }

  lemma HolderStepKeeps(st: Store, h: History, proc: Proc, a: Action)
    requires StoreOk(st, h) && HolderOk(st, h, proc)
    ensures Kept(st, h, HolderStep(st, h, proc, a))
  {
    hide StoreOk, HolderOk, Kept, CheckExistingRuns, DrawFreshId, AppendToLog, ReadBackLog, PutReceiptFile,
      PutSourceRef, ReadIndexFile, PutIndexFile, ReadVictimEntry, ReadRegistryFile, PutRegistryFile,
      AppendRetirementNote, QuarantineReceipt, QuarantineLog, DropFromIndex;
    match a {
      case CheckExisting => CheckExistingRunsKeeps(st, h, proc);
      case DrawId(id, commit) => DrawFreshIdKeeps(st, h, proc, id, commit);
      case AppendLog(output) => AppendToLogKeeps(st, h, proc, output);
      case ReadLog(at) => ReadBackLogKeeps(st, h, proc, at);
      case PutReceipt => PutReceiptFileKeeps(st, h, proc);
      case PutRef => PutSourceRefKeeps(st, h, proc);
      case ReadIndex => ReadIndexFileKeeps(st, h, proc);
      case PutIndex => PutIndexFileKeeps(st, h, proc);
      case ReadVictim => ReadVictimEntryKeeps(st, h, proc);
      case ReadRegistry => ReadRegistryFileKeeps(st, h, proc);
      case PutRegistry => PutRegistryFileKeeps(st, h, proc);
      case AppendNote => AppendRetirementNoteKeeps(st, h, proc);
      case MoveReceiptFile => QuarantineReceiptKeeps(st, h, proc);
      case MoveLogFile => QuarantineLogKeeps(st, h, proc);
      case DropIndexEntry => DropFromIndexKeeps(st, h, proc);
      case _ => NoEffect(st, h);
    }
  }

  lemma NoEffect(st: Store, h: History)
    ensures Kept(st, h, None)
  {
  }

  /** Only a process that holds the lock can take a holder's step. */
  lemma HolderStepHolds(st: Store, h: History, proc: Proc, a: Action)
    requires HolderStep(st, h, proc, a).Some?
    ensures Holds(proc)
  {
    hide Trusted;
  }

  lemma EntriesWritten(st: Store, h: History)
    requires StoreOk(st, h)
    ensures forall id :: id in Entries(st) ==> id in h.written && Entries(st)[id] == h.written[id]
    ensures forall id :: id in st.receipts ==> id in h.written && st.receipts[id] == h.written[id]
  {
    hide FilesInPlace, RegistryExact;
  }

  /** A reader's step leaves it a reader whose memory is true of the store's history. */
  ghost predicate ReadOk(st: Store, h: History, o: Option<Proc>) {
    o.Some? ==> IsReader(o.value) && ReaderOk(st.retired, h.written, o.value)
  }

  lemma FirstReadsKeep(st: Store, h: History, proc: Proc)
    requires StoreOk(st, h) && (IsReader(proc) ==> ReaderOk(st.retired, h.written, proc))
    ensures ReadOk(st, h, ReadIndexToVerify(st, proc)) && ReadOk(st, h, ReadRegistryToVerify(st, proc))
  {
    EntriesWritten(st, h);
    hide StoreOk;
  }

  lemma ReceiptReadsKeep(st: Store, h: History, proc: Proc, id: Id)
    requires StoreOk(st, h) && (IsReader(proc) ==> ReaderOk(st.retired, h.written, proc))
    ensures ReadOk(st, h, HashReceiptOf(st, proc, id)) && ReadOk(st, h, ReadReceiptAgain(st, proc))
  {
    EntriesWritten(st, h);
    hide StoreOk;
  }

  lemma ComparisonsKeep(st: Store, h: History, proc: Proc)
    requires IsReader(proc) ==> ReaderOk(st.retired, h.written, proc)
    ensures ReadOk(st, h, CompareRef(st, proc)) && ReadOk(st, h, CompareLog(st, proc))
    ensures ReadOk(st, h, ReturnVerified(proc))
  {
  }

  lemma ReadStepKeeps(st: Store, h: History, proc: Proc, a: Action)
    requires StoreOk(st, h) && (IsReader(proc) ==> ReaderOk(st.retired, h.written, proc))
    requires ReadStep(st, proc, a).Some?
    ensures IsReader(ReadStep(st, proc, a).value) && ReaderOk(st.retired, h.written, ReadStep(st, proc, a).value)
    ensures IsReader(proc) || proc.Idle?
  {
    assert IsReader(proc) || proc.Idle?;
    hide StoreOk, ReaderOk, IsReader, ReadIndexToVerify, ReadRegistryToVerify, HashReceiptOf, ReadReceiptAgain;
    hide CompareRef, CompareLog, ReturnVerified;
    match a {
      case StartReading | SeeRegistry => FirstReadsKeep(st, h, proc);
      case HashReceipt(id) => ReceiptReadsKeep(st, h, proc, id);
      case ParseReceipt => ReceiptReadsKeep(st, h, proc, 0);
      case _ => ComparisonsKeep(st, h, proc);
    }
  }

  /** Every step keeps the invariant and forgets nothing. */
  lemma StepKeeps(s: Sys, p: nat, a: Action)
    requires Inv(s) && p < |s.procs| && Step(s, p, a).Some?
    ensures Inv(Step(s, p, a).value)
    ensures Grows(s.store, s.history, Step(s, p, a).value.store, Step(s, p, a).value.history)
    ensures |Step(s, p, a).value.procs| == |s.procs|
  {
    hide StoreOk, HolderOk, ReaderOk, HolderStep, ReadStep;
    var t := Step(s, p, a).value;
    var proc := s.procs[p];
    assert ProcOk(s, p);
    if HolderStep(s.store, s.history, proc, a).Some? {
      HolderStepHolds(s.store, s.history, proc, a);
      HolderStepKeeps(s.store, s.history, proc, a);
    }
    if ReadStep(s.store, proc, a).Some? { ReadStepKeeps(s.store, s.history, proc, a); }
    FreshHolder(s.store, s.history, a);
    forall q: nat | q < |t.procs| && q != p ensures ProcOk(t, q) {
      assert ProcOk(s, q);
      OthersKeep(s, t, p, q);
    }
    hide Grows;
    assert ProcOk(t, p);
  }

  /** A process that has just taken the lock knows nothing yet. */
  lemma FreshHolder(st: Store, h: History, a: Action)
    ensures Acquired(a).Some? ==> Holds(Acquired(a).value) && HolderOk(st, h, Acquired(a).value)
  {
  }

  lemma InitialInv(n: nat)
    ensures Inv(Initial(n))
  {
  }

  lemma {:induction false} RunKeeps(run: seq<Sys>, n: nat, i: nat)
    requires IsRun(run, n) && i < |run|
    ensures Inv(run[i]) && |run[i].procs| == n
  {
    hide Inv, Step;
    if i == 0 {
      InitialInv(n);
    } else {
      RunKeeps(run, n, i - 1);
      assert Next(run[i - 1], run[i]);
      var p: nat, a :| p < |run[i - 1].procs| && Step(run[i - 1], p, a) == Some(run[i]);
      StepKeeps(run[i - 1], p, a);
    }
  }

  lemma {:induction false} RunGrows(run: seq<Sys>, n: nat, i: nat, j: nat)
    requires IsRun(run, n) && i <= j < |run|
    ensures Grows(run[i].store, run[i].history, run[j].store, run[j].history)
    decreases j
  {
    hide Inv, Step;
    if i < j {
      RunGrows(run, n, i, j - 1);
      RunKeeps(run, n, j - 1);
      assert Next(run[j - 1], run[j]);
      var p: nat, a :| p < |run[j - 1].procs| && Step(run[j - 1], p, a) == Some(run[j]);
      StepKeeps(run[j - 1], p, a);
    }
  }

  // ---------------------------------------------------------------- theorems about every run

  /** The process has read the quarantine registry. */
  predicate SawRegistry(proc: Proc) {
    IsReader(proc) && !proc.Reading?
  }

  /** A reader returns exactly the entries it read, each the receipt its pin hashes, written once, and none of them
      retired in the registry it read. */
  lemma ReturnedOk(run: seq<Sys>, n: nat, i: nat, p: nat)
    requires IsRun(run, n) && i < |run| && p < n && p < |run[i].procs| && run[i].procs[p].Returned?
    ensures var proc := run[i].procs[p];
      && proc.done == proc.entries
      && proc.entries.Keys !! proc.seen.Keys
      && forall id :: id in proc.done ==> id in run[i].history.written && proc.done[id] == run[i].history.written[id]
  {
    RunKeeps(run, n, i);
    assert ProcOk(run[i], p);
  }

  /** A run registered as retired before a reader looks at the registry is never returned by it. */
  lemma {:induction false} RetiredNotReturned(run: seq<Sys>, n: nat, i: nat, j: nat, p: nat, id: Id)
    requires IsRun(run, n) && i <= j < |run| && p < n
    requires p < |run[i].procs| && !SawRegistry(run[i].procs[p]) && id in run[i].store.retired
    ensures p < |run[j].procs|
    ensures SawRegistry(run[j].procs[p]) ==> id !in run[j].procs[p].entries
    decreases j
  {
    hide Inv, Step, SawRegistry;
    RunKeeps(run, n, j);
    if i < j {
      RetiredNotReturned(run, n, i, j - 1, p, id);
      assert id in run[j - 1].store.retired by { RunGrows(run, n, i, j - 1); }
      assert Next(run[j - 1], run[j]);
      var q: nat, a :| q < |run[j - 1].procs| && Step(run[j - 1], q, a) == Some(run[j]);
      RegistryGuards(run[j - 1], q, a, p, id);
    }
  }

  lemma RegistryGuards(s: Sys, q: nat, a: Action, p: nat, id: Id)
    requires q < |s.procs| && p < |s.procs| && Step(s, q, a).Some? && id in s.store.retired
    requires SawRegistry(s.procs[p]) ==> id !in s.procs[p].entries
    ensures var t := Step(s, q, a).value;
      p < |t.procs| && (SawRegistry(t.procs[p]) ==> id !in t.procs[p].entries)
  {
    hide Trusted, HolderStep;
    if HolderStep(s.store, s.history, s.procs[q], a).Some? { HolderStepStays(s.store, s.history, s.procs[q], a); }
  }

  lemma HolderStepStays(st: Store, h: History, proc: Proc, a: Action)
    requires HolderStep(st, h, proc, a).Some?
    ensures !IsReader(HolderStep(st, h, proc, a).value.proc)
  {
    hide Trusted;
  }

  /** No index update is lost, and a retired run that left the index never comes back. */
  lemma IndexUpdatesKept(run: seq<Sys>, n: nat, i: nat, j: nat, id: Id)
    requires IsRun(run, n) && i <= j < |run|
    ensures id in Entries(run[j].store) <==> id in run[j].history.added && id !in run[j].history.removed
    ensures id in run[i].history.added && id !in run[j].history.removed ==>
      && id in Entries(run[j].store) && id in run[j].history.written
      && Entries(run[j].store)[id] == run[j].history.written[id]
    ensures id in run[i].history.removed ==> id !in Entries(run[j].store) && id in run[j].store.retired
  {
    hide FilesInPlace, WriteOnce, ProcOk;
    RunKeeps(run, n, j);
    RunGrows(run, n, i, j);
  }

  /** An entry has its pinned receipt's ref, and its receipt and log unless its retirement has begun. */
  lemma EntryHasFiles(run: seq<Sys>, n: nat, i: nat, id: Id)
    requires IsRun(run, n) && i < |run| && id in Entries(run[i].store)
    ensures var st := run[i].store;
      && id in st.refs && st.refs[id] == Entries(st)[id].commit
      && (id !in st.retired ==> EntryVerifies(st, id, Entries(st)[id]))
  {
    hide ProcOk;
    RunKeeps(run, n, i);
  }

  /** In every reachable state, reading succeeds at that instant exactly when the index has entries and none of them is
      in the registry, as one is while its retirement is under way and after that was cut short. */
  lemma TrustedUnlessRetiring(run: seq<Sys>, n: nat, i: nat)
    requires IsRun(run, n) && i < |run|
    ensures var st := run[i].store;
      Trusted(st) <==> Entries(st) != map[] && Entries(st).Keys !! st.retired.Keys
  {
    hide ProcOk, IndexExact, FilesInPlace, WriteOnce, RegistryExact, EntryVerifies;
    var st := run[i].store;
    forall id | id in Entries(st) && id !in st.retired ensures EntryVerifies(st, id, Entries(st)[id]) {
      EntryHasFiles(run, n, i, id);
    }
  }

  /** At most one process is between taking and freeing the lock. */
  lemma OneHolder(run: seq<Sys>, n: nat, i: nat, p: nat, q: nat)
    requires IsRun(run, n) && i < |run| && p < n && q < n && p < |run[i].procs| && q < |run[i].procs|
    requires Holds(run[i].procs[p]) && Holds(run[i].procs[q])
    ensures p == q
  {
    RunKeeps(run, n, i);
    assert ProcOk(run[i], p) && ProcOk(run[i], q);
  }
}
