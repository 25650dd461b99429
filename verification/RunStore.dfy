/**
  The store of trusted runs and its sequential operations.

  Digests are injective, so an index pin is represented by the receipt it pins. A missing index file
  and a missing quarantine registry are None and the empty map.
 */
module RunStore {
  import opened Bytes

  type Id = nat
  type Log = seq<byte>

  /** A receipt; `sound` stands for the checks that depend only on it and its immutable source commit. */
  datatype Receipt = Receipt(id: Id, commit: nat, log: Log, finished: nat, sound: bool)

  datatype Store = Store(
    index: Option<map<Id, Receipt>>,
    receipts: map<Id, Receipt>,
    logs: map<Id, Log>,
    refs: map<Id, nat>,
    retired: map<Id, Receipt>,
    retiredLog: seq<Id>,
    quarantinedReceipts: map<Id, Receipt>,
    quarantinedLogs: map<Id, Log>)

  /** The entries of the index; none without an index file. */
  function Entries(st: Store): map<Id, Receipt> {
    if st.index.None? then map[] else st.index.value
  }

  /** An index file with the given entries: an empty index is an absent file. */
  function IndexFile(entries: map<Id, Receipt>): Option<map<Id, Receipt>> {
    if entries == map[] then None else Some(entries)
  }

  // ---------------------------------------------------------------- reading

  /** An entry verifies: its receipt is the pinned one, names it, and matches its ref and log. */
  predicate EntryVerifies(st: Store, id: Id, pin: Receipt) {
    && id in st.receipts && st.receipts[id] == pin
    && pin.id == id && pin.sound
    && id in st.refs && st.refs[id] == pin.commit
    && id in st.logs && st.logs[id] == pin.log
  }

  /** Reading all trusted runs succeeds: there is an index with entries, none retired, all verifying. */
  predicate Trusted(st: Store) {
    && st.index.Some? && st.index.value != map[]
    && (forall id :: id in st.index.value ==> id !in st.retired)
    && (forall id :: id in st.index.value ==> EntryVerifies(st, id, st.index.value[id]))
  }

  /** x is the receipt that an entry of the index pins. */
  predicate Pinned(entries: map<Id, Receipt>, x: Receipt) {
    x.id in entries && entries[x.id] == x
  }

  /** a finished after b, or with it and stands earlier in the index, which is sorted by id. */
  predicate Newer(a: Receipt, b: Receipt) {
    a.finished > b.finished || (a.finished == b.finished && a.id < b.id)
  }

  ghost predicate NewestFirst(runs: seq<Receipt>) {
    forall i, j :: 0 <= i < j < |runs| ==> Newer(runs[i], runs[j])
  }

  function Place(x: Receipt, runs: seq<Receipt>): seq<Receipt> {
    if runs == [] || Newer(x, runs[0]) then [x] + runs else [runs[0]] + Place(x, runs[1..])
  }

  lemma {:induction false} PlaceKeeps(x: Receipt, runs: seq<Receipt>)
    ensures forall y :: y in Place(x, runs) <==> y == x || y in runs
    ensures NewestFirst(runs) && (forall y :: y in runs ==> y.id != x.id) ==> NewestFirst(Place(x, runs))
  {
    if runs != [] && !Newer(x, runs[0]) {
      PlaceKeeps(x, runs[1..]);
      assert runs == [runs[0]] + runs[1..];
      var rest := Place(x, runs[1..]);
      if NewestFirst(runs) && forall y :: y in runs ==> y.id != x.id {
        assert runs[0] in runs;
        forall j | 0 <= j < |rest| ensures Newer(runs[0], rest[j]) { assert rest[j] in rest; }
      }
    }
  }

  /** A run's files are those its receipt describes. */
  ghost predicate FilesMatch(st: Store, x: Receipt) {
    && x.id in st.receipts && st.receipts[x.id] == x
    && x.id in st.logs && st.logs[x.id] == x.log
    && x.id in st.refs && st.refs[x.id] == x.commit
  }

  /** Reading succeeds exactly when there are runs, all unretired, sound, pinned by name and with their files. */
  lemma TrustedExactly(st: Store)
    ensures Trusted(st) <==>
      && st.index.Some? && (exists id :: id in st.index.value)
      && forall id :: id in st.index.value ==>
           var x := st.index.value[id];
           x.id == id && x.sound && id !in st.retired && FilesMatch(st, x)
  {
  }

  /** Whatever is done to a registered run's log, receipt or ref, the index alone keeps reading from succeeding. */
  lemma TamperingIsRefused(st: Store, id: Id, t: Store)
    requires Trusted(st) && id in Entries(st) && t.index == st.index
    requires || id !in t.logs || t.logs[id] != st.logs[id]
             || id !in t.receipts || t.receipts[id] != st.receipts[id]
             || id !in t.refs || t.refs[id] != st.refs[id]
             || id in t.retired
    ensures !Trusted(t)
  {
    TrustedExactly(st);
    TrustedExactly(t);
    hide Trusted;
  }

  /** Nor does anything else matter: while the registered runs keep their files, reading goes on succeeding. */
  lemma UntouchedIsTrusted(st: Store, t: Store)
    requires Trusted(st) && t.index == st.index
    requires forall id :: id in Entries(st) ==>
      && id in t.logs && t.logs[id] == st.logs[id] && id in t.receipts && t.receipts[id] == st.receipts[id]
      && id in t.refs && t.refs[id] == st.refs[id] && id !in t.retired
    ensures Trusted(t)
  {
    TrustedExactly(st);
    TrustedExactly(t);
    hide Trusted;
  }

  /** Newest first: by the time of completion, and with one time by the place in the index. */
  lemma NewestFirstExactly(runs: seq<Receipt>)
    ensures NewestFirst(runs) <==> forall i, j :: 0 <= i < j < |runs| ==>
      runs[i].finished >= runs[j].finished && (runs[i].finished == runs[j].finished ==> runs[i].id < runs[j].id)
  {
  }

  /** Every run of the list is sound, unretired, and has its files. */
  ghost predicate AllMatch(st: Store, runs: seq<Receipt>) {
    forall x :: x in runs ==> x.sound && x.id !in st.retired && FilesMatch(st, x)
  }

  lemma ReadExactly(st: Store, runs: seq<Receipt>)
    requires VerifiedSoFar(Entries(st), {}, runs)
    ensures NewestFirst(runs) && forall x :: x in runs <==> Pinned(Entries(st), x)
    ensures Trusted(st) ==> AllMatch(st, runs)
    ensures forall i, j :: 0 <= i < j < |runs| ==> runs[i].finished >= runs[j].finished
  {
    TrustedExactly(st);
    NewestFirstExactly(runs);
    hide Trusted, FilesMatch, NewestFirst;
  }

  /** The runs verified so far: those of the entries that are no longer pending, newest first. */
  ghost predicate VerifiedSoFar(entries: map<Id, Receipt>, pending: set<Id>, verified: seq<Receipt>) {
    NewestFirst(verified) && forall x :: x in verified <==> Pinned(entries, x) && x.id !in pending
  }

  lemma NoneVerified(entries: map<Id, Receipt>)
    ensures VerifiedSoFar(entries, entries.Keys, [])
  {
  }

  lemma OneVerified(entries: map<Id, Receipt>, pending: set<Id>, verified: seq<Receipt>, id: Id)
    requires VerifiedSoFar(entries, pending, verified) && id in pending && id in entries && entries[id].id == id
    ensures VerifiedSoFar(entries, pending - {id}, Place(entries[id], verified))
  {
    PlaceKeeps(entries[id], verified);
    hide NewestFirst, Place;
  }

  lemma PinNames(st: Store, id: Id, pin: Receipt)
    requires EntryVerifies(st, id, pin)
    ensures pin.id == id
  {
  }

  // ---------------------------------------------------------------- the writes of retirement, in order

  function MarkRetired(st: Store, id: Id): Store
    requires id in Entries(st)
  {
    st.(retired := st.retired[id := Entries(st)[id]])
  }

  function NoteRetired(st: Store, id: Id): Store {
    st.(retiredLog := st.retiredLog + [id])
  }

  function MoveReceipt(st: Store, id: Id): Store {
    if id in st.receipts then
      st.(receipts := st.receipts - {id}, quarantinedReceipts := st.quarantinedReceipts[id := st.receipts[id]])
    else st
  }

  function MoveLog(st: Store, id: Id): Store {
    if id in st.logs then
      st.(logs := st.logs - {id}, quarantinedLogs := st.quarantinedLogs[id := st.logs[id]])
    else st
  }

  function DropEntry(st: Store, id: Id): Store {
    st.(index := IndexFile(Entries(st) - {id}))
  }

  /** A file of id moved out of `from`, and into `to`. */
  function MovedFrom<T>(from: map<Id, T>, id: Id): map<Id, T> {
    from - {id}
  }

  function MovedTo<T>(from: map<Id, T>, to: map<Id, T>, id: Id): map<Id, T> {
    if id in from then to[id := from[id]] else to
  }

  /** The store after the first k writes of retire(id); five complete it. */
  function RetireSteps(st: Store, id: Id, k: nat): Store
    requires id in Entries(st) && k <= 5
  {
    Store(
      if k >= 5 then IndexFile(Entries(st) - {id}) else st.index,
      if k >= 3 then MovedFrom(st.receipts, id) else st.receipts,
      if k >= 4 then MovedFrom(st.logs, id) else st.logs,
      st.refs,
      if k >= 1 then st.retired[id := Entries(st)[id]] else st.retired,
      if k >= 2 then st.retiredLog + [id] else st.retiredLog,
      if k >= 3 then MovedTo(st.receipts, st.quarantinedReceipts, id) else st.quarantinedReceipts,
      if k >= 4 then MovedTo(st.logs, st.quarantinedLogs, id) else st.quarantinedLogs)
  }

  /** Those are the writes, one after the other. */
  lemma RetireStepsAreTheWrites(st: Store, id: Id)
    requires id in Entries(st)
    ensures RetireSteps(st, id, 0) == st
    ensures RetireSteps(st, id, 1) == MarkRetired(st, id)
    ensures RetireSteps(st, id, 2) == NoteRetired(RetireSteps(st, id, 1), id)
    ensures RetireSteps(st, id, 3) == MoveReceipt(RetireSteps(st, id, 2), id)
    ensures RetireSteps(st, id, 4) == MoveLog(RetireSteps(st, id, 3), id)
    ensures RetireSteps(st, id, 5) == DropEntry(RetireSteps(st, id, 4), id)
  {
    RemoveAbsent(st.receipts, id);
    RemoveAbsent(st.logs, id);
  }

  lemma RemoveAbsent<T>(m: map<Id, T>, id: Id)
    ensures id !in m ==> m - {id} == m
    ensures (m - {id}) - {id} == m - {id}
  {
    assert (m - {id}) - {id} == m - {id};
    if id !in m { assert m - {id} == m; }
  }

  function Retired(st: Store, id: Id): Store
    requires id in Entries(st)
  {
    RetireSteps(st, id, 5)
  }

  // ---------------------------------------------------------------- the writes of recording, in order

  function WriteLog(st: Store, id: Id, log: Log): Store {
    st.(logs := st.logs[id := log])
  }

  function WriteReceipt(st: Store, receipt: Receipt): Store {
    st.(receipts := st.receipts[receipt.id := receipt])
  }

  function WriteRef(st: Store, id: Id, commit: nat): Store {
    st.(refs := st.refs[id := commit])
  }

  function AddEntry(st: Store, receipt: Receipt): Store {
    st.(index := Some(Entries(st)[receipt.id := receipt]))
  }

  function Recorded(st: Store, receipt: Receipt): Store {
    var written := WriteReceipt(WriteLog(st, receipt.id, receipt.log), receipt);
    AddEntry(WriteRef(written, receipt.id, receipt.commit), receipt)
  }

  // ---------------------------------------------------------------- the program, run alone

  datatype StoreError = NoRuns | RetiredInIndex | EntryInvalid | UnknownRun

  class RunStore {
    var index: Option<map<Id, Receipt>>
    var receipts: map<Id, Receipt>
    var logs: map<Id, Log>
    var refs: map<Id, nat>
    var retired: map<Id, Receipt>
    var retiredLog: seq<Id>
    var quarantinedReceipts: map<Id, Receipt>
    var quarantinedLogs: map<Id, Log>

    /** The files as a value. */
    function View(): Store
      reads this
    {
      Store(index, receipts, logs, refs, retired, retiredLog, quarantinedReceipts, quarantinedLogs)
    }

    constructor ()
      ensures View() == Store(None, map[], map[], map[], map[], [], map[], map[])
    {
      index, receipts, logs, refs := None, map[], map[], map[];
      retired, retiredLog, quarantinedReceipts, quarantinedLogs := map[], [], map[], map[];
    }

    /** Verify one entry against its files. */
    method VerifyEntry(id: Id, pin: Receipt) returns (r: Result<Receipt, StoreError>)
      ensures r == if EntryVerifies(View(), id, pin) then Ok(pin) else Err(EntryInvalid)
      ensures r.Ok? <==>
        && pin.id == id && pin.sound && id in receipts && receipts[id] == pin
        && id in refs && refs[id] == pin.commit && id in logs && logs[id] == pin.log
    {
      if id !in receipts || receipts[id] != pin { return Err(EntryInvalid); }
      var receipt := receipts[id];
      if receipt.id != id || !receipt.sound { return Err(EntryInvalid); }
      if id !in refs || refs[id] != receipt.commit { return Err(EntryInvalid); }
      if id !in logs || logs[id] != receipt.log { return Err(EntryInvalid); }
      return Ok(receipt);
    }

    /** Every registered run, verified, newest first; or a refusal on the first that fails. */
    method TrustedRuns() returns (r: Result<seq<Receipt>, StoreError>)
      ensures r.Ok? <==> Trusted(View())
      ensures r.Ok? ==> NewestFirst(r.value) && forall x :: x in r.value <==> Pinned(Entries(View()), x)
      ensures r == Err(NoRuns) <==> Entries(View()) == map[]
      ensures r.Ok? ==> AllMatch(View(), r.value)
      ensures r.Ok? ==> forall i, j :: 0 <= i < j < |r.value| ==> r.value[i].finished >= r.value[j].finished
      ensures r == Err(RetiredInIndex) <==> exists id :: id in Entries(View()) && id in retired
    {
      if index.None? || index.value == map[] { return Err(NoRuns); }
      hide EntryVerifies, VerifiedSoFar, NewestFirst, AllMatch, Place;
      ghost var st := View();
      if exists id :: id in index.value && id in retired { return Err(RetiredInIndex); }
      var pending := index.value.Keys;
      var verified: seq<Receipt> := [];
      NoneVerified(index.value);
      while pending != {}
        invariant pending <= index.value.Keys && VerifiedSoFar(index.value, pending, verified)
        invariant forall id :: id in index.value && id !in pending ==> EntryVerifies(st, id, index.value[id])
        decreases |pending|
      {
        var id :| id in pending;
        var entry := VerifyEntry(id, index.value[id]);
        if entry.Err? { return Err(entry.error); }
        PinNames(st, id, index.value[id]);
        OneVerified(index.value, pending, verified, id);
        verified := Place(entry.value, verified);
        pending := pending - {id};
      }
      assert VerifiedSoFar(Entries(st), {}, verified);
      ReadExactly(st, verified);
      return Ok(verified);
    }

    /** Quarantine one registered run, whatever the state of its files. */
    method Retire(id: Id) returns (r: Result<(), StoreError>)
      modifies this
      ensures r.Ok? <==> id in old(Entries(View()))
      ensures View() == if id in old(Entries(View())) then Retired(old(View()), id) else old(View())
    {
      if index.None? || id !in index.value { return Err(UnknownRun); }
      ghost var st := View();
      RetireStepsAreTheWrites(st, id);
      hide RetireSteps;
      var entries := index.value;
      retired := retired[id := entries[id]];
      assert View() == RetireSteps(st, id, 1);
      retiredLog := retiredLog + [id];
      assert View() == RetireSteps(st, id, 2);
      if id in receipts {
        quarantinedReceipts := quarantinedReceipts[id := receipts[id]];
        receipts := receipts - {id};
      }
      assert View() == RetireSteps(st, id, 3);
      if id in logs {
        quarantinedLogs := quarantinedLogs[id := logs[id]];
        logs := logs - {id};
      }
      assert View() == RetireSteps(st, id, 4) && index == Some(entries);
      var remaining := entries - {id};
      if remaining != map[] {
        index := Some(remaining);
      } else {
        index := None;
      }
      assert View() == RetireSteps(st, id, 5);
      return Ok(());
    }

    /** Register a completed run under a fresh id, provided the existing runs are all trusted. */
    method Record(id: Id, commit: nat, log: Log, finished: nat) returns (r: Result<(), StoreError>)
      modifies this
      ensures r.Ok? <==> old(index).None? || Trusted(old(View()))
      ensures View() == if r.Ok? then Recorded(old(View()), Receipt(id, commit, log, finished, true)) else old(View())
    {
      hide Trusted, NewestFirst, AllMatch, Pinned;
      if index.Some? {
        var existing := TrustedRuns();
        if existing.Err? { return Err(existing.error); }
      }
      logs := logs[id := log];
      var receipt := Receipt(id, commit, logs[id], finished, true);
      receipts := receipts[id := receipt];
      refs := refs[id := commit];
      var entries := if index.Some? then index.value else map[];
      index := Some(entries[id := receipt]);
      return Ok(());
    }
  }

  // ---------------------------------------------------------------- theorems

  /** Two stores that differ at most in the retirement log. */
  predicate SameButNotes(a: Store, b: Store) {
    a.(retiredLog := []) == b.(retiredLog := [])
  }

  /** From any crash point before the index write, retiring again reaches the completed state. */
  lemma RetireResumes(st: Store, id: Id, k: nat)
    requires id in Entries(st) && k <= 4
    ensures var crashed := RetireSteps(st, id, k);
      id in Entries(crashed) && SameButNotes(Retired(crashed, id), Retired(st, id))
  {
    var crashed := RetireSteps(st, id, k);
    RemoveAbsent(st.receipts, id);
    RemoveAbsent(st.logs, id);
    assert st.retired[id := Entries(st)[id]][id := Entries(st)[id]] == st.retired[id := Entries(st)[id]];
  }

  /** After the index write the id has left the index, for good as far as retire is concerned. */
  lemma RetireCompletes(st: Store, id: Id)
    requires id in Entries(st)
    ensures var done := Retired(st, id);
      && id !in Entries(done) && id in done.retired && id !in done.receipts && id !in done.logs
      && (id in st.refs ==> id in done.refs && done.refs[id] == st.refs[id])
      && done.retired[id] == Entries(st)[id] && done.retiredLog == st.retiredLog + [id]
      && (id in st.receipts ==> id in done.quarantinedReceipts && done.quarantinedReceipts[id] == st.receipts[id])
      && (id in st.logs ==> id in done.quarantinedLogs && done.quarantinedLogs[id] == st.logs[id])
  {
  }

  /** At no crash point is a file of the run lost: it stands in its place or in quarantine. */
  lemma RetireLosesNothing(st: Store, id: Id, k: nat)
    requires id in Entries(st) && k <= 5
    ensures var t := RetireSteps(st, id, k);
      && (id in st.receipts ==>
            || (id in t.receipts && t.receipts[id] == st.receipts[id])
            || (id in t.quarantinedReceipts && t.quarantinedReceipts[id] == st.receipts[id]))
      && (id in st.logs ==>
            || (id in t.logs && t.logs[id] == st.logs[id])
            || (id in t.quarantinedLogs && t.quarantinedLogs[id] == st.logs[id]))
      && (k > 0 ==> id in t.retired && t.retired[id] == Entries(st)[id])
  {
  }

  /** Recording leaves every other run's entry and files as they were. */
  lemma RecordFrames(st: Store, receipt: Receipt, other: Id)
    requires other != receipt.id
    ensures var t := Recorded(st, receipt);
      && (other in Entries(t) <==> other in Entries(st))
      && (other in Entries(st) ==> Entries(t)[other] == Entries(st)[other])
      && (other in t.receipts <==> other in st.receipts)
      && (other in st.receipts ==> t.receipts[other] == st.receipts[other])
      && (other in t.logs <==> other in st.logs) && (other in st.logs ==> t.logs[other] == st.logs[other])
      && (other in t.refs <==> other in st.refs) && (other in st.refs ==> t.refs[other] == st.refs[other])
      && t.retired == st.retired
  {
  }

  /** At every crash point, every other run's entry and files are as they were. */
  lemma RetireFrames(st: Store, id: Id, k: nat, other: Id)
    requires id in Entries(st) && k <= 5 && other != id
    ensures var t := RetireSteps(st, id, k);
      && (other in Entries(t) <==> other in Entries(st))
      && (other in Entries(st) ==> Entries(t)[other] == Entries(st)[other])
      && (other in t.receipts <==> other in st.receipts)
      && (other in st.receipts ==> t.receipts[other] == st.receipts[other])
      && (other in t.logs <==> other in st.logs) && (other in st.logs ==> t.logs[other] == st.logs[other])
      && t.refs == st.refs
      && (other in t.quarantinedReceipts <==> other in st.quarantinedReceipts)
      && (other in st.quarantinedReceipts ==> t.quarantinedReceipts[other] == st.quarantinedReceipts[other])
      && (other in t.quarantinedLogs <==> other in st.quarantinedLogs)
      && (other in st.quarantinedLogs ==> t.quarantinedLogs[other] == st.quarantinedLogs[other])
      && (other in t.retired <==> other in st.retired)
      && (forall pin :: EntryVerifies(t, other, pin) <==> EntryVerifies(st, other, pin))
  {
  }

  /**
    After retiring id, whatever its state, reading succeeds exactly when there are other entries and
    each of them is unretired and verifies.
   */
  lemma TrustedAfterRetire(st: Store, id: Id)
    requires id in Entries(st)
    ensures Trusted(Retired(st, id))
      <==> Entries(st) - {id} != map[]
           && forall other :: other in Entries(st) && other != id ==>
                other !in st.retired && EntryVerifies(st, other, Entries(st)[other])
  {
    hide EntryVerifies, Retired, RetireSteps;
    var done, rest := Retired(st, id), Entries(st) - {id};
    RetiredIndex(st, id);
    forall other | other in rest
      ensures (other in done.retired <==> other in st.retired)
              && (EntryVerifies(done, other, rest[other]) <==> EntryVerifies(st, other, rest[other]))
    {
      RetireFrames(st, id, 5, other);
    }
    assert forall other :: other in rest <==> other in Entries(st) && other != id;
  }

  lemma RetiredIndex(st: Store, id: Id)
    requires id in Entries(st)
    ensures Retired(st, id) == RetireSteps(st, id, 5) && Retired(st, id).index == IndexFile(Entries(st) - {id})
  {
  }

  /** Retiring the only registered run leaves no index, so reading refuses although nothing is corrupt. */
  lemma RetiringTheLastRun(receipt: Receipt)
    requires receipt.sound
    ensures var st := Recorded(Store(None, map[], map[], map[], map[], [], map[], map[]), receipt);
      && Trusted(st) && receipt.id in Entries(st)
      && Retired(st, receipt.id).index == None && !Trusted(Retired(st, receipt.id))
  {
    var st := Recorded(Store(None, map[], map[], map[], map[], [], map[], map[]), receipt);
    assert Entries(st) == map[receipt.id := receipt];
    assert Entries(st) - {receipt.id} == map[];
  }

  /** Recording a fresh run keeps the store trusted and adds exactly that entry. */
  lemma TrustedAfterRecord(st: Store, receipt: Receipt)
    requires st.index.None? || Trusted(st)
    requires receipt.sound && receipt.id !in Entries(st) && receipt.id !in st.retired
    ensures var t := Recorded(st, receipt); Trusted(t) && Entries(t) == Entries(st)[receipt.id := receipt]
  {
    var t := Recorded(st, receipt);
    forall id | id in Entries(st) ensures id !in t.retired && EntryVerifies(t, id, Entries(st)[id]) {
      assert EntryVerifies(st, id, Entries(st)[id]);
    }
    assert receipt.id in Entries(t);
  }
}
