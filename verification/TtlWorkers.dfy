/**
  Any number of workers running `DeleteExpired` at once, on the same queues or on different ones, beside any number of
  writers: what is left when the workers are done, and how many transactions each of them needs.
 */
module TtlWorkers {
  import opened Keyset
  import opened Ttl

  const ZERO := Entry(0, 0)

  // ----- What every worker keeps, whatever the others do -----

  /** Of the entries of its queue other than those that writers may add, a worker has left nothing expired behind its
      cursor, nothing between its cursor and the end of its batch but the batch, and nothing at all when it is done. */
  ghost predicate Covers(w: Worker, q: set<Entry>, added: set<Entry>) {
    && (w.done ==> w.batch == [])
    && forall e :: e in q && e !in added && e.timestamp <= w.timestamp && e != ZERO ==>
         && EntryLess(w.last, e) && !w.done
         && (w.batch != [] ==> e in w.batch || EntryLess(w.batch[|w.batch| - 1], e))
  }

  /** The batch ascends from the cursor. */
  ghost predicate AheadOf(w: Worker) {
    Ascending(EntryLess, w.batch) && forall e :: e in w.batch ==> EntryLess(w.last, e)
  }

  ghost predicate Good(s: System, added: set<Entry>) {
    && StrictOrder(EntryLess) && WorkersOk(s) && EveryDocumentQueued(s.tables)
    && forall id :: id in s.workers ==>
         AheadOf(s.workers[id]) && Covers(s.workers[id], s.tables.queues[s.workers[id].queue], added)
  }

  /** The entries that the writers of a run add. */
  ghost function Added(steps: seq<Step>): set<Entry> {
    set step | step in steps && step.AddDocument? :: Entry(step.doc.timestamp, step.docId)
  }

  ghost predicate AddsOnly(step: Step, added: set<Entry>) {
    step.AddDocument? ==> Entry(step.doc.timestamp, step.docId) in added
  }

  ghost predicate AllAddOnly(steps: seq<Step>, added: set<Entry>) {
    forall step :: step in steps ==> AddsOnly(step, added)
  }

  lemma {:induction false} AddedAddOnly(steps: seq<Step>, more: set<Entry>)
    ensures AllAddOnly(steps, Added(steps) + more)
  {
  }

  lemma {:induction false} CoversLess(w: Worker, q: set<Entry>, q': set<Entry>, added: set<Entry>)
    requires Covers(w, q, added) && q' - added <= q
    ensures Covers(w, q', added)
  {
    forall e | e in q' && e !in added ensures e in q {
      assert e in q' - added;
    }
  }

  /** Reading: whatever is expired is in the batch or after its end. */
  lemma {:induction false} ReadCovers(w: Worker, q: set<Entry>, added: set<Entry>)
    requires StrictOrder(EntryLess) && w.last.timestamp <= w.timestamp && w.batch == [] && Covers(w, q, added)
    ensures var batch := ReadBatch(q, w.timestamp, w.last);
            var w' := w.(batch := batch, done := batch == []);
            AheadOf(w') && Covers(w', q, added)
  {
    hide ReadBatch, StrictOrder, OrderBy;
    var x := Expired(q, w.timestamp, w.last);
    var all, batch := OrderBy(EntryLess, x), ReadBatch(q, w.timestamp, w.last);
    BatchIsNext(q, w.timestamp, w.last);
    OrderByIsSorted(EntryLess, x);
    forall e | e in q && e !in added && e.timestamp <= w.timestamp && e != ZERO
      ensures batch != [] && (e in batch || EntryLess(batch[|batch| - 1], e))
    {
      assert e in x && e in Rows(all);
      var i :| 0 <= i < |all| && all[i] == e;
      if i < |batch| {
        assert batch[i] == e;
      }
    }
  }

  lemma {:induction false} Chain(a: Entry, b: Entry, c: Entry, same: bool)
    requires (same && a == b) || EntryLess(a, b)
    requires EntryLess(b, c)
    ensures EntryLess(a, c)
  {
  }

  /** Deleting: the cursor moves on to the entry that goes. */
  lemma {:induction false} DeleteCovers(w: Worker, q: set<Entry>, added: set<Entry>)
    requires StrictOrder(EntryLess) && w.batch != [] && AheadOf(w) && Covers(w, q, added)
    ensures var w' := w.(last := w.batch[0], batch := w.batch[1..]);
            AheadOf(w') && Covers(w', q - {w.batch[0]}, added)
  {
    hide StrictOrder;
    var w', n := w.(last := w.batch[0], batch := w.batch[1..]), |w.batch| - 1;
    forall e | e in w'.batch ensures EntryLess(w.batch[0], e) {
      var i :| 0 <= i < |w'.batch| && w'.batch[i] == e;
      assert w.batch[i + 1] == e;
    }
    forall e | e in q - {w.batch[0]} && e !in added && e.timestamp <= w.timestamp && e != ZERO
      ensures EntryLess(w.batch[0], e) && (w'.batch != [] ==> e in w'.batch || EntryLess(w'.batch[|w'.batch| - 1], e))
    {
      if e in w.batch {
        var i :| 0 <= i < |w.batch| && w.batch[i] == e;
        assert w'.batch[i - 1] == e;
      } else {
        Chain(w.batch[0], w.batch[n], e, n == 0);
      }
    }
  }

  lemma {:induction false} Fresh(w: Worker, q: set<Entry>, added: set<Entry>)
    requires w.last == ZERO && w.batch == [] && !w.done
    ensures AheadOf(w) && Covers(w, q, added)
  {
  }

  lemma {:induction false} StepKeepsWorker(s: System, step: Step, added: set<Entry>, id: nat)
    requires Good(s, added) && Enabled(s, step) && AddsOnly(step, added) && id in Next(s, step).workers
    ensures var s' := Next(s, step);
            && s'.workers[id].queue < |s'.tables.queues|
            && AheadOf(s'.workers[id]) && Covers(s'.workers[id], s'.tables.queues[s'.workers[id].queue], added)
  {
    hide StrictOrder, EveryDocumentQueued, ReadBatch, AheadOf, Covers;
    var s' := Next(s, step);
    match step
    case AddDocument(_, _, _) =>
      CoversLess(s.workers[id], s.tables.queues[s.workers[id].queue], s'.tables.queues[s.workers[id].queue], added);
    case StartWorker(started, queue, timestamp) =>
      if id == started {
        Fresh(s'.workers[id], s.tables.queues[queue], added);
      }
    case ReadStep(reader) =>
      if id == reader {
        ReadCovers(s.workers[id], s.tables.queues[s.workers[id].queue], added);
      }
    case DeleteStep(deleter) =>
      if id == deleter {
        DeleteCovers(s.workers[id], s.tables.queues[s.workers[id].queue], added);
      } else {
        CoversLess(s.workers[id], s.tables.queues[s.workers[id].queue], s'.tables.queues[s.workers[id].queue], added);
      }
  }

  /** Every step keeps all of that, for every worker. */
  lemma {:induction false} StepKeepsGood(s: System, step: Step, added: set<Entry>)
    requires Good(s, added) && Enabled(s, step) && AddsOnly(step, added)
    ensures Good(Next(s, step), added)
  {
    hide StrictOrder, AheadOf, Covers, EveryDocumentQueued, ReadBatch, AddsOnly;
    StepSafe(s, step);
    var s' := Next(s, step);
    forall id | id in s'.workers
      ensures AheadOf(s'.workers[id]) && Covers(s'.workers[id], s'.tables.queues[s'.workers[id].queue], added)
    {
      StepKeepsWorker(s, step, added, id);
    }
  }

  lemma {:induction false} RunKeepsGood(s: System, steps: seq<Step>, added: set<Entry>)
    requires Good(s, added) && AllAddOnly(steps, added)
    requires StrictOrder(EntryLess) && WorkersOk(s) && EveryDocumentQueued(s.tables)
    ensures Good(Run(s, steps), added)
    decreases |steps|
  {
    hide Good, Next, Enabled, AddsOnly, StrictOrder, WorkersOk, EveryDocumentQueued;
    if steps != [] {
      assert steps[0] in steps && forall step :: step in steps[1..] ==> step in steps;
      if Enabled(s, steps[0]) {
        StepKeepsGood(s, steps[0], added);
        StepSafe(s, steps[0]);
        RunKeepsGood(Next(s, steps[0]), steps[1..], added);
      } else {
        RunKeepsGood(s, steps[1..], added);
      }
    }
  }

  lemma {:induction false} StartIsGood(tables: Tables, added: set<Entry>)
    requires StrictOrder(EntryLess) && EveryDocumentQueued(tables)
    ensures Good(System(tables, map[]), added)
  {
  }

  // ----- What is left when the workers are done -----

  ghost predicate SweptBySome(s: System, i: int, timestamp: nat) {
    exists id :: id in s.workers && s.workers[id].queue == i && s.workers[id].done && s.workers[id].timestamp >= timestamp
  }

  /** Every queue has a worker that is done and was to delete what is not newer than `timestamp`. */
  ghost predicate AllSwept(s: System, timestamp: nat) {
    forall i :: 0 <= i < |s.tables.queues| ==> SweptBySome(s, i, timestamp)
  }

  lemma {:induction false} SweptQueueIsKept(s: System, added: set<Entry>, timestamp: nat, i: nat, e: Entry)
    requires Good(s, added) && AllSwept(s, timestamp) && i < |s.tables.queues| && e in s.tables.queues[i] && e !in added
    ensures e.timestamp > timestamp || e == ZERO
  {
    hide StrictOrder, AheadOf;
    assert SweptBySome(s, i, timestamp);
    var id :| id in s.workers && s.workers[id].queue == i && s.workers[id].done && s.workers[id].timestamp >= timestamp;
    assert Covers(s.workers[id], s.tables.queues[i], added);
  }

  /** Under every interleaving of any number of workers and writers: once every queue has a worker that is done with it,
      every document that is left, unless a writer of the run stored it, is newer than `timestamp` or is document 0 with
      timestamp 0. */
  lemma {:induction false} NothingExpiredIsLeft(tables: Tables, steps: seq<Step>, timestamp: nat, d: DocId)
    requires StrictOrder(EntryLess) && EveryDocumentQueued(tables)
    requires AllSwept(Run(System(tables, map[]), steps), timestamp)
    requires d in Run(System(tables, map[]), steps).tables.documents
    requires forall step :: step in steps && step.AddDocument? ==> step.docId != d
    ensures Kept(Run(System(tables, map[]), steps).tables.documents[d], d, timestamp)
  {
    hide StrictOrder, AllSwept, Run, Good;
    var s := Run(System(tables, map[]), steps);
    StartIsGood(tables, Added(steps));
    AddedAddOnly(steps, {});
    assert Added(steps) + {} == Added(steps);
    RunKeepsGood(System(tables, map[]), steps, Added(steps));
    var e := Entry(s.tables.documents[d].timestamp, d);
    assert HasEntry(s.tables, e);
    var i :| 0 <= i < |s.tables.queues| && e in s.tables.queues[i];
    SweptQueueIsKept(s, Added(steps), timestamp, i, e);
  }

  // ----- What is not touched -----

  ghost predicate NoAdds(steps: seq<Step>) {
    forall step :: step in steps ==> !step.AddDocument?
  }

  ghost predicate AfterZero(w: Worker) {
    forall e :: e in w.batch ==> e != ZERO
  }

  ghost predicate Started(s: System, timestamp: nat) {
    forall id :: id in s.workers ==> s.workers[id].timestamp <= timestamp && AfterZero(s.workers[id])
  }

  ghost predicate StartsUpTo(steps: seq<Step>, timestamp: nat) {
    forall step :: step in steps && step.StartWorker? ==> step.timestamp <= timestamp
  }

  /** Nothing appears or changes, and what is newer than `timestamp` stays, as does document 0 with timestamp 0. */
  ghost predicate SparesKept(before: Tables, after: Tables, timestamp: nat) {
    && (forall d :: d in after.documents ==> d in before.documents && after.documents[d] == before.documents[d])
    && (forall d :: d in before.documents && Kept(before.documents[d], d, timestamp) ==> d in after.documents)
    && |after.queues| == |before.queues|
    && (forall i, e :: 0 <= i < |after.queues| && e in after.queues[i] ==> e in before.queues[i])
    && (forall i, e :: 0 <= i < |before.queues| && e in before.queues[i] && (e.timestamp > timestamp || e == ZERO) ==>
          e in after.queues[i])
  }

  lemma {:induction false} SparesKeptIsTransitive(a: Tables, b: Tables, c: Tables, timestamp: nat)
    requires SparesKept(a, b, timestamp) && SparesKept(b, c, timestamp)
    ensures SparesKept(a, c, timestamp)
  {
    hide Kept;
  }

  lemma {:induction false} SparesItself(t: Tables, timestamp: nat)
    ensures SparesKept(t, t, timestamp)
  {
    hide Kept;
  }

  lemma {:induction false} ReadAfterZero(w: Worker, q: set<Entry>)
    requires StrictOrder(EntryLess)
    ensures AfterZero(w.(batch := ReadBatch(q, w.timestamp, w.last), done := ReadBatch(q, w.timestamp, w.last) == []))
  {
    hide StrictOrder, ReadBatch;
    ZeroEntryIsNeverRead(q, w.timestamp, w.last);
  }

  lemma {:induction false} StepStarts(s: System, step: Step, timestamp: nat)
    requires StrictOrder(EntryLess) && WorkersOk(s)
    requires Started(s, timestamp) && Enabled(s, step) && !step.AddDocument?
    requires step.StartWorker? ==> step.timestamp <= timestamp
    ensures Started(Next(s, step), timestamp)
  {
    hide StrictOrder, ReadBatch, Delete;
    if step.ReadStep? {
      var w := s.workers[step.id];
      ReadAfterZero(w, s.tables.queues[w.queue]);
    } else if step.DeleteStep? {
      var batch := s.workers[step.id].batch;
      assert forall e :: e in batch[1..] ==> e in batch;
    }
  }

  lemma {:induction false} DeleteSparesKept(t: Tables, queue: nat, e: Entry, timestamp: nat)
    requires queue < |t.queues| && e.timestamp <= timestamp && e != ZERO
    ensures SparesKept(t, Delete(t, queue, e), timestamp)
  {
  }

  lemma {:induction false} StepSparesKept(s: System, step: Step, timestamp: nat)
    requires StrictOrder(EntryLess) && WorkersOk(s)
    requires Started(s, timestamp) && Enabled(s, step) && !step.AddDocument?
    ensures SparesKept(s.tables, Next(s, step).tables, timestamp)
  {
    hide StrictOrder, ReadBatch, Delete, SparesKept;
    SparesItself(s.tables, timestamp);
    if step.DeleteStep? {
      var w := s.workers[step.id];
      assert w.batch[0] in w.batch;
      DeleteSparesKept(s.tables, w.queue, w.batch[0], timestamp);
    }
  }

  lemma {:induction false} RunSparesKept(s: System, steps: seq<Step>, timestamp: nat)
    requires StrictOrder(EntryLess) && WorkersOk(s) && EveryDocumentQueued(s.tables)
    requires Started(s, timestamp) && NoAdds(steps) && StartsUpTo(steps, timestamp)
    ensures SparesKept(s.tables, Run(s, steps).tables, timestamp)
    decreases |steps|
  {
    hide Started, Next, Enabled, StrictOrder, EveryDocumentQueued, WorkersOk, Kept, SparesKept;
    if steps == [] {
      SparesItself(s.tables, timestamp);
    } else {
      assert steps[0] in steps && forall step :: step in steps[1..] ==> step in steps;
      if Enabled(s, steps[0]) {
        StepSafe(s, steps[0]);
        var next := Next(s, steps[0]);
        StepStarts(s, steps[0], timestamp);
        StepSparesKept(s, steps[0], timestamp);
        RunSparesKept(next, steps[1..], timestamp);
        SparesKeptIsTransitive(s.tables, next.tables, Run(next, steps[1..]).tables, timestamp);
      } else {
        RunSparesKept(s, steps[1..], timestamp);
      }
    }
  }

  /** So with no writer beside the workers, when all of them run with timestamps up to `timestamp` and every queue has one
      that is done with just that, exactly the newer documents and entries, and document 0 with timestamp 0, are left,
      whatever the interleaving. */
  lemma {:induction false} ExactlyTheExpiredGo(tables: Tables, steps: seq<Step>, timestamp: nat)
    requires StrictOrder(EntryLess) && EveryDocumentQueued(tables) && NoAdds(steps) && StartsUpTo(steps, timestamp)
    requires AllSwept(Run(System(tables, map[]), steps), timestamp)
    ensures Run(System(tables, map[]), steps).tables.documents
         == map d | d in tables.documents && Kept(tables.documents[d], d, timestamp) :: tables.documents[d]
    ensures var queues := Run(System(tables, map[]), steps).tables.queues;
            && |queues| == |tables.queues|
            && forall i :: 0 <= i < |queues| ==>
                 queues[i] == set e | e in tables.queues[i] && (e.timestamp > timestamp || e == ZERO)
  {
    hide StrictOrder, EveryDocumentQueued, AllSwept, Run, Kept;
    var s := System(tables, map[]);
    RunSparesKept(s, steps, timestamp);
    forall d | d in Run(s, steps).tables.documents ensures Kept(Run(s, steps).tables.documents[d], d, timestamp) {
      NothingExpiredIsLeft(tables, steps, timestamp, d);
    }
    StartIsGood(tables, {});
    RunKeepsGood(s, steps, {});
    forall i, e | 0 <= i < |tables.queues| && e in Run(s, steps).tables.queues[i] ensures e.timestamp > timestamp || e == ZERO {
      SweptQueueIsKept(Run(s, steps), {}, timestamp, i, e);
    }
  }

  // ----- How long it takes -----

  /** A worker that is not done can always go on. */
  lemma {:induction false} WorkerGoesOn(s: System, id: nat)
    requires id in s.workers && !s.workers[id].done
    ensures Enabled(s, ReadStep(id)) || Enabled(s, DeleteStep(id))
  {
  }

  ghost predicate StepOf(step: Step, id: nat) {
    (step.ReadStep? || step.DeleteStep?) && step.id == id
  }

  /** The transactions of worker `id` in a run. */
  ghost function Taken(s: System, steps: seq<Step>, id: nat): nat
    requires StrictOrder(EntryLess) && WorkersOk(s) && EveryDocumentQueued(s.tables)
    decreases |steps|
  {
    if steps == [] then 0
    else if Enabled(s, steps[0]) then
      StepSafe(s, steps[0]);
      (if StepOf(steps[0], id) then 1 else 0) + Taken(Next(s, steps[0]), steps[1..], id)
    else Taken(s, steps[1..], id)
  }

  /** What a worker may still have to do, counted on the queue as it was when the run started. */
  ghost function Ahead(w: Worker, q: set<Entry>): nat {
    2 * |Expired(q, w.timestamp, w.last)| + if w.batch == [] && !w.done then 1 else 0
  }

  /** The queue held the batch when the run started. */
  ghost predicate From(w: Worker, q: set<Entry>) {
    forall e :: e in w.batch ==> e in q
  }

  lemma {:induction false} Subset(a: set<Entry>, b: set<Entry>)
    requires a <= b
    ensures |a| <= |b|
  {
    assert b == a + (b - a);
    assert |b| == |a| + |b - a|;
  }

  lemma {:induction false} Fewer(y: set<Entry>, x: set<Entry>, e: Entry)
    requires y <= x && e in x && e !in y
    ensures |y| < |x|
  {
    assert y <= x - {e};
    Subset(y, x - {e});
  }

  lemma {:induction false} CursorLowers(w: Worker, q: set<Entry>)
    requires StrictOrder(EntryLess) && w.batch != [] && AheadOf(w) && From(w, q) && w.batch[0].timestamp <= w.timestamp
    ensures Ahead(w.(last := w.batch[0], batch := w.batch[1..]), q) < Ahead(w, q)
  {
    var e := w.batch[0];
    assert e in w.batch;
    var x, y := Expired(q, w.timestamp, w.last), Expired(q, w.timestamp, e);
    assert e in x && e !in y;
    forall f | f in y ensures f in x {
      Chain(w.last, e, f, false);
    }
    Fewer(y, x, e);
  }

  /** The queues hold, and the workers have read, only what was there at first and what was added. */
  ghost predicate AllFrom(s: System, queues: seq<set<Entry>>, added: set<Entry>) {
    && |s.tables.queues| == |queues|
    && (forall i :: 0 <= i < |queues| ==> s.tables.queues[i] <= queues[i] + added)
    && (forall id :: id in s.workers ==>
          s.workers[id].queue < |queues| && From(s.workers[id], queues[s.workers[id].queue] + added))
  }

  lemma {:induction false} StepStaysFrom(s: System, step: Step, queues: seq<set<Entry>>, added: set<Entry>)
    requires StrictOrder(EntryLess) && WorkersOk(s)
    requires AllFrom(s, queues, added) && Enabled(s, step) && AddsOnly(step, added)
    ensures AllFrom(Next(s, step), queues, added)
  {
    hide StrictOrder, ReadBatch;
    if step.ReadStep? {
      var w := s.workers[step.id];
      BatchIsNext(s.tables.queues[w.queue], w.timestamp, w.last);
    }
  }

  /** A transaction of the worker brings it nearer to its end, and those of the others do not set it back. */
  lemma {:induction false} StepLowers(s: System, step: Step, queues: seq<set<Entry>>, added: set<Entry>, id: nat)
    requires Good(s, added) && AllFrom(s, queues, added) && Enabled(s, step) && id in s.workers
    ensures id in Next(s, step).workers && Next(s, step).workers[id].queue == s.workers[id].queue
    ensures var w, w', q := s.workers[id], Next(s, step).workers[id], queues[s.workers[id].queue] + added;
            if StepOf(step, id) then Ahead(w', q) < Ahead(w, q) else w' == w
  {
    hide StrictOrder, Covers, EveryDocumentQueued, ReadBatch, AheadOf;
    if StepOf(step, id) && step.DeleteStep? {
      assert s.workers[id].batch[0] in s.workers[id].batch;
      CursorLowers(s.workers[id], queues[s.workers[id].queue] + added);
    }
  }

  lemma {:induction false} RunStaysFrom(s: System, steps: seq<Step>, queues: seq<set<Entry>>, added: set<Entry>)
    requires StrictOrder(EntryLess) && WorkersOk(s) && EveryDocumentQueued(s.tables)
    requires AllFrom(s, queues, added) && AllAddOnly(steps, added)
    ensures AllFrom(Run(s, steps), queues, added)
    decreases |steps|
  {
    hide Next, Enabled, StrictOrder, EveryDocumentQueued, WorkersOk, AllFrom, AddsOnly;
    if steps != [] {
      assert steps[0] in steps && forall step :: step in steps[1..] ==> step in steps;
      if Enabled(s, steps[0]) {
        StepSafe(s, steps[0]);
        StepStaysFrom(s, steps[0], queues, added);
        RunStaysFrom(Next(s, steps[0]), steps[1..], queues, added);
      } else {
        RunStaysFrom(s, steps[1..], queues, added);
      }
    }
  }

  lemma {:induction false} RunLowers(s: System, steps: seq<Step>, queues: seq<set<Entry>>, added: set<Entry>, id: nat)
    requires StrictOrder(EntryLess) && WorkersOk(s) && EveryDocumentQueued(s.tables)
    requires Good(s, added) && AllFrom(s, queues, added) && AllAddOnly(steps, added) && id in s.workers
    ensures id in Run(s, steps).workers && Run(s, steps).workers[id].queue == s.workers[id].queue < |queues|
    ensures var q := queues[s.workers[id].queue] + added;
            Taken(s, steps, id) + Ahead(Run(s, steps).workers[id], q) <= Ahead(s.workers[id], q)
    decreases |steps|
  {
    hide Good, Next, Enabled, StrictOrder, EveryDocumentQueued, WorkersOk, Ahead, StepOf, AddsOnly;
    if steps != [] {
      assert steps[0] in steps && forall step :: step in steps[1..] ==> step in steps;
      if Enabled(s, steps[0]) {
        StepKeepsGood(s, steps[0], added);
        StepSafe(s, steps[0]);
        StepStaysFrom(s, steps[0], queues, added);
        StepLowers(s, steps[0], queues, added, id);
        RunLowers(Next(s, steps[0]), steps[1..], queues, added, id);
      } else {
        RunLowers(s, steps[1..], queues, added, id);
      }
    }
  }

  lemma {:induction false} Starts(s: System, step: Step)
    requires StrictOrder(EntryLess) && WorkersOk(s) && step.StartWorker? && Enabled(s, step)
    ensures step.id in Next(s, step).workers
    ensures Next(s, step).workers[step.id] == Worker(step.queue, step.timestamp, ZERO, [], false)
    ensures step.queue < |s.tables.queues|
  {
  }

  /** However long a run and whatever the others do: a worker that is started in it takes at most two transactions for each
      entry that its queue held at first or that was added and that has expired for it, and one more. */
  lemma {:induction false} WorkerIsShort(tables: Tables, before: seq<Step>, start: Step, steps: seq<Step>)
    requires StrictOrder(EntryLess) && EveryDocumentQueued(tables)
    requires start.StartWorker? && Enabled(Run(System(tables, map[]), before), start)
    ensures start.queue < |tables.queues|
    ensures var s := Next(Run(System(tables, map[]), before), start);
            var q := tables.queues[start.queue] + Added(before) + Added(steps);
            && WorkersOk(s) && EveryDocumentQueued(s.tables)
            && Taken(s, steps, start.id) <= 2 * |Expired(q, start.timestamp, ZERO)| + 1
  {
    hide StrictOrder, EveryDocumentQueued, WorkersOk, Run, Good, Taken, Next, Enabled, Added, Expired;
    var added := Added(before) + Added(steps);
    var first := System(tables, map[]);
    StartIsGood(tables, added);
    AddedAddOnly(before, Added(steps));
    AddedAddOnly(steps, Added(before));
    assert Added(steps) + Added(before) == added;
    RunKeepsGood(first, before, added);
    RunStaysFrom(first, before, tables.queues, added);
    var s := Run(first, before);
    StepKeepsGood(s, start, added);
    StepSafe(s, start);
    StepStaysFrom(s, start, tables.queues, added);
    Starts(s, start);
    RunLowers(Next(s, start), steps, tables.queues, added, start.id);
    assert tables.queues[start.queue] + added == tables.queues[start.queue] + Added(before) + Added(steps);
  }
}
