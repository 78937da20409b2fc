/**
  The expiration queues of the ttl example. A document is stored with a timestamp and an entry for it goes into one
  of several queues; workers read the expired entries of a queue batch by batch and delete them one by one.
  Each transaction is serializable, hence one atomic step on the tables.
 */
module Ttl {
  import opened Keyset

  const EXPIRATION_QUEUE_COUNT := 4
  const BATCH := 100

  type DocId = nat

  datatype Document = Document(url: string, html: string, timestamp: nat)

  datatype Entry = Entry(timestamp: nat, docId: DocId)

  /** The tables: `documents` and the queues. */
  datatype Tables = Tables(documents: map<DocId, Document>, queues: seq<set<Entry>>)

  predicate EntryLess(a: Entry, b: Entry) {
    a.timestamp < b.timestamp || (a.timestamp == b.timestamp && a.docId < b.docId)
  }

  lemma {:induction false} EntryOrder()
    ensures StrictOrder(EntryLess)
  {
  }

  // ----- The transactions -----

  /** `AddDocumentTransaction`: `queue` is the random queue, `docId` the hash of the url. */
  function Add(t: Tables, queue: nat, docId: DocId, doc: Document): Tables
    requires queue < |t.queues|
  {
    Tables(t.documents[docId := doc], t.queues[queue := t.queues[queue] + {Entry(doc.timestamp, docId)}])
  }

  /** `DeleteDocumentWithTimestamp`: the document goes only if it still carries the timestamp of the entry. */
  function Delete(t: Tables, queue: nat, e: Entry): Tables
    requires queue < |t.queues|
  {
    Tables(
      if e.docId in t.documents && t.documents[e.docId].timestamp == e.timestamp then t.documents - {e.docId} else t.documents,
      t.queues[queue := t.queues[queue] - {e}])
  }

  /** The expired entries of a queue that lie after the cursor. */
  ghost function Expired(q: set<Entry>, timestamp: nat, cursor: Entry): set<Entry> {
    set e | e in q && EntryLess(cursor, e) && e.timestamp <= timestamp
  }

  function LaterTimestamps(q: set<Entry>, timestamp: nat, prev: Entry): set<Entry> {
    set e | e in q && e.timestamp <= timestamp && e.timestamp > prev.timestamp
  }

  function SameTimestamp(q: set<Entry>, prev: Entry): set<Entry> {
    set e | e in q && e.timestamp == prev.timestamp && e.docId > prev.docId
  }

  /** `ReadExpiredBatchTransaction`. */
  function ReadBatch(q: set<Entry>, timestamp: nat, prev: Entry): seq<Entry>
    requires StrictOrder(EntryLess)
  {
    TwoPartQuery(EntryLess, SameTimestamp(q, prev), LaterTimestamps(q, timestamp, prev), BATCH)
  }

  /** A batch is the next hundred expired entries after the cursor, in (timestamp, doc_id) order. */
  lemma {:induction false} BatchIsNext(q: set<Entry>, timestamp: nat, prev: Entry)
    requires StrictOrder(EntryLess) && prev.timestamp <= timestamp
    ensures ReadBatch(q, timestamp, prev) == Limit(OrderBy(EntryLess, Expired(q, timestamp, prev)), 100)
    ensures forall e :: e in ReadBatch(q, timestamp, prev) ==> e in Expired(q, timestamp, prev)
  {
    var a, b := SameTimestamp(q, prev), LaterTimestamps(q, timestamp, prev);
    assert a + b == Expired(q, timestamp, prev);
    TwoPartQueryIsPage(EntryLess, a, b, BATCH);
    OrderByIsSorted(EntryLess, a + b);
    assert forall e :: e in ReadBatch(q, timestamp, prev) ==> e in Rows(OrderBy(EntryLess, a + b));
  }

  // ----- Any number of workers and writers -----

  /** A worker running `DeleteExpired`: its queue and timestamp, the last entry it deleted, the rest of its batch. */
  datatype Worker = Worker(queue: nat, timestamp: nat, last: Entry, batch: seq<Entry>, done: bool)

  datatype System = System(tables: Tables, workers: map<nat, Worker>)

  datatype Step =
    | AddDocument(queue: nat, docId: DocId, doc: Document)
    | StartWorker(id: nat, queue: nat, timestamp: nat)
    | ReadStep(id: nat)
    | DeleteStep(id: nat)

  ghost predicate Enabled(s: System, step: Step) {
    match step
    case AddDocument(queue, _, _) => queue < |s.tables.queues|
    case StartWorker(id, queue, _) => id !in s.workers && queue < |s.tables.queues|
    case ReadStep(id) => id in s.workers && !s.workers[id].done && s.workers[id].batch == []
    case DeleteStep(id) => id in s.workers && s.workers[id].batch != []
  }

  ghost predicate WorkersOk(s: System) {
    forall id :: id in s.workers ==>
      var w := s.workers[id];
      && w.queue < |s.tables.queues|
      && w.last.timestamp <= w.timestamp
      && forall e :: e in w.batch ==> e.timestamp <= w.timestamp
  }

  ghost function Next(s: System, step: Step): System
    requires StrictOrder(EntryLess) && Enabled(s, step) && WorkersOk(s)
  {
    match step
    case AddDocument(queue, docId, doc) => s.(tables := Add(s.tables, queue, docId, doc))
    case StartWorker(id, queue, timestamp) =>
      s.(workers := s.workers[id := Worker(queue, timestamp, Entry(0, 0), [], false)])
    case ReadStep(id) =>
      var w := s.workers[id];
      var batch := ReadBatch(s.tables.queues[w.queue], w.timestamp, w.last);
      s.(workers := s.workers[id := w.(batch := batch, done := batch == [])])
    case DeleteStep(id) =>
      var w := s.workers[id];
      System(Delete(s.tables, w.queue, w.batch[0]),
             s.workers[id := w.(last := w.batch[0], batch := w.batch[1..])])
  }

  ghost predicate HasEntry(t: Tables, e: Entry) {
    exists i :: 0 <= i < |t.queues| && e in t.queues[i]
  }

  /** Every stored document has a queue entry with its current timestamp. */
  ghost predicate EveryDocumentQueued(t: Tables) {
    forall d :: d in t.documents ==> HasEntry(t, Entry(t.documents[d].timestamp, d))
  }

  lemma {:induction false} AddKeeps(t: Tables, queue: nat, docId: DocId, doc: Document)
    requires queue < |t.queues| && EveryDocumentQueued(t)
    ensures EveryDocumentQueued(Add(t, queue, docId, doc))
    ensures docId in Add(t, queue, docId, doc).documents && Add(t, queue, docId, doc).documents[docId] == doc
    ensures Add(t, queue, docId, doc).documents - {docId} == t.documents - {docId}
    ensures forall e :: HasEntry(Add(t, queue, docId, doc), e) <==> HasEntry(t, e) || e == Entry(doc.timestamp, docId)
    ensures |Add(t, queue, docId, doc).queues| == |t.queues|
    ensures forall i, e :: 0 <= i < |t.queues| ==>
              (e in Add(t, queue, docId, doc).queues[i] <==>
               e in t.queues[i] || (i == queue && e == Entry(doc.timestamp, docId)))
  {
    var t' := Add(t, queue, docId, doc);
    forall d | d in t'.documents ensures HasEntry(t', Entry(t'.documents[d].timestamp, d)) {
      var e := Entry(t'.documents[d].timestamp, d);
      if d == docId {
        assert e in t'.queues[queue];
      } else {
        var i :| 0 <= i < |t.queues| && e in t.queues[i];
        assert e in t'.queues[i];
      }
    }
    forall e | HasEntry(t, e) ensures HasEntry(t', e) {
      var i :| 0 <= i < |t.queues| && e in t.queues[i];
      assert e in t'.queues[i];
    }
    forall e | HasEntry(t', e) ensures HasEntry(t, e) || e == Entry(doc.timestamp, docId) {
      var i :| 0 <= i < |t'.queues| && e in t'.queues[i];
      assert e in t.queues[i] || e == Entry(doc.timestamp, docId);
    }
    assert Entry(doc.timestamp, docId) in t'.queues[queue];
  }

  lemma {:induction false} DeleteKeeps(t: Tables, queue: nat, e: Entry)
    requires queue < |t.queues| && EveryDocumentQueued(t)
    ensures EveryDocumentQueued(Delete(t, queue, e))
  {
    var t' := Delete(t, queue, e);
    forall d | d in t'.documents ensures HasEntry(t', Entry(t'.documents[d].timestamp, d)) {
      var f := Entry(t'.documents[d].timestamp, d);
      var i :| 0 <= i < |t.queues| && f in t.queues[i];
      assert f != e;
      assert f in t'.queues[i];
    }
  }

  /** Under any interleaving of writers and workers: the queue invariant holds after every step, and a step that removes a
      document is a delete by a worker, of the entry with the current timestamp of that document, which is not after the
      timestamp of the worker. */
  lemma {:induction false} StepSafe(s: System, step: Step)
    requires StrictOrder(EntryLess) && WorkersOk(s) && EveryDocumentQueued(s.tables) && Enabled(s, step)
    ensures var s' := Next(s, step);
            && WorkersOk(s') && EveryDocumentQueued(s'.tables)
            && (forall d :: d in s.tables.documents && d !in s'.tables.documents ==>
                  && step.DeleteStep? && s.tables.documents[d].timestamp <= s.workers[step.id].timestamp
                  && s.workers[step.id].batch[0] == Entry(s.tables.documents[d].timestamp, d))
            && (forall d :: d in s.tables.documents && d in s'.tables.documents && !step.AddDocument? ==>
                  s'.tables.documents[d] == s.tables.documents[d])
  {
    match step
    case AddDocument(queue, docId, doc) => AddKeeps(s.tables, queue, docId, doc);
    case StartWorker(_, _, _) =>
    case ReadStep(id) =>
      var w := s.workers[id];
      BatchIsNext(s.tables.queues[w.queue], w.timestamp, w.last);
    case DeleteStep(id) =>
      var w := s.workers[id];
      assert w.batch[0] in w.batch;
      DeleteKeeps(s.tables, w.queue, w.batch[0]);
  }

  ghost function Run(s: System, steps: seq<Step>): System
    requires StrictOrder(EntryLess) && WorkersOk(s) && EveryDocumentQueued(s.tables)
    ensures WorkersOk(Run(s, steps)) && EveryDocumentQueued(Run(s, steps).tables)
    decreases |steps|
  {
    if steps == [] then s
    else if Enabled(s, steps[0]) then StepSafe(s, steps[0]); Run(Next(s, steps[0]), steps[1..])
    else Run(s, steps[1..])
  }

  lemma {:induction false} RunSnoc(s: System, steps: seq<Step>, step: Step)
    requires StrictOrder(EntryLess) && WorkersOk(s) && EveryDocumentQueued(s.tables)
    requires Enabled(Run(s, steps), step)
    ensures Run(s, steps + [step]) == Next(Run(s, steps), step)
    decreases |steps|
  {
    hide StrictOrder, WorkersOk, EveryDocumentQueued, Enabled, Next;
    if steps == [] {
      StepSafe(s, step);
      assert [step][1..] == [];
      assert steps + [step] == [step];
    } else {
      assert (steps + [step])[1..] == steps[1..] + [step];
      if Enabled(s, steps[0]) {
        StepSafe(s, steps[0]);
        RunSnoc(Next(s, steps[0]), steps[1..], step);
      } else {
        RunSnoc(s, steps[1..], step);
      }
    }
  }

  ghost predicate Outlives(s: System, steps: seq<Step>, d: DocId, timestamp: nat) {
    && (forall id :: id in s.workers ==> s.workers[id].timestamp < timestamp)
    && (forall step :: step in steps && step.StartWorker? ==> step.timestamp < timestamp)
    && (forall step :: step in steps && step.AddDocument? ==> step.docId != d)
  }

  /** In any run a document that is not written again outlives all workers with an earlier timestamp. */
  lemma {:induction false} FreshDocumentSurvives(s: System, steps: seq<Step>, d: DocId)
    requires StrictOrder(EntryLess) && WorkersOk(s) && EveryDocumentQueued(s.tables)
    requires d in s.tables.documents && Outlives(s, steps, d, s.tables.documents[d].timestamp)
    ensures var s' := Run(s, steps); d in s'.tables.documents && s'.tables.documents[d] == s.tables.documents[d]
    decreases |steps|
  {
    hide StrictOrder, WorkersOk, EveryDocumentQueued;
    if steps != [] {
      var rest := steps[1..];
      assert forall step :: step in rest ==> step in steps;
      assert steps[0] in steps;
      if Enabled(s, steps[0]) {
        StepSafe(s, steps[0]);
        FreshDocumentSurvives(Next(s, steps[0]), rest, d);
      } else {
        FreshDocumentSurvives(s, rest, d);
      }
    }
  }

  // ----- A worker with no other worker and no writer beside it -----

  /** The steps take the tables `before` to `t` and a single worker to `w`. */
  ghost predicate Takes(before: Tables, steps: seq<Step>, t: Tables, w: Worker) {
    StrictOrder(EntryLess) && EveryDocumentQueued(before) ==>
      Run(System(before, map[]), steps) == System(t, map[0 := w])
  }

  lemma {:induction false} TakesStart(t: Tables, queue: nat, timestamp: nat)
    requires queue < |t.queues|
    ensures Takes(t, [StartWorker(0, queue, timestamp)], t, Worker(queue, timestamp, Entry(0, 0), [], false))
  {
    hide StrictOrder, EveryDocumentQueued;
    var s, step := System(t, map[]), StartWorker(0, queue, timestamp);
    if StrictOrder(EntryLess) && EveryDocumentQueued(t) {
      assert Run(s, []) == s;
      RunSnoc(s, [], step);
      assert [] + [step] == [step];
    }
  }

  lemma {:induction false} TakesRead(before: Tables, steps: seq<Step>, t: Tables, w: Worker)
    requires StrictOrder(EntryLess)
    requires Takes(before, steps, t, w) && w.queue < |t.queues| && w.batch == [] && !w.done
    ensures var batch := ReadBatch(t.queues[w.queue], w.timestamp, w.last);
            Takes(before, steps + [ReadStep(0)], t, w.(batch := batch, done := batch == []))
  {
    hide StrictOrder, EveryDocumentQueued, ReadBatch, Run;
    if EveryDocumentQueued(before) {
      RunSnoc(System(before, map[]), steps, ReadStep(0));
      var batch := ReadBatch(t.queues[w.queue], w.timestamp, w.last);
      var w' := w.(batch := batch, done := batch == []);
      assert map[0 := w][0 := w'] == map[0 := w'];
    }
  }

  lemma {:induction false} TakesDelete(before: Tables, steps: seq<Step>, t: Tables, w: Worker)
    requires Takes(before, steps, t, w) && w.queue < |t.queues| && w.batch != []
    ensures Takes(before, steps + [DeleteStep(0)], Delete(t, w.queue, w.batch[0]), w.(last := w.batch[0], batch := w.batch[1..]))
  {
    hide StrictOrder, EveryDocumentQueued, Run, Delete;
    if StrictOrder(EntryLess) && EveryDocumentQueued(before) {
      RunSnoc(System(before, map[]), steps, DeleteStep(0));
      var w' := w.(last := w.batch[0], batch := w.batch[1..]);
      assert map[0 := w][0 := w'] == map[0 := w'];
    }
  }

  ghost function UpTo(q: set<Entry>, timestamp: nat): set<Entry> {
    set e | e in q && e.timestamp <= timestamp
  }

  /** The tables with the given entries of a queue deleted, and the documents that still carry their timestamps. */
  ghost function DeleteAll(t: Tables, queue: nat, gone: set<Entry>): Tables
    requires queue < |t.queues|
  {
    Tables(
      map d | d in t.documents && Entry(t.documents[d].timestamp, d) !in gone :: t.documents[d],
      t.queues[queue := t.queues[queue] - gone])
  }

  lemma {:induction false} DeleteOne(t: Tables, queue: nat, gone: set<Entry>, e: Entry)
    requires queue < |t.queues|
    ensures Delete(DeleteAll(t, queue, gone), queue, e) == DeleteAll(t, queue, gone + {e})
    ensures |DeleteAll(t, queue, gone + {e}).queues| == |t.queues|
  {
    var a, b := Delete(DeleteAll(t, queue, gone), queue, e), DeleteAll(t, queue, gone + {e});
    assert a.documents == b.documents;
    assert t.queues[queue] - gone - {e} == t.queues[queue] - (gone + {e});
    assert a.queues == b.queues;
  }

  /** The entries of the queue as it was that have been dealt with when the cursor is at `last`. */
  ghost function Past(q: set<Entry>, timestamp: nat, last: Entry): set<Entry> {
    Expired(q, timestamp, Entry(0, 0)) - Expired(q, timestamp, last)
  }

  lemma {:induction false} ExpiredIsAfter(q: set<Entry>, timestamp: nat, last: Entry)
    ensures Expired(q, timestamp, last) == After(EntryLess, UpTo(q, timestamp), last)
  {
  }

  /** What the worker still finds does not depend on what it has deleted. */
  lemma {:induction false} ExpiredAhead(q: set<Entry>, timestamp: nat, last: Entry)
    ensures Expired(q - Past(q, timestamp, last), timestamp, last) == Expired(q, timestamp, last)
  {
  }

  lemma {:induction false} SplitRows(todo: seq<Entry>, i: nat, e: Entry)
    requires i <= |todo| && StrictOrder(EntryLess) && Ascending(EntryLess, todo)
    ensures e in todo <==> e in todo[..i] || e in todo[i..]
    ensures !(e in todo[..i] && e in todo[i..])
  {
    assert todo == todo[..i] + todo[i..];
  }

  /** Row `i` of the entries still to come takes the cursor one entry further. */
  lemma {:induction false} CursorMoves(q: set<Entry>, timestamp: nat, last: Entry, i: nat)
    requires StrictOrder(EntryLess)
    requires i < |OrderBy(EntryLess, Expired(q, timestamp, last))|
    requires EntryLess(Entry(0, 0), last) || last == Entry(0, 0)
    ensures var todo := OrderBy(EntryLess, Expired(q, timestamp, last));
            && OrderBy(EntryLess, Expired(q, timestamp, todo[i])) == todo[i + 1..]
            && EntryLess(Entry(0, 0), todo[i]) && todo[i].timestamp <= timestamp
            && Past(q, timestamp, todo[i]) == Past(q, timestamp, last) + Rows(todo[..i + 1])
  {
    var s := UpTo(q, timestamp);
    ExpiredIsAfter(q, timestamp, last);
    var todo := OrderBy(EntryLess, Expired(q, timestamp, last));
    AfterRow(EntryLess, s, last, i);
    ExpiredIsAfter(q, timestamp, todo[i]);
    OrderByIsSorted(EntryLess, Expired(q, timestamp, last));
    OrderByIsSorted(EntryLess, Expired(q, timestamp, todo[i]));
    assert todo[i] in Rows(todo);
    var ahead := Expired(q, timestamp, todo[i]);
    forall e ensures e in Past(q, timestamp, todo[i]) <==> e in Past(q, timestamp, last) + Rows(todo[..i + 1]) {
      assert e in ahead <==> e in todo[i + 1..];
      assert e in Expired(q, timestamp, last) <==> e in todo;
      SplitRows(todo, i + 1, e);
      if e in todo[..i + 1] {
        assert e in Expired(q, timestamp, last) && !(e in ahead);
      }
    }
  }

  /** The row loop of one batch: where it leaves the cursor and what it deletes. */
  lemma {:induction false} BatchDone(q: set<Entry>, timestamp: nat, last: Entry, batch: seq<Entry>, i: nat)
    requires StrictOrder(EntryLess) && (EntryLess(Entry(0, 0), last) || last == Entry(0, 0))
    requires batch == Limit(OrderBy(EntryLess, Expired(q, timestamp, last)), BATCH) && i < |batch|
    ensures EntryLess(Entry(0, 0), batch[i]) && batch[i].timestamp <= timestamp
    ensures Past(q, timestamp, batch[i]) == Past(q, timestamp, last) + Rows(batch[..i + 1])
    ensures |OrderBy(EntryLess, Expired(q, timestamp, batch[i]))| < |OrderBy(EntryLess, Expired(q, timestamp, last))|
  {
    hide StrictOrder, OrderBy, Expired, Past;
    CursorMoves(q, timestamp, last, i);
    assert batch[..i + 1] == OrderBy(EntryLess, Expired(q, timestamp, last))[..i + 1];
  }

  lemma {:induction false} NothingLeft(q: set<Entry>, timestamp: nat, last: Entry)
    requires StrictOrder(EntryLess) && Limit(OrderBy(EntryLess, Expired(q, timestamp, last)), BATCH) == []
    ensures Past(q, timestamp, last) == Expired(q, timestamp, Entry(0, 0))
  {
    OrderByIsSorted(EntryLess, Expired(q, timestamp, last));
    assert OrderBy(EntryLess, Expired(q, timestamp, last)) == [];
  }

  /** The documents that a worker with this timestamp would leave: newer ones, and document 0 with timestamp 0, whose
      entry the first cursor skips. */
  ghost predicate Kept(doc: Document, d: DocId, timestamp: nat) {
    doc.timestamp > timestamp || Entry(doc.timestamp, d) == Entry(0, 0)
  }

  lemma {:induction false} NothingPast(t: Tables, queue: nat, timestamp: nat)
    requires queue < |t.queues|
    ensures t == DeleteAll(t, queue, Past(t.queues[queue], timestamp, Entry(0, 0)))
  {
    var gone := Past(t.queues[queue], timestamp, Entry(0, 0));
    assert gone == {};
    assert t.queues[queue] - gone == t.queues[queue];
    assert DeleteAll(t, queue, gone).documents == t.documents;
  }

  lemma {:induction false} BatchOf(before: Tables, queue: nat, timestamp: nat, last: Entry)
    requires StrictOrder(EntryLess) && queue < |before.queues| && last.timestamp <= timestamp
    ensures var q := before.queues[queue];
            var t := DeleteAll(before, queue, Past(q, timestamp, last));
            ReadBatch(t.queues[queue], timestamp, last) == Limit(OrderBy(EntryLess, Expired(q, timestamp, last)), BATCH)
  {
    hide StrictOrder, OrderBy, Expired, Past, TwoPartQuery;
    var q := before.queues[queue];
    var t := DeleteAll(before, queue, Past(q, timestamp, last));
    BatchIsNext(t.queues[queue], timestamp, last);
    ExpiredAhead(q, timestamp, last);
  }

  lemma {:induction false} RowDone(before: Tables, queue: nat, timestamp: nat, cursor: Entry, batch: seq<Entry>, i: nat)
    requires StrictOrder(EntryLess) && queue < |before.queues| && i < |batch|
    requires EntryLess(Entry(0, 0), cursor) || cursor == Entry(0, 0)
    requires batch == Limit(OrderBy(EntryLess, Expired(before.queues[queue], timestamp, cursor)), BATCH)
    ensures var q := before.queues[queue];
            var last := if i == 0 then cursor else batch[i - 1];
            && Delete(DeleteAll(before, queue, Past(q, timestamp, last)), queue, batch[i])
               == DeleteAll(before, queue, Past(q, timestamp, batch[i]))
            && |DeleteAll(before, queue, Past(q, timestamp, batch[i])).queues| == |before.queues|
            && EntryLess(Entry(0, 0), batch[i]) && batch[i].timestamp <= timestamp
            && |OrderBy(EntryLess, Expired(q, timestamp, batch[i]))| < |OrderBy(EntryLess, Expired(q, timestamp, cursor))|
  {
    hide StrictOrder, OrderBy, Expired, Past, Delete, DeleteAll, EntryLess;
    var q := before.queues[queue];
    var last := if i == 0 then cursor else batch[i - 1];
    BatchDone(q, timestamp, cursor, batch, i);
    if i > 0 {
      BatchDone(q, timestamp, cursor, batch, i - 1);
    }
    DeleteOne(before, queue, Past(q, timestamp, last), batch[i]);
    assert batch[..i + 1] == batch[..i] + [batch[i]];
    assert Past(q, timestamp, batch[i]) == Past(q, timestamp, last) + {batch[i]};
  }

  /** The first `n` queues hold no expired entry any more; every removed document was expired. */
  ghost predicate SweptTo(before: Tables, t: Tables, timestamp: nat, n: nat) {
    && n <= |t.queues|
    && EveryDocumentQueued(t)
    && (forall i :: 0 <= i < n ==> Expired(t.queues[i], timestamp, Entry(0, 0)) == {})
    && (forall d :: d in t.documents ==> d in before.documents && t.documents[d] == before.documents[d])
    && (forall d :: d in before.documents && Kept(before.documents[d], d, timestamp) ==> d in t.documents)
  }

  lemma {:induction false} SweepQueue(before: Tables, t: Tables, timestamp: nat, n: nat)
    requires SweptTo(before, t, timestamp, n) && n < |t.queues|
    ensures SweptTo(before, DeleteAll(t, n, Expired(t.queues[n], timestamp, Entry(0, 0))), timestamp, n + 1)
  {
    var gone := Expired(t.queues[n], timestamp, Entry(0, 0));
    var t' := DeleteAll(t, n, gone);
    forall d | d in t'.documents ensures HasEntry(t', Entry(t'.documents[d].timestamp, d)) {
      var e := Entry(t'.documents[d].timestamp, d);
      assert HasEntry(t, e);
      var i :| 0 <= i < |t.queues| && e in t.queues[i];
      assert e in t'.queues[i];
    }
    assert Expired(t'.queues[n], timestamp, Entry(0, 0)) == {};
  }

  lemma {:induction false} SweptAll(before: Tables, t: Tables, timestamp: nat)
    requires SweptTo(before, t, timestamp, |t.queues|)
    ensures t.documents == map d | d in before.documents && Kept(before.documents[d], d, timestamp) :: before.documents[d]
  {
    forall d | d in t.documents ensures Kept(before.documents[d], d, timestamp) {
      var e := Entry(t.documents[d].timestamp, d);
      assert HasEntry(t, e);
      var i :| 0 <= i < |t.queues| && e in t.queues[i];
      assert e !in Expired(t.queues[i], timestamp, Entry(0, 0));
    }
  }

  /** The entry that no worker ever finds, because every worker starts with its cursor there: it is in no batch. */
  lemma {:induction false} ZeroEntryIsNeverRead(q: set<Entry>, timestamp: nat, prev: Entry)
    requires StrictOrder(EntryLess)
    ensures Entry(0, 0) !in ReadBatch(q, timestamp, prev)
  {
    hide StrictOrder, OrderBy;
    var a, b := SameTimestamp(q, prev), LaterTimestamps(q, timestamp, prev);
    TwoPartQueryIsPage(EntryLess, a, b, BATCH);
    OrderByIsSorted(EntryLess, a + b);
    assert Entry(0, 0) !in Rows(OrderBy(EntryLess, a + b));
  }

  class Database {
    var tables: Tables

    constructor ()
      ensures tables.documents == map[] && |tables.queues| == 4 && forall i :: 0 <= i < 4 ==> tables.queues[i] == {}
      ensures EveryDocumentQueued(tables)
    {
      tables := Tables(map[], seq(EXPIRATION_QUEUE_COUNT, _ => {}));
    }

    /** The document is stored and its entry goes into the given queue; no other document, entry or queue changes. */
    method AddDocument(queue: nat, docId: DocId, doc: Document)
      requires queue < |tables.queues| && EveryDocumentQueued(tables)
      modifies this
      ensures EveryDocumentQueued(tables)
      ensures docId in tables.documents && tables.documents[docId] == doc
      ensures tables.documents - {docId} == old(tables.documents) - {docId}
      ensures |tables.queues| == |old(tables.queues)|
      ensures forall i, e :: 0 <= i < |tables.queues| ==>
                (e in tables.queues[i] <==>
                 e in old(tables.queues)[i] || (i == queue && e == Entry(doc.timestamp, docId)))
      ensures tables == Add(old(tables), queue, docId, doc)
    {
      AddKeeps(tables, queue, docId, doc);
      tables := Tables(tables.documents[docId := doc],
                       tables.queues[queue := tables.queues[queue] + {Entry(doc.timestamp, docId)}]);
    }

    /** The document of the entry goes if it still carries the timestamp of the entry, and no other document goes or
        changes; the entry goes from its queue. Every document that is left still has an entry. */
    method DeleteDocumentWithTimestamp(queue: nat, e: Entry)
      requires queue < |tables.queues|
      modifies this
      ensures old(EveryDocumentQueued(tables)) ==> EveryDocumentQueued(tables)
      ensures forall d :: d in old(tables.documents) && d !in tables.documents <==>
                          d in old(tables.documents) && e == Entry(old(tables.documents)[d].timestamp, d)
      ensures forall d :: d in tables.documents ==> d in old(tables.documents) && tables.documents[d] == old(tables.documents)[d]
      ensures tables.queues == old(tables.queues)[queue := old(tables.queues)[queue] - {e}]
      ensures tables == Delete(old(tables), queue, e)
    {
      if EveryDocumentQueued(tables) {
        DeleteKeeps(tables, queue, e);
      }
      var documents := tables.documents;
      if e.docId in documents && documents[e.docId].timestamp == e.timestamp {
        documents := documents - {e.docId};
      }
      tables := Tables(documents, tables.queues[queue := tables.queues[queue] - {e}]);
    }

    /** `DeleteExpired` with no other worker and no writer beside it: deletes every expired entry of the queue but (0, 0),
        together with the documents that still carry the timestamps of these entries, and nothing else. Its transactions
        are the steps of one worker, from its start until it is done. */
    method DeleteExpired(queue: nat, timestamp: nat) returns (ghost steps: seq<Step>, ghost worker: Worker)
      requires queue < |tables.queues|
      modifies this
      ensures tables == DeleteAll(old(tables), queue, Expired(old(tables).queues[queue], timestamp, Entry(0, 0)))
      ensures Takes(old(tables), steps, tables, worker)
      ensures worker.queue == queue && worker.timestamp == timestamp && worker.done
      ensures forall step :: step in steps ==> !step.AddDocument?
    {
      hide StrictOrder, OrderBy, Expired, Past, Delete, DeleteAll, TwoPartQuery, Takes;
      EntryOrder();
      ghost var before, q := tables, tables.queues[queue];
      var empty := false;
      var last := Entry(0, 0);
      NothingPast(before, queue, timestamp);
      steps, worker := [StartWorker(0, queue, timestamp)], Worker(queue, timestamp, last, [], false);
      TakesStart(tables, queue, timestamp);
      while !empty
        invariant |tables.queues| == |before.queues|
        invariant tables == DeleteAll(before, queue, Past(q, timestamp, last))
        invariant (EntryLess(Entry(0, 0), last) || last == Entry(0, 0)) && last.timestamp <= timestamp
        invariant empty ==> Past(q, timestamp, last) == Expired(q, timestamp, Entry(0, 0))
        invariant Takes(before, steps, tables, worker) && worker == Worker(queue, timestamp, last, [], empty)
        invariant forall step :: step in steps ==> !step.AddDocument?
        decreases |OrderBy(EntryLess, Expired(q, timestamp, last))|, !empty
      {
        var batch := ReadBatch(tables.queues[queue], timestamp, last);
        BatchOf(before, queue, timestamp, last);
        TakesRead(before, steps, tables, worker);
        steps, worker := steps + [ReadStep(0)], worker.(batch := batch, done := batch == []);
        empty := true;
        ghost var cursor := last;
        if batch == [] {
          NothingLeft(q, timestamp, last);
        }
        for i := 0 to |batch|
          invariant |tables.queues| == |before.queues|
          invariant last == if i == 0 then cursor else batch[i - 1]
          invariant empty <==> i == 0
          invariant tables == DeleteAll(before, queue, Past(q, timestamp, last))
          invariant (EntryLess(Entry(0, 0), last) || last == Entry(0, 0)) && last.timestamp <= timestamp
          invariant Takes(before, steps, tables, worker)
          invariant worker == Worker(queue, timestamp, last, batch[i..], batch == [])
          invariant forall step :: step in steps ==> !step.AddDocument?
          invariant i > 0 ==> |OrderBy(EntryLess, Expired(q, timestamp, last))| < |OrderBy(EntryLess, Expired(q, timestamp, cursor))|
        {
          empty := false;
          RowDone(before, queue, timestamp, cursor, batch, i);
          last := batch[i];
          TakesDelete(before, steps, tables, worker);
          steps, worker := steps + [DeleteStep(0)], worker.(last := last, batch := worker.batch[1..]);
          DeleteDocumentWithTimestamp(queue, last);
        }
      }
    }

    /** The loop of `Run` over all queues, alone: afterwards exactly the newer documents (and document 0 of timestamp 0) are left. */
    method DeleteExpiredEverywhere(timestamp: nat)
      requires EveryDocumentQueued(tables)
      modifies this
      ensures EveryDocumentQueued(tables)
      ensures tables.documents
           == map d | d in old(tables).documents && Kept(old(tables).documents[d], d, timestamp) :: old(tables).documents[d]
    {
      ghost var before := tables;
      for q := 0 to |tables.queues|
        invariant |tables.queues| == |before.queues|
        invariant SweptTo(before, tables, timestamp, q)
      {
        SweepQueue(before, tables, timestamp, q);
        ghost var _, _ := DeleteExpired(q, timestamp);
      }
      SweptAll(before, tables, timestamp);
    }
  }

  /** So a document with id 0 and timestamp 0 outlives every expiration, however late. */
  method ZeroDocumentSurvives(timestamp: nat) returns (db: Database)
    ensures fresh(db) && db.tables.documents == map[0 := Document("url", "html", 0)]
  {
    db := new Database();
    db.AddDocument(0, 0, Document("url", "html", 0));
    db.DeleteExpiredEverywhere(timestamp);
  }

  /** A worker that runs alone on the queue of a new document, up to its timestamp, removes it, unless it is (0, 0). */
  method AddThenExpire(db: Database, queue: nat, docId: DocId, doc: Document)
    requires queue < |db.tables.queues| && EveryDocumentQueued(db.tables)
    modifies db
    ensures docId in db.tables.documents <==> Entry(doc.timestamp, docId) == Entry(0, 0)
    ensures forall d :: d in old(db.tables.documents) && d != docId && old(db.tables.documents)[d].timestamp > doc.timestamp ==>
              d in db.tables.documents && db.tables.documents[d] == old(db.tables.documents)[d]
  {
    db.AddDocument(queue, docId, doc);
    ghost var queued := Entry(doc.timestamp, docId);
    assert queued in db.tables.queues[queue];
    ghost var before := db.tables;
    assert forall d :: d in old(db.tables.documents) && d != docId ==> d in before.documents - {docId} by {
      assert forall d :: d in old(db.tables.documents) - {docId} <==> d in before.documents - {docId};
    }
    ghost var _, _ := db.DeleteExpired(queue, doc.timestamp);
  }
}
