/** The converter's bounded-parallelism scheduler, as a sequential state
    machine. A batch of `total` files, identified by their positions, is
    split: the first `maxWorkers` are dispatched at once, file `k` to worker
    slot `k`, and the rest wait in a FIFO queue. Each terminal event of a
    file (its conversion completed, or its decoding failed) counts it as
    processed, drops it from the in-flight list and either ends the batch
    or hands the head of the queue to the worker slot that just freed.
    Worker creation, message transport and the audio work itself are
    outside the model: a dispatch is recorded as the `Slot` it starts. */
module Scheduler {
  import FileNames

  /** A file being converted (an entry of the in-flight list) together with
      the worker slot it was dispatched to. */
  datatype Slot = Slot(index: nat, worker: nat)

  /** A converted file offered for download. */
  datatype Output = Output(name: string, format: FileNames.Format, originalIndex: nat)

  /** The status line shown to the user. */
  datatype Message = NoMessage | Done | FileError(index: nat) | DoneWithErrors

  /** The converter's state during and between batches. `total` is the
      number of files of the batch, `workers` the pool size it started
      with, `progress` the last percentage each file reported and
      `totalProgress` the aggregate percentage. */
  datatype Batch = Batch(
    total: nat,
    workers: nat,
    queue: seq<nat>,
    inFlight: seq<Slot>,
    processed: nat,
    progress: map<nat, real>,
    totalProgress: real,
    converting: bool,
    outputs: seq<Output>,
    message: Message)

  /** A transition's result: the new state and the files it dispatched, in
      dispatch order. */
  datatype Step = Step(batch: Batch, dispatched: seq<Slot>)

  /** What a worker, or the decoding step before it, reports. */
  datatype Event =
    | Progressed(index: nat, fraction: real)
    | Finished(index: nat, worker: nat, fileName: string, format: FileNames.Format)
    | Failed(index: nat, worker: nat)

  /** The state before any batch. */
  function Initial(): Batch {
    Batch(0, 0, [], [], 0, map[], 0.0, false, [], NoMessage)
  }

  // ---------------------------------------------------------------------
  // Sequences of positions and slots
  // ---------------------------------------------------------------------

  function Min(a: nat, b: nat): nat {
    if a <= b then a else b
  }

  /** The positions lo, lo+1, ..., hi-1. */
  function Range(lo: nat, hi: nat): (r: seq<nat>)
    requires lo <= hi
    ensures |r| == hi - lo
    ensures forall j :: 0 <= j < |r| ==> r[j] == lo + j
    decreases hi - lo
  {
    if lo == hi then [] else [lo] + Range(lo + 1, hi)
  }

  /** The positions of the files in a list of slots. */
  function Indices(slots: seq<Slot>): (r: seq<nat>)
    ensures |r| == |slots|
    ensures forall j :: 0 <= j < |slots| ==> r[j] == slots[j].index
  {
    if |slots| == 0 then [] else [slots[0].index] + Indices(slots[1..])
  }

  predicate DistinctIndices(slots: seq<Slot>) {
    forall j, k :: 0 <= j < k < |slots| ==> slots[j].index != slots[k].index
  }

  predicate DistinctWorkers(slots: seq<Slot>) {
    forall j, k :: 0 <= j < k < |slots| ==> slots[j].worker != slots[k].worker
  }

  /** Files 0..k-1 on worker slots 0..k-1. */
  function InitialSlots(k: nat): (r: seq<Slot>)
    ensures |r| == k
    ensures forall j :: 0 <= j < k ==> r[j] == Slot(j, j)
  {
    if k == 0 then [] else InitialSlots(k - 1) + [Slot(k - 1, k - 1)]
  }

  /** `prev.filter(pFile => pFile.index !== i)`. */
  function RemoveIndex(slots: seq<Slot>, i: nat): (r: seq<Slot>)
    ensures forall sl :: sl in r <==> sl in slots && sl.index != i
    ensures |r| <= |slots|
  {
    if |slots| == 0 then []
    else (if slots[0].index == i then [] else [slots[0]]) + RemoveIndex(slots[1..], i)
  }

  /** The filter works entry by entry and keeps the survivors in order:
      filtering a concatenation filters each part and concatenates. */
  lemma {:induction false} RemoveIndexAppend(a: seq<Slot>, b: seq<Slot>, i: nat)
    ensures RemoveIndex(a + b, i) == RemoveIndex(a, i) + RemoveIndex(b, i)
  {
    if |a| > 0 {
      assert (a + b)[0] == a[0] && (a + b)[1..] == a[1..] + b;
      RemoveIndexAppend(a[1..], b, i);
    } else {
      assert a + b == b;
    }
  }

  /** A single entry is kept exactly when it holds another file. */
  lemma RemoveIndexSingle(sl: Slot, i: nat)
    ensures RemoveIndex([sl], i) == if sl.index == i then [] else [sl]
  {
  }

  /** Filtering out a position no slot holds keeps the list as it is. */
  lemma {:induction false} RemoveAbsent(slots: seq<Slot>, i: nat)
    requires forall k :: 0 <= k < |slots| ==> slots[k].index != i
    ensures RemoveIndex(slots, i) == slots
  {
    if |slots| > 0 {
      RemoveAbsent(slots[1..], i);
    }
  }

  /** Filtering keeps the order, so distinct entries stay distinct. */
  lemma RemoveKeepsDistinct(slots: seq<Slot>, i: nat)
    ensures DistinctIndices(slots) ==> DistinctIndices(RemoveIndex(slots, i))
    ensures DistinctWorkers(slots) ==> DistinctWorkers(RemoveIndex(slots, i))
  {
    RemoveKeepsDistinctIndices(slots, i);
    RemoveKeepsDistinctWorkers(slots, i);
  }

  lemma {:induction false} RemoveKeepsDistinctIndices(slots: seq<Slot>, i: nat)
    ensures DistinctIndices(slots) ==> DistinctIndices(RemoveIndex(slots, i))
  {
    if |slots| > 0 {
      RemoveKeepsDistinctIndices(slots[1..], i);
      var rest := RemoveIndex(slots[1..], i);
      if slots[0].index != i {
        assert RemoveIndex(slots, i) == [slots[0]] + rest;
        forall k | 0 <= k < |rest|
          ensures rest[k] in slots[1..]
        {
          assert rest[k] in rest;
        }
      }
    }
  }

  lemma {:induction false} RemoveKeepsDistinctWorkers(slots: seq<Slot>, i: nat)
    ensures DistinctWorkers(slots) ==> DistinctWorkers(RemoveIndex(slots, i))
  {
    if |slots| > 0 {
      RemoveKeepsDistinctWorkers(slots[1..], i);
      var rest := RemoveIndex(slots[1..], i);
      if slots[0].index != i {
        assert RemoveIndex(slots, i) == [slots[0]] + rest;
        forall k | 0 <= k < |rest|
          ensures rest[k] in slots[1..]
        {
          assert rest[k] in rest;
        }
      }
    }
  }

  /** Removing the one slot that holds position `i` shortens the list by
      one. */
  lemma {:induction false} RemoveOne(slots: seq<Slot>, i: nat, w: nat)
    requires DistinctIndices(slots)
    requires Slot(i, w) in slots
    ensures |RemoveIndex(slots, i)| == |slots| - 1
  {
    if slots[0].index == i {
      RemoveAbsent(slots[1..], i);
    } else {
      RemoveOne(slots[1..], i, w);
    }
  }

  /** After `Slot(i, w)` is filtered out, no remaining file is on worker `w`. */
  lemma WorkerFreed(slots: seq<Slot>, i: nat, w: nat)
    requires DistinctWorkers(slots)
    requires Slot(i, w) in slots
    ensures forall sl :: sl in RemoveIndex(slots, i) ==> sl.worker != w
  {
    forall sl | sl in RemoveIndex(slots, i)
      ensures sl.worker != w
    {
      var a :| 0 <= a < |slots| && slots[a] == sl;
      var b :| 0 <= b < |slots| && slots[b] == Slot(i, w);
      assert a != b;
    }
  }

  // ---------------------------------------------------------------------
  // Transitions
  // ---------------------------------------------------------------------

  /** `handleConvert`: with no files nothing happens; otherwise the state
      is reset, files 0..k-1 (k = min(maxWorkers, n)) are dispatched to
      worker slots 0..k-1 and the remaining positions are queued in
      order. */
  function Start(s: Batch, n: nat, maxWorkers: nat): (r: Step)
    ensures n == 0 ==> r == Step(s, [])
    ensures n > 0 ==>
      var b := r.batch;
      var k := Min(maxWorkers, n);
      && b.total == n && b.workers == maxWorkers
      && r.dispatched == b.inFlight
      && |b.inFlight| == k
      && (forall j :: 0 <= j < k ==> b.inFlight[j] == Slot(j, j))
      && Indices(b.inFlight) + b.queue == Range(0, n)
      && b.processed == 0 && b.converting
      && b.progress == map[] && b.totalProgress == 0.0 && b.outputs == []
      && b.message == s.message
  {
    if n == 0 then Step(s, [])
    else
      var k := Min(maxWorkers, n);
      var slots := InitialSlots(k);
      assert Indices(slots) + Range(k, n) == Range(0, n);
      Step(Batch(n, maxWorkers, Range(k, n), slots, 0, map[], 0.0, true, [], s.message), slots)
  }

  /** `processNextFileInQueue(w)`: an empty queue is left alone and nothing
      is dispatched; otherwise the head leaves the queue, joins the
      in-flight list and is dispatched to worker `w`. */
  function Dequeue(s: Batch, w: nat): (r: Step)
    ensures |s.queue| == 0 ==> r == Step(s, [])
    ensures |s.queue| > 0 ==>
      && r.dispatched == [Slot(s.queue[0], w)]
      && [s.queue[0]] + r.batch.queue == s.queue
      && r.batch.inFlight == s.inFlight + r.dispatched
      && r.batch == s.(queue := r.batch.queue, inFlight := r.batch.inFlight)
  {
    if |s.queue| == 0 then Step(s, [])
    else
      var next := Slot(s.queue[0], w);
      Step(s.(queue := s.queue[1..], inFlight := s.inFlight + [next]), [next])
  }

  /** The percentage of the batch's files that are processed; 100 for an
      empty batch. */
  function Share(processed: nat, n: nat): real {
    if n == 0 then 100.0 else 100.0 * (processed as real) / (n as real)
  }

  lemma ShareGrows(processed: nat, n: nat)
    ensures Share(processed, n) <= Share(processed + 1, n)
  {
    if n > 0 {
      var a, b, m := processed as real, (processed + 1) as real, n as real;
      assert Share(processed, n) * m == 100.0 * a;
      assert Share(processed + 1, n) * m == 100.0 * b;
    }
  }

  lemma BelowShareGrows(pct: real, processed: nat, n: nat)
    requires pct <= Share(processed, n)
    ensures pct <= Share(processed + 1, n)
  {
    ShareGrows(processed, n);
  }

  /** The aggregate percentage after a success: `(processed + 1) / n * 100`
      capped at 100. A division by zero gives Infinity in the source, which
      the cap turns into 100. */
  function CompletedShare(processed: nat, n: nat): (pct: real)
    ensures 0.0 <= pct <= 100.0
    ensures pct <= Share(processed, n)
    ensures processed <= n ==> pct == Share(processed, n)
    ensures n <= processed ==> pct == 100.0
  {
    if n == 0 then 100.0
    else
      var share := (processed as real) / (n as real) * 100.0;
      ShareInSourceOrder(processed, n);
      ShareAtMostAll(processed, n);
      if share <= 100.0 then share else 100.0
  }

  /** `p / n * 100` is the processed share. */
  lemma ShareInSourceOrder(p: nat, n: nat)
    requires n > 0
    ensures (p as real) / (n as real) * 100.0 == Share(p, n)
  {
    var a, m := p as real, n as real;
    var q := a / m;
    assert q * m == a;
    assert (100.0 * q) * m == 100.0 * a;
  }

  /** The processed share is non-negative, and at most 100 exactly when no
      more files are processed than the batch holds. */
  lemma ShareAtMostAll(p: nat, n: nat)
    requires n > 0
    ensures 0.0 <= Share(p, n)
    ensures Share(p, n) <= 100.0 <==> p <= n
  {
    var a, m := p as real, n as real;
    assert Share(p, n) * m == 100.0 * a;
  }

  /** The count and in-flight bookkeeping both terminal events share. */
  function Retire(s: Batch, i: nat): Batch {
    s.(processed := s.processed + 1, inFlight := RemoveIndex(s.inFlight, i))
  }

  /** A `complete` message for file `i` from worker `w`: the converted file
      is listed under its new name, the processed count and the aggregate
      percentage go up, `i` leaves the in-flight list, and either the batch
      ends or the next queued file goes to worker `w`. */
  function Complete(s: Batch, i: nat, w: nat, fileName: string, format: FileNames.Format): (r: Step)
    ensures r.batch.total == s.total && r.batch.workers == s.workers
    ensures r.batch.processed == s.processed + 1
    ensures r.batch.totalProgress == CompletedShare(s.processed + 1, s.total)
    ensures r.batch.progress == s.progress
    ensures r.batch.outputs == s.outputs + [Output(FileNames.OutputName(fileName, i, format), format, i)]
    ensures r.batch.inFlight == RemoveIndex(s.inFlight, i) + r.dispatched
    ensures s.processed + 1 >= s.total ==>
      && r.dispatched == [] && r.batch.queue == s.queue
      && !r.batch.converting && r.batch.message == Done
    ensures s.processed + 1 < s.total ==>
      && r.batch.converting == s.converting && r.batch.message == s.message
      && (|s.queue| == 0 ==> r.dispatched == [] && r.batch.queue == [])
      && (|s.queue| > 0 ==> r.dispatched == [Slot(s.queue[0], w)] && r.batch.queue == s.queue[1..])
  {
    var output := Output(FileNames.OutputName(fileName, i, format), format, i);
    var s1 := Retire(s, i).(totalProgress := CompletedShare(s.processed + 1, s.total), outputs := s.outputs + [output]);
    if s.processed + 1 >= s.total then Step(s1.(converting := false, message := Done), [])
    else Dequeue(s1, w)
  }

  /** The `catch` of `convertFile` for file `i` on worker `w`: the file
      counts as processed and leaves the in-flight list, the next queued
      file goes to worker `w` all the same, and the batch ends if this was
      the last file. The aggregate percentage is not touched. */
  function Fail(s: Batch, i: nat, w: nat): (r: Step)
    ensures r.batch.total == s.total && r.batch.workers == s.workers
    ensures r.batch.processed == s.processed + 1
    ensures r.batch.totalProgress == s.totalProgress
    ensures r.batch.progress == s.progress
    ensures r.batch.outputs == s.outputs
    ensures r.batch.inFlight == RemoveIndex(s.inFlight, i) + r.dispatched
    ensures |s.queue| == 0 ==> r.dispatched == [] && r.batch.queue == []
    ensures |s.queue| > 0 ==> r.dispatched == [Slot(s.queue[0], w)] && r.batch.queue == s.queue[1..]
    ensures s.processed + 1 >= s.total ==> !r.batch.converting && r.batch.message == DoneWithErrors
    ensures s.processed + 1 < s.total ==> r.batch.converting == s.converting && r.batch.message == FileError(i)
  {
    var d := Dequeue(Retire(s, i).(message := FileError(i)), w);
    if s.processed + 1 >= s.total then Step(d.batch.(converting := false, message := DoneWithErrors), d.dispatched)
    else d
  }

  /** A `progress` message: file `i` is `fraction * 100` percent done. */
  function RecordProgress(s: Batch, i: nat, fraction: real): (r: Batch)
    ensures i in r.progress && r.progress[i] == fraction * 100.0
    ensures forall j :: j in s.progress && j != i ==> j in r.progress && r.progress[j] == s.progress[j]
    ensures r.progress.Keys == s.progress.Keys + {i}
    ensures r == s.(progress := r.progress)
  {
    s.(progress := s.progress[i := fraction * 100.0])
  }

  /** Routes an event to its transition. */
  function Apply(s: Batch, e: Event): (r: Step)
    ensures r.batch.total == s.total && r.batch.workers == s.workers
    ensures e.Progressed? ==>
      && r.dispatched == [] && e.index in r.batch.progress
      && r.batch.processed == s.processed && r.batch.queue == s.queue
      && r.batch.inFlight == s.inFlight && r.batch.converting == s.converting
    ensures !e.Progressed? ==>
      && r.batch.processed == s.processed + 1 && |r.dispatched| <= 1
      && r.batch.inFlight == RemoveIndex(s.inFlight, e.index) + r.dispatched
  {
    match e
    case Progressed(i, f) => Step(RecordProgress(s, i, f), [])
    case Finished(i, w, name, format) => Complete(s, i, w, name, format)
    case Failed(i, w) => Fail(s, i, w)
  }

  /** Terminal events are sent only for files in flight, by the worker they
      were dispatched to. */
  predicate Valid(s: Batch, e: Event) {
    match e
    case Progressed(_, _) => true
    case Finished(i, w, _, _) => Slot(i, w) in s.inFlight
    case Failed(i, w) => Slot(i, w) in s.inFlight
  }

  // ---------------------------------------------------------------------
  // Invariants
  // ---------------------------------------------------------------------

  /** The bookkeeping invariant: every file is queued, in flight or
      processed; the queue is the not yet dispatched positions in order;
      each worker slot holds at most one file; and a non-empty queue means
      every worker is busy. */
  ghost predicate Placement(total: nat, workers: nat, queue: seq<nat>, inFlight: seq<Slot>, processed: nat) {
    && processed + |inFlight| + |queue| == total
    && queue == Range(total - |queue|, total)
    && (forall k :: 0 <= k < |inFlight| ==> inFlight[k].index < total - |queue| && inFlight[k].worker < workers)
    && DistinctIndices(inFlight)
    && DistinctWorkers(inFlight)
    && |inFlight| <= workers
    && (|queue| > 0 ==> |inFlight| == workers)
  }

  ghost predicate Inv(s: Batch) {
    && Placement(s.total, s.workers, s.queue, s.inFlight, s.processed)
    && Flags(s)
  }

  lemma InitialInv()
    ensures Inv(Initial())
  {
  }

  /** The first `min(workers, n)` files on their own workers, the rest
      queued, nothing processed: a placement. */
  lemma InitialPlacement(n: nat, workers: nat)
    ensures var k := Min(workers, n);
      Placement(n, workers, Range(k, n), InitialSlots(k), 0)
  {
    var k := Min(workers, n);
    var slots := InitialSlots(k);
    assert forall j :: 0 <= j < |slots| ==> slots[j].index == j && slots[j].worker == j;
  }

  /** Starting a batch establishes the invariant (an empty selection
      leaves the state, and so the invariant, alone). */
  lemma StartInv(s: Batch, n: nat, maxWorkers: nat)
    requires n > 0 || Inv(s)
    ensures Inv(Start(s, n, maxWorkers).batch)
  {
    if n > 0 {
      InitialPlacement(n, maxWorkers);
      var b := Start(s, n, maxWorkers).batch;
      var k := Min(maxWorkers, n);
      assert b.queue == Range(k, n) && b.inFlight == InitialSlots(k);
    }
  }

  /** What is left of the in-flight list once `Slot(i, w)` is retired:
      one entry fewer, still distinct, all dispatched, none on worker `w`. */
  lemma Retired(total: nat, workers: nat, queue: seq<nat>, inFlight: seq<Slot>, processed: nat, i: nat, w: nat)
    requires Placement(total, workers, queue, inFlight, processed)
    requires Slot(i, w) in inFlight
    ensures var rest := RemoveIndex(inFlight, i);
      && |rest| == |inFlight| - 1
      && DistinctIndices(rest) && DistinctWorkers(rest)
      && w < workers
      && forall k :: 0 <= k < |rest| ==>
           rest[k].index < total - |queue| && rest[k].worker < workers && rest[k].worker != w
  {
    var rest := RemoveIndex(inFlight, i);
    RemoveOne(inFlight, i, w);
    RemoveKeepsDistinct(inFlight, i);
    WorkerFreed(inFlight, i, w);
    forall k | 0 <= k < |rest|
      ensures rest[k].index < total - |queue| && rest[k].worker < workers
    {
      assert rest[k] in rest;
    }
  }

  /** Pulling the queue head onto the freed worker keeps the placement. */
  lemma PullKeepsPlacement(total: nat, workers: nat, queue: seq<nat>, rest: seq<Slot>, processed: nat, w: nat)
    requires processed + |rest| + 1 + |queue| == total
    requires |queue| > 0 && queue == Range(total - |queue|, total)
    requires forall k :: 0 <= k < |rest| ==> rest[k].index < total - |queue| && rest[k].worker < workers && rest[k].worker != w
    requires DistinctIndices(rest) && DistinctWorkers(rest)
    requires w < workers && |rest| + 1 == workers
    ensures Placement(total, workers, queue[1..], rest + [Slot(queue[0], w)], processed + 1)
  {
    var next := total - |queue|;
    assert queue[0] == next;
    assert queue[1..] == Range(next + 1, total);
  }

  /** With nothing queued, retiring a file keeps the placement. */
  lemma DrainKeepsPlacement(total: nat, workers: nat, rest: seq<Slot>, processed: nat)
    requires processed + |rest| + 1 == total
    requires forall k :: 0 <= k < |rest| ==> rest[k].index < total && rest[k].worker < workers
    requires DistinctIndices(rest) && DistinctWorkers(rest)
    requires |rest| < workers
    ensures Placement(total, workers, [], rest, processed + 1)
  {
  }

  /** Retiring `Slot(i, w)` and then pulling the queue head onto `w` keeps
      the placement invariant. */
  lemma RetireThenDequeue(total: nat, workers: nat, queue: seq<nat>, inFlight: seq<Slot>, processed: nat, i: nat, w: nat)
    requires Placement(total, workers, queue, inFlight, processed)
    requires Slot(i, w) in inFlight
    ensures |queue| > 0 ==>
      Placement(total, workers, queue[1..], RemoveIndex(inFlight, i) + [Slot(queue[0], w)], processed + 1)
    ensures |queue| == 0 ==>
      Placement(total, workers, [], RemoveIndex(inFlight, i), processed + 1)
  {
    var rest := RemoveIndex(inFlight, i);
    Retired(total, workers, queue, inFlight, processed, i, w);
    if |queue| > 0 {
      PullKeepsPlacement(total, workers, queue, rest, processed, w);
    } else {
      DrainKeepsPlacement(total, workers, rest, processed);
    }
  }

  /** Retiring the last file in flight, with nothing queued, empties the
      batch. */
  lemma RetireLast(s: Batch, i: nat, w: nat)
    requires Placement(s.total, s.workers, s.queue, s.inFlight, s.processed)
    requires Slot(i, w) in s.inFlight
    requires s.processed + 1 >= s.total
    ensures s.processed + 1 == s.total && s.queue == [] && RemoveIndex(s.inFlight, i) == []
  {
    RemoveOne(s.inFlight, i, w);
  }

  /** The flag and the aggregate percentage after a terminal event. */
  ghost predicate Flags(s: Batch) {
    && (s.converting <==> s.processed < s.total)
    && 0.0 <= s.totalProgress <= 100.0
    && s.totalProgress <= Share(s.processed, s.total)
  }

  /** A success keeps the placement of files. */
  lemma CompletePlacement(s: Batch, i: nat, w: nat, fileName: string, format: FileNames.Format)
    requires Placement(s.total, s.workers, s.queue, s.inFlight, s.processed)
    requires Slot(i, w) in s.inFlight
    ensures var b := Complete(s, i, w, fileName, format).batch;
      Placement(b.total, b.workers, b.queue, b.inFlight, b.processed)
  {
    if s.processed + 1 >= s.total {
      CompleteLastPlacement(s, i, w, fileName, format);
    } else {
      CompleteNextPlacement(s, i, w, fileName, format);
    }
  }

  /** The last success leaves nothing queued and nothing in flight. */
  lemma CompleteLastPlacement(s: Batch, i: nat, w: nat, fileName: string, format: FileNames.Format)
    requires Placement(s.total, s.workers, s.queue, s.inFlight, s.processed)
    requires Slot(i, w) in s.inFlight
    requires s.processed + 1 >= s.total
    ensures var b := Complete(s, i, w, fileName, format).batch;
      Placement(b.total, b.workers, b.queue, b.inFlight, b.processed)
  {
    RetireLast(s, i, w);
    var b := Complete(s, i, w, fileName, format).batch;
    assert b.processed == b.total && b.queue == [];
    assert b.inFlight == [] + [];
    EmptyPlacement(b);
  }

  /** Everything processed, nothing queued or in flight: a placement. */
  lemma EmptyPlacement(b: Batch)
    requires b.processed == b.total && b.queue == [] && b.inFlight == []
    ensures Placement(b.total, b.workers, b.queue, b.inFlight, b.processed)
  {
    assert Range(b.total, b.total) == [];
  }

  /** A success before the last hands the queue's head to the freed
      worker, if there is one. */
  lemma CompleteNextPlacement(s: Batch, i: nat, w: nat, fileName: string, format: FileNames.Format)
    requires Placement(s.total, s.workers, s.queue, s.inFlight, s.processed)
    requires Slot(i, w) in s.inFlight
    requires s.processed + 1 < s.total
    ensures var b := Complete(s, i, w, fileName, format).batch;
      Placement(b.total, b.workers, b.queue, b.inFlight, b.processed)
  {
    var r := Complete(s, i, w, fileName, format);
    var rest := RemoveIndex(s.inFlight, i);
    RetireThenDequeue(s.total, s.workers, s.queue, s.inFlight, s.processed, i, w);
    if |s.queue| > 0 {
      assert r.batch.queue == s.queue[1..] && r.batch.inFlight == rest + [Slot(s.queue[0], w)];
    } else {
      assert r.batch.queue == [] && r.batch.inFlight == rest + [];
    }
  }

  /** A success keeps the flag and the aggregate in step with the count. */
  lemma CompleteFlags(s: Batch, i: nat, w: nat, fileName: string, format: FileNames.Format)
    requires Flags(s)
    ensures Flags(Complete(s, i, w, fileName, format).batch)
  {
  }

  lemma CompleteInv(s: Batch, i: nat, w: nat, fileName: string, format: FileNames.Format)
    requires Inv(s)
    requires Slot(i, w) in s.inFlight
    ensures Inv(Complete(s, i, w, fileName, format).batch)
  {
    CompletePlacement(s, i, w, fileName, format);
    CompleteFlags(s, i, w, fileName, format);
  }

  /** A failure keeps the placement of files. */
  lemma FailPlacement(s: Batch, i: nat, w: nat)
    requires Placement(s.total, s.workers, s.queue, s.inFlight, s.processed)
    requires Slot(i, w) in s.inFlight
    ensures var b := Fail(s, i, w).batch;
      Placement(b.total, b.workers, b.queue, b.inFlight, b.processed)
  {
    var b := Fail(s, i, w).batch;
    RetireThenDequeue(s.total, s.workers, s.queue, s.inFlight, s.processed, i, w);
    if |s.queue| > 0 {
      assert b.queue == s.queue[1..];
    } else {
      assert b.queue == [] && b.inFlight == RemoveIndex(s.inFlight, i) + [];
    }
  }

  /** A failure keeps the flag in step with the count and, the aggregate
      being untouched, below the processed share. */
  lemma FailFlags(s: Batch, i: nat, w: nat)
    requires Flags(s)
    ensures Flags(Fail(s, i, w).batch)
  {
    BelowShareGrows(s.totalProgress, s.processed, s.total);
  }

  lemma FailInv(s: Batch, i: nat, w: nat)
    requires Inv(s)
    requires Slot(i, w) in s.inFlight
    ensures Inv(Fail(s, i, w).batch)
  {
    FailPlacement(s, i, w);
    FailFlags(s, i, w);
  }

  lemma ApplyInv(s: Batch, e: Event)
    requires Inv(s) && Valid(s, e)
    ensures Inv(Apply(s, e).batch)
  {
    match e
    case Progressed(_, _) =>
    case Finished(i, w, name, format) => CompleteInv(s, i, w, name, format);
    case Failed(i, w) => FailInv(s, i, w);
  }
}

module SchedulerRuns {
  import FileNames
  import opened Scheduler

  // ---------------------------------------------------------------------
  // Where each file is
  // ---------------------------------------------------------------------

  /** The files of the batch that have been processed: neither queued nor
      in flight. */
  ghost function Processed(s: Batch): set<nat> {
    Elements(Range(0, s.total)) - Elements(s.queue) - Elements(Indices(s.inFlight))
  }

  ghost predicate ExactlyOne(a: bool, b: bool, c: bool) {
    (a && !b && !c) || (!a && b && !c) || (!a && !b && c)
  }

  /** The positions a sequence holds. */
  ghost function Elements(xs: seq<nat>): set<nat> {
    set x | x in xs
  }

  lemma {:induction false} CardOfDistinct(xs: seq<nat>)
    requires forall j, k :: 0 <= j < k < |xs| ==> xs[j] != xs[k]
    ensures |Elements(xs)| == |xs|
  {
    if |xs| > 0 {
      var rest := xs[1..];
      CardOfDistinct(rest);
      assert Elements(xs) == Elements(rest) + {xs[0]} by {
        forall x | x in Elements(xs) ensures x in Elements(rest) + {xs[0]} {
          var k :| 0 <= k < |xs| && xs[k] == x;
          if k > 0 { assert rest[k - 1] == x; }
        }
      }
    }
  }

  /** The queued positions are the ones from `total - |queue|` on, the
      ones in flight all lie below, and none repeats. */
  lemma PlacementSets(s: Batch)
    requires Inv(s)
    ensures var all, qs, fs := Elements(Range(0, s.total)), Elements(s.queue), Elements(Indices(s.inFlight));
      && |all| == s.total && |qs| == |s.queue| && |fs| == |s.inFlight|
      && qs !! fs && qs + fs <= all
      && (forall j :: j in all <==> 0 <= j < s.total)
  {
    var next := s.total - |s.queue|;
    var r := Range(0, s.total);
    var ids := Indices(s.inFlight);
    CardOfDistinct(r);
    CardOfDistinct(s.queue);
    CardOfDistinct(ids);
    forall j | 0 <= j < s.total
      ensures j in Elements(r)
    {
      assert r[j] == j;
    }
    assert forall j :: j in Elements(s.queue) ==> next <= j < s.total;
    assert forall j :: j in Elements(ids) ==> j < next;
  }

  /** Every file of the batch is in exactly one place: queued, in flight
      or processed. */
  lemma EveryFileOnce(s: Batch)
    requires Inv(s)
    ensures forall j :: 0 <= j < s.total ==>
      ExactlyOne(j in s.queue, j in Indices(s.inFlight), j in Processed(s))
    ensures forall j :: j in s.queue || j in Indices(s.inFlight) ==> j < s.total
  {
    PlacementSets(s);
    var all, qs, fs := Elements(Range(0, s.total)), Elements(s.queue), Elements(Indices(s.inFlight));
    forall j | 0 <= j < s.total
      ensures ExactlyOne(j in s.queue, j in Indices(s.inFlight), j in Processed(s))
    {
      assert j in all;
      assert j in s.queue <==> j in qs;
      assert j in Indices(s.inFlight) <==> j in fs;
      assert j in Processed(s) <==> j !in qs && j !in fs;
    }
    forall j | j in s.queue || j in Indices(s.inFlight)
      ensures j < s.total
    {
      assert j in qs + fs;
    }
  }

  /** As many files are processed as the count says. */
  lemma ProcessedCount(s: Batch)
    requires Inv(s)
    ensures |Processed(s)| == s.processed
  {
    PlacementSets(s);
    RemainderCount(Elements(Range(0, s.total)), Elements(s.queue), Elements(Indices(s.inFlight)));
  }

  lemma RemainderCount(all: set<nat>, qs: set<nat>, fs: set<nat>)
    requires qs !! fs && qs + fs <= all
    ensures |all - qs - fs| == |all| - |qs| - |fs|
  {
    assert all - qs - fs == all - (qs + fs);
    assert |qs + fs| == |qs| + |fs|;
    assert |all - (qs + fs)| == |all| - |qs + fs|;
  }

  /** The queue head is the lowest position not yet dispatched: every
      queued file comes after it and every other file of the batch before
      it, so files are dispatched in submission order. */
  lemma DequeueIsFifo(s: Batch, w: nat)
    requires Inv(s) && |s.queue| > 0
    ensures var d := Dequeue(s, w).dispatched;
      && d == [Slot(s.total - |s.queue|, w)]
      && (forall j :: j in s.queue ==> d[0].index <= j)
      && (forall j :: 0 <= j < s.total && j !in s.queue ==> j < d[0].index)
  {
    var next := s.total - |s.queue|;
    forall j | next <= j < s.total
      ensures j in s.queue
    {
      assert s.queue[j - next] == j;
    }
  }

  /** With at least one worker, a batch in progress always has a file in
      flight, so it cannot stall waiting for a worker. */
  lemma NoStall(s: Batch)
    requires Inv(s) && s.converting && s.workers >= 1
    ensures |s.inFlight| > 0
  {
  }

  /** Submitting no more files than workers dispatches them all at once
      and queues nothing. */
  lemma SmallBatchAllAtOnce(s: Batch, n: nat, maxWorkers: nat)
    requires 0 < n <= maxWorkers
    ensures var r := Start(s, n, maxWorkers);
      r.batch.queue == [] && Indices(r.dispatched) == Range(0, n)
  {
    var r := Start(s, n, maxWorkers);
    assert Indices(r.batch.inFlight) + r.batch.queue == Range(0, n);
    assert |r.batch.inFlight| == n;
    assert Indices(r.dispatched) + [] == Indices(r.dispatched);
  }

  /** Two-tier progress: the aggregate percentage only counts processed
      files, so it reads 0 until a file finishes, however far the files in
      flight have got. */
  lemma AggregateIgnoresPartialProgress(s: Batch)
    requires Inv(s) && s.total > 0 && s.processed == 0
    ensures s.totalProgress == 0.0
  {
    assert Share(0, s.total) == 0.0;
  }

  // ---------------------------------------------------------------------
  // Runs of events
  // ---------------------------------------------------------------------

  /** The state after the events, in order. */
  function Run(s: Batch, events: seq<Event>): Batch
    decreases |events|
  {
    if |events| == 0 then s else Run(Apply(s, events[0]).batch, events[1..])
  }

  /** Every terminal event is for a file in flight on the worker named. */
  predicate ValidRun(s: Batch, events: seq<Event>)
    decreases |events|
  {
    |events| == 0 || (Valid(s, events[0]) && ValidRun(Apply(s, events[0]).batch, events[1..]))
  }

  function TerminalCount(events: seq<Event>): (k: nat)
    ensures k <= |events|
  {
    if |events| == 0 then 0
    else (if events[0].Progressed? then 0 else 1) + TerminalCount(events[1..])
  }

  /** Along a valid run the invariant holds, the batch size and pool stay
      fixed, and each terminal event, success or failure, counts exactly
      one file. */
  lemma {:induction false} RunInv(s: Batch, events: seq<Event>)
    requires Inv(s) && ValidRun(s, events)
    ensures var t := Run(s, events);
      && Inv(t)
      && t.total == s.total && t.workers == s.workers
      && t.processed == s.processed + TerminalCount(events)
    decreases |events|
  {
    if |events| > 0 {
      ApplyInv(s, events[0]);
      RunInv(Apply(s, events[0]).batch, events[1..]);
    }
  }

  /** A valid run has at most as many terminal events as files remain, and
      once every file has had one the batch is over: nothing queued,
      nothing in flight, not converting. Failures do not stop the batch. */
  lemma RunFinishes(s: Batch, events: seq<Event>)
    requires Inv(s) && ValidRun(s, events)
    ensures TerminalCount(events) <= s.total - s.processed
    ensures TerminalCount(events) == s.total - s.processed ==>
      var t := Run(s, events);
      t.queue == [] && t.inFlight == [] && !t.converting
  {
    RunInv(s, events);
  }

  // ---------------------------------------------------------------------
  // The completion handler as written
  // ---------------------------------------------------------------------

  /** `handleWorkerMessage` as written: the worker's `onmessage` is the
      handler of the render in which the batch was started, so it reads
      `filesProcessed` as it was then (`seen`) rather than the live count.
      The live count is still incremented through the state updater. */
  function CompleteAsWritten(s: Batch, seen: nat, i: nat, w: nat, fileName: string, format: FileNames.Format): (r: Step)
    ensures r.batch.processed == s.processed + 1
    ensures seen + 1 < s.total ==> r.batch.converting == s.converting
  {
    var output := Output(FileNames.OutputName(fileName, i, format), format, i);
    var s1 := Retire(s, i).(totalProgress := CompletedShare(seen + 1, s.total), outputs := s.outputs + [output]);
    if seen + 1 >= s.total then Step(s1.(converting := false, message := Done), [])
    else Dequeue(s1, w)
  }

  /** The `catch` of `convertFile` as written: the same closure captures
      `filesProcessed` as `seen`, so the end test compares the captured
      count, while the live count, the in-flight list and the queue are
      updated all the same. */
  function FailAsWritten(s: Batch, seen: nat, i: nat, w: nat): (r: Step)
    ensures r.batch.processed == s.processed + 1
    ensures r.batch.inFlight == RemoveIndex(s.inFlight, i) + r.dispatched
    ensures seen + 1 < s.total ==> r.batch.converting == s.converting
  {
    var d := Dequeue(Retire(s, i).(message := FileError(i)), w);
    if seen + 1 >= s.total then Step(d.batch.(converting := false, message := DoneWithErrors), d.dispatched)
    else d
  }

  /** The model's `Fail` is the `catch` path reading the live count. */
  lemma FailReadsLiveCount(s: Batch, i: nat, w: nat)
    ensures Fail(s, i, w) == FailAsWritten(s, s.processed, i, w)
  {
  }

  /** Two files on two workers whose decoding both fails: with the count
      captured at the start (0), the batch never ends; reading the live
      count ends it with the errors message. */
  lemma StaleCountFailuresNeverFinish()
    ensures var s0 := Start(Initial(), 2, 2).batch;
      var s1 := FailAsWritten(s0, 0, 0, 0).batch;
      var s2 := FailAsWritten(s1, 0, 1, 1).batch;
      && s2.processed == s2.total && s2.queue == [] && s2.inFlight == []
      && s2.converting
    ensures var s0 := Start(Initial(), 2, 2).batch;
      var s1 := Fail(s0, 0, 0).batch;
      var s2 := Fail(s1, 1, 1).batch;
      && s2.processed == s2.total && !s2.converting && s2.message == DoneWithErrors
  {
    var s0 := Start(Initial(), 2, 2).batch;
    assert s0.inFlight == [Slot(0, 0), Slot(1, 1)] && s0.queue == [];
    var s1 := FailAsWritten(s0, 0, 0, 0).batch;
    assert s1.inFlight == RemoveIndex(s0.inFlight, 0) == [Slot(1, 1)];
    var s2 := FailAsWritten(s1, 0, 1, 1).batch;
    assert s2.inFlight == RemoveIndex(s1.inFlight, 1) == [];
  }

  /** The model's `Complete` is the handler reading the live count. */
  lemma CompleteReadsLiveCount(s: Batch, i: nat, w: nat, fileName: string, format: FileNames.Format)
    ensures Complete(s, i, w, fileName, format) == CompleteAsWritten(s, s.processed, i, w, fileName, format)
  {
    var output := Output(FileNames.OutputName(fileName, i, format), format, i);
    var s1 := Retire(s, i).(totalProgress := CompletedShare(s.processed + 1, s.total), outputs := s.outputs + [output]);
    if s.processed + 1 >= s.total {
      assert Complete(s, i, w, fileName, format) == Step(s1.(converting := false, message := Done), []);
    } else {
      assert Complete(s, i, w, fileName, format) == Dequeue(s1, w);
    }
  }

  /** Two files, two workers, both converted: with the count captured at
      the start (0), the handler never ends the batch, although every file
      is processed; reading the live count ends it. */
  lemma StaleCountNeverFinishes()
    ensures var s0 := Start(Initial(), 2, 2).batch;
      var s1 := CompleteAsWritten(s0, 0, 0, 0, "a.wav", FileNames.Mp3).batch;
      var s2 := CompleteAsWritten(s1, 0, 1, 1, "b.wav", FileNames.Mp3).batch;
      && s2.processed == s2.total && s2.queue == [] && s2.inFlight == []
      && s2.converting
    ensures var s0 := Start(Initial(), 2, 2).batch;
      var s1 := Complete(s0, 0, 0, "a.wav", FileNames.Mp3).batch;
      var s2 := Complete(s1, 1, 1, "b.wav", FileNames.Mp3).batch;
      && s2.processed == s2.total && !s2.converting && s2.message == Done
  {
    var s0 := Start(Initial(), 2, 2).batch;
    assert s0.inFlight == [Slot(0, 0), Slot(1, 1)] && s0.queue == [];
    var s1 := CompleteAsWritten(s0, 0, 0, 0, "a.wav", FileNames.Mp3).batch;
    assert s1.inFlight == RemoveIndex(s0.inFlight, 0) == [Slot(1, 1)];
    var s2 := CompleteAsWritten(s1, 0, 1, 1, "b.wav", FileNames.Mp3).batch;
    assert s2.inFlight == RemoveIndex(s1.inFlight, 1) == [];
  }
}
