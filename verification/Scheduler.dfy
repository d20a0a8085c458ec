/** The callbacks as they are written, with the list of unflushed writes threaded through the write
    operations. Each one is proved to be the step of Pipeline that it stands for (src/scheduler.c, src/main.c). */
module Scheduler {
  import opened Pipeline

  /** struct op_page_write: it stays allocated from its issue until file_synced frees it. */
  class WriteOp {
    const pageId: nat
    var next: WriteOp?

    constructor (pageId: nat)
      ensures this.pageId == pageId && next == null
    {
      this.pageId, next := pageId, null;
    }
  }

  function PagesOf(ops: seq<WriteOp>): (r: seq<nat>)
    ensures |r| == |ops|
  {
    seq(|ops|, i requires 0 <= i < |ops| => ops[i].pageId)
  }

  ghost function OpSet(ops: seq<WriteOp>): set<WriteOp> { set op | op in ops }

  ghost predicate Distinct(ops: seq<WriteOp>) { forall i, j | 0 <= i < j < |ops| :: ops[i] != ops[j] }

  /** Each operation leads to the one behind it, the last one nowhere. */
  ghost predicate Linked(ops: seq<WriteOp>)
    reads ops
  {
    forall i | 0 <= i < |ops| :: ops[i].next == if i + 1 < |ops| then ops[i + 1] else null
  }

  ghost predicate Loose(ops: seq<WriteOp>)
    reads ops
  {
    forall i | 0 <= i < |ops| :: ops[i].next == null
  }

  lemma PagesJoin(a: seq<WriteOp>, b: seq<WriteOp>)
    ensures PagesOf(a + b) == PagesOf(a) + PagesOf(b)
  {}

  lemma PagesTail(a: seq<WriteOp>)
    requires a != []
    ensures PagesOf(a)[1..] == PagesOf(a[1..]) && PagesOf(a)[0] == a[0].pageId
  {}

  lemma FreedSplit(ops: seq<WriteOp>, k: nat)
    requires k <= |ops|
    ensures OpSet([]) == {} && ops[..|ops|] == ops == ops[0..] && ops[|ops|..] == []
  {}

  lemma NotLeft(ops: seq<WriteOp>)
    requires ops != [] && Distinct(ops)
    ensures Distinct(ops[1..]) && ops[0] !in OpSet(ops[1..])
  {}

  lemma PagesOne(op: WriteOp)
    ensures PagesOf([op]) == [op.pageId]
  {}

  lemma BatchNext(pageId: nat, i: nat)
    ensures Batch(pageId, i + 1) == Batch(pageId, i) + [Add32(pageId, i)] && Batch(pageId, 0) == []
  {}

  lemma NextOf(ops: seq<WriteOp>, k: nat)
    requires k < |ops| && Linked(ops)
    ensures ops[k].next == if k + 1 < |ops| then ops[k + 1] else null
  {}

  /** The operation that is freed is not needed any more, and no other operation is the same. */
  lemma FreedStep(ops: seq<WriteOp>, k: nat)
    requires k < |ops| && Distinct(ops)
    ensures ops[k] in OpSet(ops) && ops[k] in OpSet(ops[k..]) && OpSet(ops[k..]) - {ops[k]} == OpSet(ops[k + 1..])
    ensures ops[..k + 1] == ops[..k] + [ops[k]]
  {
    assert ops[k..] == [ops[k]] + ops[k + 1..];
  }

  /** A run can be cut anywhere. */
  lemma {:induction false} PossibleNext(es: seq<Event>, n: nat)
    requires Possible(es) && n < |es|
    ensures Possible(es[..n]) && Possible(es[..n + 1])
    ensures Enabled(After(es[..n]), es[n]) && After(es[..n + 1]) == Step(After(es[..n]), es[n])
    decreases |es|
  {
    hide Enabled, Step;
    var front := es[..|es| - 1];
    assert es[..n + 1][..n] == es[..n];
    if n + 1 < |es| {
      assert front[..n] == es[..n] && front[..n + 1] == es[..n + 1];
      PossibleNext(front, n);
    } else {
      assert es[..n + 1] == es && es[..n] == front;
    }
  }

  class ThreadContext {
    var writer: Writer
    var reader: Reader
    var tracer: Tracer
    var flusherPageId: nat
    var flusherInflight: nat
    var flusherRunning: bool
    /** write_list: `tail` is its oldest operation, `head` its newest. */
    var tail: WriteOp?
    var head: WriteOp?
    var pageIdCheckOrder: nat

    /** The kernel side: the writes not yet completed, in issue order, and what else is owed. */
    var due: seq<WriteOp>
    ghost var ring: Ring
    /** write_list as a sequence. */
    ghost var list: seq<WriteOp>
    /** The write operations that are allocated. */
    ghost var live: set<WriteOp>

    ghost predicate Valid()
      reads this`list, this`due, this`live, this`tail, this`head, live
    {
      && live == OpSet(list) + OpSet(due)
      && Distinct(list) && Distinct(due) && OpSet(list) !! OpSet(due)
      && Linked(list) && Loose(due)
      && tail == (if list == [] then null else list[0])
      && head == (if list == [] then null else list[|list| - 1])
    }

    ghost function Abs(): State
      reads this
    {
      State(writer, reader, Flusher(flusherPageId, flusherInflight, PagesOf(list), flusherRunning), tracer, pageIdCheckOrder,
            ring.(dueWrites := PagesOf(due)))
    }

    /** The background_..._init functions, then run_job for every job. */
    constructor ()
      ensures Valid() && Abs() == Init() && live == {}
      ensures writer.running && reader.running && flusherRunning && tracer.running && list == [] && due == []
    {
      writer, reader, tracer := Writer(0, 0, 0, 0, true), Reader(0, 0, 0, true), Tracer(Cbuf(0, 0), 0, 0, Dump(0, 0, 0), true);
      flusherPageId, flusherInflight, flusherRunning := 0, 0, true;
      tail, head, pageIdCheckOrder := null, null, 0;
      due, list, live, ring := [], [], {}, Ring(1, 1, 1, 1, [], multiset{}, 0, 0, 0);
    }

    /** Appends to write_list. */
    method Append(op: WriteOp)
      requires Valid() && op !in OpSet(list) && op.next == null && live == OpSet(list) + OpSet(due) && op !in OpSet(due)
      modifies this, live
      ensures list == old(list) + [op] && due == old(due) && live == old(live) + {op} && Valid()
      ensures writer == old(writer) && reader == old(reader) && tracer == old(tracer) && pageIdCheckOrder == old(pageIdCheckOrder)
      ensures flusherPageId == old(flusherPageId) && flusherInflight == old(flusherInflight) && flusherRunning == old(flusherRunning)
      ensures ring == old(ring)
    {
      if tail == null {
        tail, head := op, op;
      } else {
        assert head in OpSet(list);
        head.next := op;
        head := op;
      }
      list := list + [op];
      live := live + {op};
      assert OpSet(list) == OpSet(old(list)) + {op};
    }

    method PageWrittenCallback(op: WriteOp)
      requires Valid() && due != [] && op == due[0]
      modifies this, live
      ensures Valid() && live == old(live) && Abs() == PageWritten(old(Abs()))
    {
      hide PagesOf, OpSet, Linked, Distinct;
      pageIdCheckOrder := Add32(pageIdCheckOrder, 1);
      Completed(op);
      Append(op);
      PagesJoin(old(list), [op]);
      assert PagesOf([op]) == [op.pageId] by { PagesOne(op); }
      writer := writer.(writtenNoFlush := Add32(writer.writtenNoFlush, 1));
      writer := writer.(inflight := (writer.inflight + U8 - 1) % U8);
    }

    /** The kernel is done with the write that was issued first. */
    method Completed(op: WriteOp)
      requires Valid() && due != [] && op == due[0]
      modifies this`due, this`live
      ensures Valid() && due == old(due)[1..] && live == old(live) - {op} && op.next == null
      ensures op in old(live) && op !in OpSet(due) && op !in OpSet(list)
      ensures PagesOf(old(due))[1..] == PagesOf(due) && PagesOf(old(due))[0] == op.pageId
    {
      hide OpSet, PagesOf, Linked;
      FreedStep(due, 0);
      PagesTail(due);
      assert due[0..] == due;
      NotLeft(due);
      due := due[1..];
      live := live - {op};
    }

    method PageReadCallback(id: nat)
      requires Valid() && id in ring.dueReads
      modifies this
      ensures Valid() && live == old(live) && Abs() == PageRead(old(Abs()), id)
    {
      hide Valid;
      ring := ring.(dueReads := ring.dueReads - multiset{id});
      reader := reader.(inflight := (reader.inflight + U8 - 1) % U8);
    }

    /** Walks the list of flushed writes, freeing each of them once, in the order of their completion. */
    method FileSyncedCallback() returns (ghost freed: seq<WriteOp>)
      requires Valid() && ring.fsyncs > 0
      modifies this
      ensures Valid() && Abs() == FileSynced(old(Abs()))
      ensures freed == old(list) && live == old(live) - OpSet(freed)
    {
      hide Valid;
      ring := ring.(fsyncs := ring.fsyncs - 1);
      flusherPageId := Add32(flusherPageId, writer.writtenNoFlush);
      writer := writer.(writtenNoFlush := 0);
      freed := FreeAll();
      flusherInflight := 0;
    }

    method FreeAll() returns (ghost freed: seq<WriteOp>)
      requires Valid()
      modifies this`tail, this`head, this`list, this`live
      ensures Valid() && list == [] && freed == old(list) && live == old(live) - OpSet(freed)
    {
      hide OpSet;
      ghost var ops := list;
      var node := tail;
      tail, head, list := null, null, [];
      freed := [];
      FreedSplit(ops, 0);
      while node != null
        invariant |freed| <= |ops| && freed == ops[..|freed|]
        invariant node == if |freed| < |ops| then ops[|freed|] else null
        invariant live == OpSet(ops[|freed|..]) + OpSet(due)
        invariant Linked(ops) && Loose(due) && tail == null && head == null && list == []
        decreases |ops| - |freed|
      {
        ghost var k := |freed|;
        FreedStep(ops, k);
        NextOf(ops, k);
        var next := node.next;
        // Not freed before, and still allocated.
        assert node in live;
        live := live - {node};
        freed := freed + [node];
        node := next;
      }
      FreedSplit(ops, |ops|);
    }

    method BackgroundReader()
      requires Valid() && ring.readerTimers > 0
      modifies this
      ensures Valid() && live == old(live) && Abs() == ReaderStep(old(Abs()))
      ensures |ring.dueReads| == old(|ring.dueReads|) + reader.batch
    {
      hide Valid, Adapt, Unfinished, Batch, PagesOf, Min;
      ring := ring.(readerTimers := ring.readerTimers - 1);
      reader := reader.(batch := Adapt(reader.batch, reader.inflight));
      reader := reader.(batch := Min(reader.batch, (flusherPageId - reader.pageId) % U64));
      IssueReads();
      reader := reader.(inflight := (reader.inflight + reader.batch) % U8);
      reader := reader.(pageId := Add32(reader.pageId, reader.batch));
      if Unfinished(reader.pageId) {
        ring := ring.(readerTimers := ring.readerTimers + 1);
      } else {
        reader := reader.(running := false);
      }
    }

    /** The loop of the reader: one read per page of the batch. */
    method IssueReads()
      modifies this`ring
      ensures ring == old(ring).(dueReads := old(ring).dueReads + multiset(Batch(reader.pageId, reader.batch)))
    {
      hide Batch;
      var i := 0;
      BatchNext(reader.pageId, 0);
      while i < reader.batch
        invariant i <= reader.batch
        invariant ring == old(ring).(dueReads := old(ring).dueReads + multiset(Batch(reader.pageId, i)))
      {
        BatchNext(reader.pageId, i);
        ring := ring.(dueReads := ring.dueReads + multiset{Add32(reader.pageId, i)});
        i := i + 1;
      }
    }

    method BackgroundWriter()
      requires Valid() && ring.writerTimers > 0
      modifies this
      ensures Valid() && fresh(live - old(live)) && Abs() == WriterStep(old(Abs()))
      ensures |due| == old(|due|) + writer.batch
    {
      hide Valid, Adapt, Unfinished, Batch, PagesOf;
      ring := ring.(writerTimers := ring.writerTimers - 1);
      writer := writer.(batch := Adapt(writer.batch, writer.inflight));
      IssueWrites();
      writer := writer.(inflight := (writer.inflight + writer.batch) % U8);
      writer := writer.(pageId := Add32(writer.pageId, writer.batch));
      if Unfinished(writer.pageId) {
        ring := ring.(writerTimers := ring.writerTimers + 1);
      } else {
        writer := writer.(running := false);
      }
    }

    /** The loop of the writer: one operation per page of the batch. */
    method IssueWrites()
      requires Valid()
      modifies this`due, this`live
      ensures Valid() && fresh(live - old(live)) && old(live) <= live
      ensures PagesOf(due) == old(PagesOf(due)) + Batch(writer.pageId, writer.batch)
    {
      hide Batch, PagesOf, Linked;
      var i := 0;
      BatchNext(writer.pageId, 0);
      while i < writer.batch
        invariant i <= writer.batch && Valid() && fresh(live - old(live)) && old(live) <= live
        invariant PagesOf(due) == old(PagesOf(due)) + Batch(writer.pageId, i)
      {
        var op := new WriteOp(Add32(writer.pageId, i));
        Issued(op);
        BatchNext(writer.pageId, i);
        i := i + 1;
      }
    }

    /** The kernel owes one more write. */
    method Issued(op: WriteOp)
      requires Valid() && op !in live && op.next == null
      modifies this`due, this`live
      ensures Valid() && due == old(due) + [op] && live == old(live) + {op}
      ensures PagesOf(due) == PagesOf(old(due)) + [op.pageId]
    {
      hide PagesOf, Linked;
      PagesJoin(due, [op]);
      PagesOne(op);
      due := due + [op];
      live := live + {op};
      assert OpSet(due) == OpSet(old(due)) + {op};
    }

    method BackgroundFlusher()
      requires Valid() && ring.flusherTimers > 0
      modifies this
      ensures Valid() && live == old(live) && Abs() == FlusherStep(old(Abs()))
    {
      hide Valid, Unfinished, PagesOf;
      ring := ring.(flusherTimers := ring.flusherTimers - 1);
      if writer.writtenNoFlush != 0 && flusherInflight == 0 {
        ring := ring.(fsyncs := ring.fsyncs + 1);
        flusherInflight := 1;
      }
      if Unfinished(flusherPageId) {
        ring := ring.(flusherTimers := ring.flusherTimers + 1);
      } else {
        flusherRunning := false;
      }
    }

    method DumpTracingItems()
      requires Valid()
      modifies this`tracer, this`ring
      ensures Abs() == DumpItems(old(Abs()))
    {
      hide Valid, UsedCount, PagesOf;
      if tracer.dump.inflight != 0 {
        return;
      }
      var items := UsedCount(tracer.cbuf);
      if items != 0 {
        var toWrite := items * ITEM_SIZE % U32;
        tracer := tracer.(dump := Dump(items, toWrite, 1));
        ring := ring.(dumpWrites := ring.dumpWrites + 1);
      }
    }

    method BackgroundTracing()
      requires Valid() && ring.tracerTimers > 0
      modifies this
      ensures Valid() && live == old(live) && Abs() == TracerStep(old(Abs()))
    {
      hide Valid, UsedCount, FreeCount, PagesOf;
      var finished := !writer.running && !flusherRunning && !reader.running;
      if FreeCount(tracer.cbuf) != 0 && !finished {
        tracer := tracer.(cbuf := tracer.cbuf.(tail := Add32(tracer.cbuf.tail, 1)));
        tracer := tracer.(traceDone := (tracer.traceDone + 1) % U64);
      }
      if FreeCount(tracer.cbuf) <= TRACING_BUF_LEN / 2 {
        DumpTracingItems();
      }
      if !finished || tracer.dump.inflight != 0 {
        // The timeout that fired is replaced by a new one.
        return;
      }
      ring := ring.(tracerTimers := ring.tracerTimers - 1);
      DumpTracingItems();
    }

    method TracingWrittenCallback()
      requires Valid() && ring.dumpWrites > 0
      modifies this
      ensures Valid() && live == old(live) && Abs() == TracingWritten(old(Abs()))
    {
      hide Valid, PagesOf;
      ring := ring.(dumpWrites := ring.dumpWrites - 1);
      tracer := tracer.(cbuf := tracer.cbuf.(head := Add32(tracer.cbuf.head, tracer.dump.items)));
      ring := ring.(dumpSyncs := ring.dumpSyncs + 1);
    }

    method TracingSyncedCallback()
      requires Valid() && ring.dumpSyncs > 0
      modifies this
      ensures Valid() && live == old(live) && Abs() == TracingSynced(old(Abs()))
    {
      hide Valid, PagesOf;
      ring := ring.(dumpSyncs := ring.dumpSyncs - 1);
      tracer := tracer.(traceSynced := (tracer.traceSynced + tracer.dump.toWrite) % U64);
      tracer := tracer.(dump := tracer.dump.(inflight := 0));
      if !writer.running && !flusherRunning && !reader.running {
        tracer := tracer.(running := false);
      }
    }

    /** io_tick for one completion: the callback of its operation is called. */
    method Deliver(e: Event)
      requires Valid() && Enabled(Abs(), e)
      modifies this, live
      ensures Valid() && fresh(live - old(live)) && Abs() == Step(old(Abs()), e)
    {
      match e {
        case WriterTick => BackgroundWriter();
        case ReaderTick => BackgroundReader();
        case FlusherTick => BackgroundFlusher();
        case TracerTick => BackgroundTracing();
        case WriteDone => PageWrittenCallback(due[0]);
        case ReadDone(id) => PageReadCallback(id);
        case FsyncDone => var _ := FileSyncedCallback();
        case DumpWritten => TracingWrittenCallback();
        case DumpSynced => TracingSyncedCallback();
        case Idle =>
      }
    }

    /** The main loop on the completions the kernel delivers: it ends when all four jobs have stopped. */
    method MainLoop(es: seq<Event>) returns (n: nat)
      requires Possible(es) && Valid() && Abs() == Init()
      modifies this, live
      ensures n <= |es| && Possible(es[..n]) && Valid() && Abs() == After(es[..n])
      ensures n < |es| ==> Stopped(Abs())
      ensures forall k | 0 < k < n :: Possible(es[..k]) && !Stopped(After(es[..k]))
      ensures n < |es| ==> !writer.running && !flusherRunning && !reader.running && !tracer.running
      ensures forall k | 0 < k < n :: var s := After(es[..k]); Traced(s) || s.tracer.running
    {
      hide Valid, Enabled, Step;
      n := 0;
      while n < |es|
        invariant n <= |es| && Possible(es[..n]) && Valid() && fresh(live - old(live)) && Abs() == After(es[..n])
        invariant forall k | 0 < k <= n :: Possible(es[..k]) && !Stopped(After(es[..k]))
      {
        PossibleNext(es, n);
        Deliver(es[n]);
        n := n + 1;
        if !writer.running && !flusherRunning && !reader.running && !tracer.running {
          break;
        }
      }
    }
  }
}
