/** What the pipeline did over a whole run, as a log of what was issued and what came back. */
module PipelineLog {
  import opened Pipeline

  datatype Entry =
    | WritesIssued(ids: seq<nat>)
    | Written(id: nat)
    | Synced(ids: seq<nat>)
    | ReadsIssued(ids: seq<nat>)
    | Returned(id: nat)
    | Dumped(off: nat, len: nat)

  /** What a step adds to the log. */
  function Emits(s: State, e: Event): (r: seq<Entry>)
    requires Enabled(s, e)
    ensures |r| <= 1
  {
    match e
    case WriterTick => [WritesIssued(Batch(s.writer.pageId, Adapt(s.writer.batch, s.writer.inflight)))]
    case ReaderTick => [ReadsIssued(Batch(s.reader.pageId, ReadBatch(s)))]
    case WriteDone => [Written(s.ring.dueWrites[0])]
    case ReadDone(id) => [Returned(id)]
    case FsyncDone => [Synced(s.flusher.writeList)]
    case TracerTick =>
      var s' := TracerStep(s);
      if s'.ring.dumpWrites > s.ring.dumpWrites then [Dumped(s.tracer.traceSynced, s'.tracer.dump.toWrite)] else []
    case _ => []
  }

  function Log(es: seq<Event>): seq<Entry>
    requires Possible(es)
    decreases |es|
  {
    if es == [] then []
    else Log(es[..|es| - 1]) + Emits(After(es[..|es| - 1]), es[|es| - 1])
  }

  /** All ids that `f` finds in the log, in order. */
  function Collect(log: seq<Entry>, f: Entry -> seq<nat>): seq<nat> {
    if log == [] then [] else Collect(log[..|log| - 1], f) + f(log[|log| - 1])
  }

  function IssuedBy(x: Entry): seq<nat> { if x.WritesIssued? then x.ids else [] }
  function WrittenBy(x: Entry): seq<nat> { if x.Written? then [x.id] else [] }
  function SyncedBy(x: Entry): seq<nat> { if x.Synced? then x.ids else [] }
  function RequestedBy(x: Entry): seq<nat> { if x.ReadsIssued? then x.ids else [] }
  function ReturnedBy(x: Entry): seq<nat> { if x.Returned? then [x.id] else [] }

  /** The bytes of all dumps. */
  function DumpedBytes(log: seq<Entry>): nat {
    if log == [] then 0 else DumpedBytes(log[..|log| - 1]) + (if log[|log| - 1].Dumped? then log[|log| - 1].len else 0)
  }

  // ----- What the log says in every reachable state -----

  /** Every page id went through each stage once and in order, up to where its stage is. */
  ghost predicate Accounted(s: State, log: seq<Entry>) {
    && Collect(log, IssuedBy) == Ids(0, s.writer.pageId)
    && Collect(log, WrittenBy) == Ids(0, s.checkOrder)
    && Collect(log, SyncedBy) == Ids(0, s.flusher.pageId)
    && Collect(log, RequestedBy) == Ids(0, s.reader.pageId)
    && multiset(Collect(log, RequestedBy)) == multiset(Collect(log, ReturnedBy)) + s.ring.dueReads
  }

  /** An entry only concerns pages that the stage before it is done with. */
  ghost predicate InTurn(x: Entry, before: seq<Entry>) {
    && (x.Written? ==> x.id in Collect(before, IssuedBy))
    && (x.Synced? ==> forall id | id in x.ids :: id in Collect(before, WrittenBy))
    && (x.ReadsIssued? ==> forall id | id in x.ids :: id in Collect(before, SyncedBy))
    && (x.Returned? ==> x.id in Collect(before, RequestedBy))
  }

  ghost predicate Ordered(log: seq<Entry>) {
    forall i | 0 <= i < |log| :: InTurn(log[i], log[..i])
  }

  /** Every dump starts where the one before it ended, and holds whole items. */
  ghost predicate Tiled(log: seq<Entry>) {
    forall i | 0 <= i < |log| && log[i].Dumped? ::
      log[i].off == DumpedBytes(log[..i]) % U64 && 0 < log[i].len <= TRACING_BUF_LEN * ITEM_SIZE && log[i].len % ITEM_SIZE == 0
  }

  /** What is synced, with the dump under way, is all that was dumped. */
  ghost predicate DumpsAccounted(s: State, log: seq<Entry>) {
    (s.tracer.traceSynced + (if s.tracer.dump.inflight == 1 then s.tracer.dump.toWrite else 0)) % U64 == DumpedBytes(log) % U64
  }

  lemma CollectOne(log: seq<Entry>, x: Entry, f: Entry -> seq<nat>)
    ensures Collect(log + [x], f) == Collect(log, f) + f(x)
  {
    assert (log + [x])[..|log|] == log;
  }

  lemma BytesOne(log: seq<Entry>, x: Entry)
    ensures DumpedBytes(log + [x]) == DumpedBytes(log) + if x.Dumped? then x.len else 0
  {
    assert (log + [x])[..|log|] == log;
  }

  lemma OrderedOne(log: seq<Entry>, x: Entry)
    requires Ordered(log) && InTurn(x, log)
    ensures Ordered(log + [x])
  {
    hide InTurn;
    forall i | 0 <= i <= |log| ensures InTurn((log + [x])[i], (log + [x])[..i]) {
      assert (log + [x])[..i] == log[..i];
      assert log[..|log|] == log;
    }
  }

  lemma TiledOne(log: seq<Entry>, x: Entry)
    requires Tiled(log)
    requires x.Dumped? ==> x.off == DumpedBytes(log) % U64 && 0 < x.len <= TRACING_BUF_LEN * ITEM_SIZE && x.len % ITEM_SIZE == 0
    ensures Tiled(log + [x])
  {
    forall i | 0 <= i <= |log| ensures (log + [x])[..i] == log[..i] {}
    assert log[..|log|] == log;
  }

  lemma CollectAll(log: seq<Entry>, x: Entry)
    ensures Collect(log + [x], IssuedBy) == Collect(log, IssuedBy) + IssuedBy(x)
    ensures Collect(log + [x], WrittenBy) == Collect(log, WrittenBy) + WrittenBy(x)
    ensures Collect(log + [x], SyncedBy) == Collect(log, SyncedBy) + SyncedBy(x)
    ensures Collect(log + [x], RequestedBy) == Collect(log, RequestedBy) + RequestedBy(x)
    ensures Collect(log + [x], ReturnedBy) == Collect(log, ReturnedBy) + ReturnedBy(x)
  {
    CollectOne(log, x, IssuedBy);
    CollectOne(log, x, WrittenBy);
    CollectOne(log, x, SyncedBy);
    CollectOne(log, x, RequestedBy);
    CollectOne(log, x, ReturnedBy);
  }

  lemma MemberOfIds(id: nat, lo: nat, hi: nat)
    ensures id in Ids(lo, hi) <==> lo <= id < hi
  {
    if lo <= id < hi { assert Ids(lo, hi)[id - lo] == id; }
  }

  /** The batch a tick sends out is the next stretch of ids. */
  lemma WriterBatch(s: State)
    requires Inv(s)
    ensures var b := Adapt(s.writer.batch, s.writer.inflight);
            Batch(s.writer.pageId, b) == Ids(s.writer.pageId, s.writer.pageId + b) && WriterStep(s).writer.pageId == s.writer.pageId + b
  {
    hide Adapt, Batch, Unfinished, Ids;
    AdaptBounds(s.writer.batch, s.writer.inflight);
    BatchIds(s.writer.pageId, Adapt(s.writer.batch, s.writer.inflight));
  }

  lemma ReaderBatch(s: State)
    requires Inv(s)
    ensures var b := ReadBatch(s);
            && Batch(s.reader.pageId, b) == Ids(s.reader.pageId, s.reader.pageId + b)
            && ReaderStep(s).reader.pageId == s.reader.pageId + b <= s.flusher.pageId
  {
    hide Adapt, Batch, Unfinished, Ids, ReadBatch;
    ReadBatchMeaning(s);
    BatchIds(s.reader.pageId, ReadBatch(s));
  }

  lemma WriterAccounts(s: State, log: seq<Entry>, x: Entry)
    requires Inv(s) && Accounted(s, log) && x == WritesIssued(Batch(s.writer.pageId, Adapt(s.writer.batch, s.writer.inflight)))
    ensures Accounted(WriterStep(s), log + [x]) && InTurn(x, log)
  {
    hide Adapt, Batch, Unfinished, Ids, Collect, Tracing;
    CollectAll(log, x);
    WriterBatch(s);
    IdsJoin(0, s.writer.pageId, WriterStep(s).writer.pageId);
  }

  lemma ReaderAccounts(s: State, log: seq<Entry>, x: Entry)
    requires Inv(s) && Accounted(s, log) && x == ReadsIssued(Batch(s.reader.pageId, ReadBatch(s)))
    ensures Accounted(ReaderStep(s), log + [x]) && InTurn(x, log)
  {
    hide Adapt, Batch, Unfinished, Ids, Collect, Tracing, ReadBatch;
    CollectAll(log, x);
    ReaderBatch(s);
    IdsJoin(0, s.reader.pageId, ReaderStep(s).reader.pageId);
    forall id | id in x.ids ensures id in Collect(log, SyncedBy) {
      MemberOfIds(id, s.reader.pageId, ReaderStep(s).reader.pageId);
      MemberOfIds(id, 0, s.flusher.pageId);
    }
  }

  lemma WrittenAccounts(s: State, log: seq<Entry>)
    requires Inv(s) && Accounted(s, log) && s.ring.dueWrites != []
    ensures var x := Written(s.ring.dueWrites[0]); Accounted(PageWritten(s), log + [x]) && InTurn(x, log)
  {
    hide Ids, Collect, Tracing;
    CollectAll(log, Written(s.ring.dueWrites[0]));
    WrittenKeeps(s);
    OneId(s.checkOrder);
    IdsJoin(0, s.checkOrder, s.checkOrder + 1);
    MemberOfIds(s.checkOrder, s.checkOrder, s.writer.pageId);
    MemberOfIds(s.checkOrder, 0, s.writer.pageId);
  }

  lemma SyncedAccounts(s: State, log: seq<Entry>)
    requires Inv(s) && Accounted(s, log)
    ensures var x := Synced(s.flusher.writeList); Accounted(FileSynced(s), log + [x]) && InTurn(x, log)
  {
    hide Ids, Collect, Tracing;
    var x := Synced(s.flusher.writeList);
    CollectAll(log, x);
    IdsJoin(0, s.flusher.pageId, s.checkOrder);
    forall id | id in x.ids ensures id in Collect(log, WrittenBy) {
      MemberOfIds(id, s.flusher.pageId, s.checkOrder);
      MemberOfIds(id, 0, s.checkOrder);
    }
  }

  lemma ReturnedAccounts(s: State, log: seq<Entry>, id: nat)
    requires Accounted(s, log) && id in s.ring.dueReads
    ensures Accounted(PageRead(s, id), log + [Returned(id)]) && InTurn(Returned(id), log)
  {
    hide Ids, Collect;
    CollectAll(log, Returned(id));
    assert id in multiset(Collect(log, RequestedBy));
  }

  /** What touches no page. */
  lemma OthersAccount(s: State, s': State, log: seq<Entry>, out: seq<Entry>)
    requires Accounted(s, log) && |out| <= 1 && forall x | x in out :: x.Dumped?
    requires s'.writer.pageId == s.writer.pageId && s'.reader.pageId == s.reader.pageId && s'.flusher.pageId == s.flusher.pageId
    requires s'.checkOrder == s.checkOrder && s'.ring.dueReads == s.ring.dueReads
    ensures Accounted(s', log + out) && forall x | x in out :: InTurn(x, log)
  {
    hide Ids, Collect;
    if out == [] {
      assert log + out == log;
    } else {
      assert out == [out[0]] && out[0] in out;
      CollectAll(log, out[0]);
    }
  }

  /** A step keeps the books, and what it adds is in turn. */
  lemma StepAccounts(s: State, e: Event, log: seq<Entry>)
    requires Inv(s) && Enabled(s, e) && Accounted(s, log)
    ensures Accounted(Step(s, e), log + Emits(s, e))
    ensures forall x | x in Emits(s, e) :: InTurn(x, log)
  {
    hide Adapt, Batch, Unfinished, Ids, ReadBatch, Collect, Inv, Accounted, InTurn, TracerStep;
    match e {
      case WriterTick => WriterAccounts(s, log, Emits(s, e)[0]);
      case ReaderTick => ReaderAccounts(s, log, Emits(s, e)[0]);
      case WriteDone => WrittenAccounts(s, log);
      case FsyncDone => SyncedAccounts(s, log);
      case ReadDone(id) => ReturnedAccounts(s, log, id);
      case _ =>
        TracerStages(s);
        OthersAccount(s, Step(s, e), log, Emits(s, e));
    }
  }

  lemma OneId(id: nat)
    ensures Ids(id, id + 1) == [id]
  {}

  /** Tracing touches no page. */
  lemma TracerStages(s: State)
    ensures var s' := TracerStep(s);
            && s'.writer == s.writer && s'.reader == s.reader && s'.flusher == s.flusher && s'.checkOrder == s.checkOrder
            && s'.ring.dueReads == s.ring.dueReads
  {}

  /** The dump that a tracer tick may start. */
  lemma TracerDumps(s: State)
    requires Tracing(s)
    ensures var s' := TracerStep(s);
            && s'.tracer.traceSynced == s.tracer.traceSynced
            && (if s'.ring.dumpWrites > s.ring.dumpWrites
                then s.tracer.dump.inflight == 0 && s'.tracer.dump.inflight == 1
                     && 0 < s'.tracer.dump.toWrite <= TRACING_BUF_LEN * ITEM_SIZE && s'.tracer.dump.toWrite % ITEM_SIZE == 0
                else s'.tracer.dump == s.tracer.dump)
  {
    hide UsedCount, FreeCount;
    RecordedKeeps(s);
    UsedMeaning(Recorded(s).tracer.cbuf);
  }

  lemma TickTiles(s: State, log: seq<Entry>)
    requires Tracing(s) && Enabled(s, TracerTick) && DumpsAccounted(s, log) && Tiled(log)
    ensures DumpsAccounted(TracerStep(s), log + Emits(s, TracerTick)) && Tiled(log + Emits(s, TracerTick))
  {
    hide DumpedBytes, UsedCount, FreeCount, Tiled, TracerStep;
    TracerDumps(s);
    var out := Emits(s, TracerTick);
    if out == [] {
      assert log + out == log;
    } else {
      assert out == [out[0]];
      BytesOne(log, out[0]);
      SumWraps(s.tracer.traceSynced, DumpedBytes(log), out[0].len);
      TiledOne(log, out[0]);
    }
  }

  lemma StepTiles(s: State, e: Event, log: seq<Entry>)
    requires Tracing(s) && Enabled(s, e) && DumpsAccounted(s, log) && Tiled(log)
    ensures DumpsAccounted(Step(s, e), log + Emits(s, e)) && Tiled(log + Emits(s, e))
  {
    hide Adapt, Batch, Unfinished, ReadBatch, DumpedBytes, UsedCount, FreeCount, Tiled, TracerStep;
    if e == TracerTick {
      TickTiles(s, log);
    } else {
      var out := Emits(s, e);
      if out == [] {
        assert log + out == log;
      } else {
        assert out == [out[0]];
        BytesOne(log, out[0]);
        TiledOne(log, out[0]);
      }
    }
  }

  lemma SumWraps(a: nat, b: nat, n: nat)
    requires a % U64 == b % U64
    ensures (a + n) % U64 == (b + n) % U64
  {}

  /** After every run: the books balance, every entry was in turn, and the dumps tile the trace file. */
  lemma {:induction false} RunLogs(es: seq<Event>)
    requires Possible(es)
    ensures Accounted(After(es), Log(es)) && Ordered(Log(es))
    ensures DumpsAccounted(After(es), Log(es)) && Tiled(Log(es))
    decreases |es|
  {
    hide Inv, Accounted, InTurn, Tiled, DumpsAccounted, Ordered, Step, Emits, Enabled;
    if es == [] {
      NothingLogged();
    } else {
      var front, e := es[..|es| - 1], es[|es| - 1];
      RunKeeps(front);
      RunLogs(front);
      InvTracing(After(front));
      StepAccounts(After(front), e, Log(front));
      StepTiles(After(front), e, Log(front));
      var out := Emits(After(front), e);
      if out == [] {
        assert Log(front) + out == Log(front);
      } else {
        assert out == [out[0]];
        OrderedOne(Log(front), out[0]);
      }
    }
  }

  lemma InvTracing(s: State)
    requires Inv(s)
    ensures Tracing(s)
  {}

  lemma NothingLogged()
    ensures Accounted(Init(), []) && Ordered([]) && DumpsAccounted(Init(), []) && Tiled([])
  {}

  // ----- Batches and trace items over whole runs -----

  /** How many reads, or writes, were issued last. */
  function LastReads(log: seq<Entry>): nat {
    if log == [] then 0 else if log[|log| - 1].ReadsIssued? then |log[|log| - 1].ids| else LastReads(log[..|log| - 1])
  }

  function LastWrites(log: seq<Entry>): nat {
    if log == [] then 0 else if log[|log| - 1].WritesIssued? then |log[|log| - 1].ids| else LastWrites(log[..|log| - 1])
  }

  lemma StepBatches(s: State, e: Event, log: seq<Entry>)
    requires Inv(s) && Enabled(s, e) && s.reader.batch == LastReads(log) && s.writer.batch == LastWrites(log)
    ensures var s', log' := Step(s, e), log + Emits(s, e); s'.reader.batch == LastReads(log') && s'.writer.batch == LastWrites(log')
  {
    hide Adapt, Unfinished, Batch, Inv, TracerStep, LastReads, LastWrites, ReadBatch;
    TracerStages(s);
    var out := Emits(s, e);
    if out == [] {
      assert log + out == log;
    } else {
      assert out == [out[0]];
      LastOne(log, out[0]);
    }
  }

  lemma LastOne(log: seq<Entry>, x: Entry)
    ensures LastReads(log + [x]) == if x.ReadsIssued? then |x.ids| else LastReads(log)
    ensures LastWrites(log + [x]) == if x.WritesIssued? then |x.ids| else LastWrites(log)
  {
    assert (log + [x])[..|log|] == log;
  }

  /** After every run the batch that a job keeps is the number of operations it issued last. */
  lemma {:induction false} RunBatches(es: seq<Event>)
    requires Possible(es)
    ensures After(es).reader.batch == LastReads(Log(es)) && After(es).writer.batch == LastWrites(Log(es))
    decreases |es|
  {
    hide Inv, Step, Emits, Enabled, LastReads, LastWrites;
    if es == [] {
      assert LastReads([]) == 0 && LastWrites([]) == 0 by { NoneIssued(); }
    } else {
      var front := es[..|es| - 1];
      RunKeeps(front);
      RunBatches(front);
      StepBatches(After(front), es[|es| - 1], Log(front));
    }
  }

  lemma NoneIssued()
    ensures LastReads([]) == 0 && LastWrites([]) == 0
  {}

  /** A reader that found nothing to read starts over: with nothing in flight its next tick reads one page of
      whatever has been flushed by then, and with nothing flushed none. */
  lemma ReaderStartsOver(es: seq<Event>)
    requires Possible(es) && LastReads(Log(es)) == 0 && After(es).ring.dueReads == multiset{}
    ensures var s := After(es);
            var s' := ReaderStep(s);
            s'.reader.batch == |s'.ring.dueReads| == s'.reader.pageId - s.reader.pageId
              == if s.flusher.pageId > s.reader.pageId then 1 else 0
  {
    hide Adapt, ReaderStep, LastReads, After, Log, Possible;
    RunKeeps(es);
    RunBatches(es);
    ReaderSends(After(es));
    AdaptExact(After(es).reader.batch, After(es).reader.inflight);
  }

  /** The state after n reader ticks. */
  function ReaderTicks(s: State, n: nat): State { if n == 0 then s else ReaderStep(ReaderTicks(s, n - 1)) }

  /** Any number of ticks with nothing to read issue no read and leave a batch of 0. */
  lemma {:induction false} NothingToRead(s: State, n: nat)
    requires Inv(s) && s.reader.running && s.reader.pageId == s.flusher.pageId
    ensures var s' := ReaderTicks(s, n);
            && Inv(s') && s'.reader.running && s'.reader.pageId == s'.flusher.pageId == s.flusher.pageId
            && s'.ring.dueReads == s.ring.dueReads && (n > 0 ==> s'.reader.batch == 0)
  {
    hide Adapt, ReaderStep, Flow, Tracing;
    if n > 0 {
      NothingToRead(s, n - 1);
      var t := ReaderTicks(s, n - 1);
      ReaderSends(t);
      ReaderKeeps(t);
      assert ReaderStep(t).ring.dueReads == t.ring.dueReads;
    }
  }

  /** The ticks of a run that had an item to record and room for it. */
  function RecordingTicks(es: seq<Event>): nat
    requires Possible(es)
    decreases |es|
  {
    if es == [] then 0
    else
      var front := es[..|es| - 1];
      RecordingTicks(front) + if es[|es| - 1].TracerTick? && Records(After(front)) then 1 else 0
  }

  /** trace_done counts them. */
  lemma {:induction false} RunRecords(es: seq<Event>)
    requires Possible(es)
    ensures After(es).tracer.traceDone == RecordingTicks(es) % U64
    decreases |es|
  {
    hide Inv, Step, Enabled, Records;
    if es != [] {
      var front, e := es[..|es| - 1], es[|es| - 1];
      RunKeeps(front);
      InvTracing(After(front));
      RunRecords(front);
      StepRecords(After(front), e);
      SumWraps(After(front).tracer.traceDone, RecordingTicks(front), 1);
    }
  }

  lemma StepRecords(s: State, e: Event)
    requires Tracing(s) && Enabled(s, e)
    ensures Step(s, e).tracer.traceDone == (s.tracer.traceDone + if e.TracerTick? && Records(s) then 1 else 0) % U64
  {
    hide UsedCount, FreeCount, TracerStep, Records, Adapt, Batch, Unfinished;
    if e.TracerTick? { TickRecords(s); }
  }

  // ----- When the three jobs have stopped -----

  lemma {:induction false} Found(log: seq<Entry>, f: Entry -> seq<nat>, id: nat) returns (i: nat)
    requires id in Collect(log, f)
    ensures i < |log| && id in f(log[i])
    decreases |log|
  {
    i := |log| - 1;
    if id !in f(log[i]) {
      i := Found(log[..i], f, id);
    }
  }

  lemma {:induction false} EachOnce(id: nat, n: nat)
    requires id < n
    ensures multiset(Ids(0, n))[id] == 1
    decreases n
  {
    IdsJoin(0, n - 1, n);
    OneId(n - 1);
    MemberOfIds(id, 0, n - 1);
    if id < n - 1 { EachOnce(id, n - 1); }
  }

  /** The way of a page through the log: issued, completed, passed by an fsync, and only then read. */
  ghost predicate Travelled(log: seq<Entry>, id: nat, issued: nat, written: nat, synced: nat, requested: nat) {
    && issued < written < synced < requested < |log|
    && id in IssuedBy(log[issued]) && id in WrittenBy(log[written])
    && id in SyncedBy(log[synced]) && id in RequestedBy(log[requested])
  }

  /** Every page whose read was issued has travelled all the way. */
  lemma ReadsCameLast(es: seq<Event>, requested: nat, id: nat) returns (issued: nat, written: nat, synced: nat)
    requires Possible(es) && requested < |Log(es)| && id in RequestedBy(Log(es)[requested])
    ensures Travelled(Log(es), id, issued, written, synced, requested)
  {
    hide Collect, Possible, Log, Accounted, DumpsAccounted, Tiled;
    RunLogs(es);
    var log := Log(es);
    assert InTurn(log[requested], log[..requested]);
    synced := Found(log[..requested], SyncedBy, id);
    assert InTurn(log[synced], log[..synced]);
    written := Found(log[..synced], WrittenBy, id);
    assert InTurn(log[written], log[..written]);
    issued := Found(log[..written], IssuedBy, id);
  }

  /** When writer, flusher and reader have stopped, every page up to the target was written once, completed
      once, passed by one fsync and had one read issued, in this order. */
  lemma EndToEnd(es: seq<Event>, id: nat) returns (issued: nat, written: nat, synced: nat, requested: nat)
    requires Possible(es) && Finished(After(es)) && id < TARGET
    ensures Travelled(Log(es), id, issued, written, synced, requested)
    ensures forall f | f in [IssuedBy, WrittenBy, SyncedBy, RequestedBy] :: multiset(Collect(Log(es), f))[id] == 1
  {
    hide Collect, Possible, Log, After, Ordered, DumpsAccounted, Tiled, Ids, Tracing;
    RunKeeps(es);
    RunLogs(es);
    var s, log := After(es), Log(es);
    EachOnce(id, s.writer.pageId);
    EachOnce(id, s.checkOrder);
    EachOnce(id, s.flusher.pageId);
    EachOnce(id, s.reader.pageId);
    MemberOfIds(id, 0, s.reader.pageId);
    requested := Found(log, RequestedBy, id);
    issued, written, synced := ReadsCameLast(es, requested, id);
  }

  // ----- The end of tracing -----

  /** The tracer waits for nothing and runs: the main loop is never left. */
  ghost predicate Stuck(s: State) {
    Finished(s) && s.tracer.running && s.tracer.dump.inflight == 0 && s.ring.tracerTimers == 0
  }

  /** The tick of the tracer after the other jobs have stopped, with no dump under way: it gets stuck
      exactly when the buffer is empty, and otherwise stops when its last dump is synced. */
  lemma FinalTick(s: State)
    requires Inv(s) && Finished(s) && s.tracer.running && s.tracer.dump.inflight == 0 && Enabled(s, TracerTick)
    ensures Stuck(TracerStep(s)) <==> s.tracer.cbuf.head == s.tracer.cbuf.tail
    ensures s.tracer.cbuf.head != s.tracer.cbuf.tail ==>
              var s' := TracerStep(s);
              Enabled(s', DumpWritten) && Enabled(TracingWritten(s'), DumpSynced) && !TracingSynced(TracingWritten(s')).tracer.running
  {
    hide UsedCount, FreeCount;
    UsedMeaning(s.tracer.cbuf);
  }

  lemma StuckStep(s: State, e: Event)
    requires Inv(s) && Enabled(s, e) && Stuck(s)
    ensures Stuck(Step(s, e))
  {
    hide Flow, UsedCount, FreeCount, TracerStep;
  }

  lemma {:induction false} StuckForever(es: seq<Event>, n: nat)
    requires Possible(es) && n <= |es| && Possible(es[..n]) && Stuck(After(es[..n]))
    ensures Stuck(After(es))
    decreases |es|
  {
    hide Inv, Stuck, Step, Enabled;
    if n < |es| {
      var front := es[..|es| - 1];
      assert front[..n] == es[..n];
      StuckForever(front, n);
      RunKeeps(front);
      StuckStep(After(front), es[|es| - 1]);
    } else {
      assert es[..n] == es;
    }
  }
}
