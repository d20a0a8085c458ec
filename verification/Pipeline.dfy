/** The writer / flusher / reader / tracer pipeline as a state machine. Every callback is one step; the
    kernel side of the ring is the bag of what it still owes (src/scheduler.c, counters of src/cbuf.c). */
module Pipeline {
  const U8: nat := 0x100
  const U32: nat := 0x1_0000_0000
  const U64: nat := 0x1_0000_0000_0000_0000

  const ENTRIES: nat := 0x4000
  const INFLIGHT_LOW_RANGE: nat := 8
  const INFLIGHT_HIGH_RANGE: nat := 32
  const BATCH_INCREMENT_PERCENT: nat := 1
  const BUF_SIZE: nat := 0x1_0000
  const BYTES_TO_WRITE: nat := 0x8000_0000
  const TRACING_BUF_LEN: nat := 64
  const ITEM_SIZE: nat := 40

  /** The number of pages to write, and how far a last batch may carry a job beyond it. */
  const TARGET: nat := 32768
  const MAX_BATCH: nat := 16382
  const PAGE_BOUND: nat := 49149

  datatype Writer = Writer(pageId: nat, batch: nat, writtenNoFlush: nat, inflight: nat, running: bool)

  datatype Reader = Reader(pageId: nat, batch: nat, inflight: nat, running: bool)

  datatype Flusher = Flusher(pageId: nat, inflight: nat, writeList: seq<nat>, running: bool)

  /** The head and tail counters of the ring buffer of trace items. */
  datatype Cbuf = Cbuf(head: nat, tail: nat)

  datatype Dump = Dump(items: nat, toWrite: nat, inflight: nat)

  datatype Tracer = Tracer(cbuf: Cbuf, traceDone: nat, traceSynced: nat, dump: Dump, running: bool)

  /** What the kernel still owes: timeouts per job, writes in issue order, reads in any order, fsyncs, and
      the write or fsync of a trace dump. */
  datatype Ring = Ring(writerTimers: nat, readerTimers: nat, flusherTimers: nat, tracerTimers: nat,
                       dueWrites: seq<nat>, dueReads: multiset<nat>, fsyncs: nat, dumpWrites: nat, dumpSyncs: nat)

  datatype State = State(writer: Writer, reader: Reader, flusher: Flusher, tracer: Tracer, checkOrder: nat, ring: Ring)

  datatype Event =
    | WriterTick
    | ReaderTick
    | FlusherTick
    | TracerTick
    | WriteDone
    | ReadDone(id: nat)
    | FsyncDone
    | DumpWritten
    | DumpSynced
    | Idle

  function Add32(a: nat, b: nat): nat { (a + b) % U32 }

  function Max(a: nat, b: nat): nat { if a > b then a else b }

  function Min(a: nat, b: nat): nat { if a < b then a else b }

  /** The ids from lo up to hi. */
  function Ids(lo: nat, hi: nat): (r: seq<nat>)
    ensures |r| == if lo <= hi then hi - lo else 0
  {
    if lo <= hi then seq(hi - lo, i requires 0 <= i < hi - lo => lo + i) else []
  }

  // ----- The ring buffer counters -----

  function UsedCount(c: Cbuf): nat { (c.tail - c.head) % U32 }

  function FreeCount(c: Cbuf): nat { (TRACING_BUF_LEN - (c.tail - c.head)) % U32 }

  // ----- The callbacks -----

  /** The batch size adapts to the in-flight counter, an 8-bit number. */
  function Adapt(batch: nat, inflight: nat): nat {
    if inflight <= INFLIGHT_LOW_RANGE && batch < ENTRIES / 2 then
      if inflight == 0 && batch > 0 then batch * 2 % U32
      else Add32(batch, Max(1, batch * BATCH_INCREMENT_PERCENT / 100))
    else if batch > 0 && inflight >= INFLIGHT_HIGH_RANGE then batch - Max(1, batch * BATCH_INCREMENT_PERCENT / 100)
    else batch
  }

  /** More bytes are to be covered. */
  predicate Unfinished(pageId: nat) { pageId * BUF_SIZE < BYTES_TO_WRITE }

  /** The ids of a batch. */
  function Batch(pageId: nat, batch: nat): (r: seq<nat>)
    ensures |r| == batch
  {
    seq(batch, i requires 0 <= i < batch => Add32(pageId, i))
  }

  function WriterStep(s: State): State {
    var w := s.writer;
    var b := Adapt(w.batch, w.inflight);
    var pageId := Add32(w.pageId, b);
    var more := Unfinished(pageId);
    s.(writer := w.(batch := b, inflight := (w.inflight + b) % U8, pageId := pageId, running := more && w.running),
       ring := s.ring.(dueWrites := s.ring.dueWrites + Batch(w.pageId, b),
                       writerTimers := if more then s.ring.writerTimers else Less(s.ring.writerTimers)))
  }

  function Less(n: nat): nat { if n > 0 then n - 1 else 0 }

  /** The batch of the reader ends at the flush watermark. */
  function ReadBatch(s: State): nat {
    Min(Adapt(s.reader.batch, s.reader.inflight), (s.flusher.pageId - s.reader.pageId) % U64)
  }

  function ReaderStep(s: State): State {
    var r := s.reader;
    var b := ReadBatch(s);
    var pageId := Add32(r.pageId, b);
    var more := Unfinished(pageId);
    s.(reader := r.(batch := b, inflight := (r.inflight + b) % U8, pageId := pageId, running := more && r.running),
       ring := s.ring.(dueReads := s.ring.dueReads + multiset(Batch(r.pageId, b)),
                       readerTimers := if more then s.ring.readerTimers else Less(s.ring.readerTimers)))
  }

  function FlusherStep(s: State): State {
    var f := s.flusher;
    var sync := s.writer.writtenNoFlush != 0 && f.inflight == 0;
    var more := Unfinished(f.pageId);
    s.(flusher := f.(inflight := if sync then 1 else f.inflight, running := more && f.running),
       ring := s.ring.(fsyncs := if sync then s.ring.fsyncs + 1 else s.ring.fsyncs,
                       flusherTimers := if more then s.ring.flusherTimers else Less(s.ring.flusherTimers)))
  }

  function PageWritten(s: State): State
    requires s.ring.dueWrites != []
  {
    var w := s.writer;
    s.(checkOrder := Add32(s.checkOrder, 1),
       flusher := s.flusher.(writeList := s.flusher.writeList + [s.ring.dueWrites[0]]),
       writer := w.(writtenNoFlush := Add32(w.writtenNoFlush, 1), inflight := (w.inflight + U8 - 1) % U8),
       ring := s.ring.(dueWrites := s.ring.dueWrites[1..]))
  }

  function PageRead(s: State, id: nat): State {
    s.(reader := s.reader.(inflight := (s.reader.inflight + U8 - 1) % U8), ring := s.ring.(dueReads := s.ring.dueReads - multiset{id}))
  }

  function FileSynced(s: State): State {
    s.(flusher := s.flusher.(pageId := Add32(s.flusher.pageId, s.writer.writtenNoFlush), writeList := [], inflight := 0),
       writer := s.writer.(writtenNoFlush := 0),
       ring := s.ring.(fsyncs := Less(s.ring.fsyncs)))
  }

  /** Nothing is left to trace. */
  predicate Finished(s: State) { !s.writer.running && !s.flusher.running && !s.reader.running }

  /** All four jobs have stopped: the main loop is left. */
  predicate Stopped(s: State) { Finished(s) && !s.tracer.running }

  /** dump_tracing_items: one dump at a time, of all items there are. */
  function DumpItems(s: State): State {
    var t := s.tracer;
    var items := UsedCount(t.cbuf);
    if t.dump.inflight != 0 || items == 0 then s
    else s.(tracer := t.(dump := Dump(items, items * ITEM_SIZE % U32, 1)), ring := s.ring.(dumpWrites := s.ring.dumpWrites + 1))
  }

  /** The item that a tracer tick records. */
  function Recorded(s: State): State {
    var t := s.tracer;
    if FreeCount(t.cbuf) != 0 && !Finished(s)
    then s.(tracer := t.(cbuf := t.cbuf.(tail := Add32(t.cbuf.tail, 1)), traceDone := (t.traceDone + 1) % U64))
    else s
  }

  function TracerStep(s: State): State {
    var s1 := Recorded(s);
    var s2 := if FreeCount(s1.tracer.cbuf) <= TRACING_BUF_LEN / 2 then DumpItems(s1) else s1;
    if !Finished(s) || s2.tracer.dump.inflight != 0 then s2
    else DumpItems(s2.(ring := s2.ring.(tracerTimers := Less(s2.ring.tracerTimers))))
  }

  function TracingWritten(s: State): State {
    var t := s.tracer;
    s.(tracer := t.(cbuf := t.cbuf.(head := Add32(t.cbuf.head, t.dump.items))),
       ring := s.ring.(dumpWrites := Less(s.ring.dumpWrites), dumpSyncs := s.ring.dumpSyncs + 1))
  }

  function TracingSynced(s: State): State {
    var t := s.tracer;
    s.(tracer := t.(traceSynced := (t.traceSynced + t.dump.toWrite) % U64, dump := t.dump.(inflight := 0),
                    running := t.running && !Finished(s)),
       ring := s.ring.(dumpSyncs := Less(s.ring.dumpSyncs)))
  }

  /** The kernel can deliver it. */
  predicate Enabled(s: State, e: Event) {
    match e
    case WriterTick => s.ring.writerTimers > 0
    case ReaderTick => s.ring.readerTimers > 0
    case FlusherTick => s.ring.flusherTimers > 0
    case TracerTick => s.ring.tracerTimers > 0
    case WriteDone => s.ring.dueWrites != []
    case ReadDone(id) => id in s.ring.dueReads
    case FsyncDone => s.ring.fsyncs > 0
    case DumpWritten => s.ring.dumpWrites > 0
    case DumpSynced => s.ring.dumpSyncs > 0
    case Idle => true
  }

  function Step(s: State, e: Event): State
    requires Enabled(s, e)
  {
    match e
    case WriterTick => WriterStep(s)
    case ReaderTick => ReaderStep(s)
    case FlusherTick => FlusherStep(s)
    case TracerTick => TracerStep(s)
    case WriteDone => PageWritten(s)
    case ReadDone(id) => PageRead(s, id)
    case FsyncDone => FileSynced(s)
    case DumpWritten => TracingWritten(s)
    case DumpSynced => TracingSynced(s)
    case Idle => s
  }

  /** The background_..._init functions, and all jobs run. */
  function Init(): State {
    State(Writer(0, 0, 0, 0, true), Reader(0, 0, 0, true), Flusher(0, 0, [], true),
          Tracer(Cbuf(0, 0), 0, 0, Dump(0, 0, 0), true), 0, Ring(1, 1, 1, 1, [], multiset{}, 0, 0, 0))
  }

  // ----- Runs -----

  /** Every event is one the kernel can deliver when it happens. */
  predicate Possible(es: seq<Event>)
    decreases |es|, 0
  {
    es == [] || (Possible(es[..|es| - 1]) && Enabled(After(es[..|es| - 1]), es[|es| - 1]))
  }

  function After(es: seq<Event>): State
    requires Possible(es)
    decreases |es|, 1
  {
    if es == [] then Init() else Step(After(es[..|es| - 1]), es[|es| - 1])
  }

  // ----- What holds in every reachable state -----

  function Bit(b: bool): nat { if b then 1 else 0 }

  /** Pages move from issued to completed to flushed to read, in order. */
  ghost predicate Flow(s: State) {
    && s.reader.pageId <= s.flusher.pageId <= s.checkOrder <= s.writer.pageId <= PAGE_BOUND
    && s.ring.dueWrites == Ids(s.checkOrder, s.writer.pageId)
    && s.flusher.writeList == Ids(s.flusher.pageId, s.checkOrder)
    && s.writer.writtenNoFlush == s.checkOrder - s.flusher.pageId
    && s.writer.inflight == |s.ring.dueWrites| % U8
    && s.reader.inflight == |s.ring.dueReads| % U8
    && s.writer.batch <= MAX_BATCH && s.reader.batch <= MAX_BATCH
  }

  /** One timeout per running job, one fsync per set flag, and jobs stop where they should. */
  ghost predicate Timers(s: State) {
    && s.ring.writerTimers == Bit(s.writer.running) && s.ring.readerTimers == Bit(s.reader.running)
    && s.ring.flusherTimers == Bit(s.flusher.running) && s.ring.tracerTimers <= 1
    && s.ring.fsyncs == s.flusher.inflight <= 1 && (s.ring.fsyncs == 1 ==> s.writer.writtenNoFlush > 0)
    && (s.writer.running <==> s.writer.pageId < TARGET) && (s.reader.running <==> s.reader.pageId < TARGET)
    && (!s.flusher.running ==> s.flusher.pageId >= TARGET)
  }

  /** The trace buffer never overruns, one dump is under way at most, and what is on disk is what was released. */
  ghost predicate Tracing(s: State) {
    var t := s.tracer;
    && t.cbuf.head < U32 && t.cbuf.tail < U32 && t.traceDone < U64 && t.traceSynced < U64
    && UsedCount(t.cbuf) <= TRACING_BUF_LEN
    && t.traceDone % U32 == t.cbuf.tail
    && s.ring.dumpWrites + s.ring.dumpSyncs == t.dump.inflight <= 1
    && (t.dump.inflight == 1 ==> 0 < t.dump.items <= TRACING_BUF_LEN && t.dump.toWrite == t.dump.items * ITEM_SIZE)
    && (s.ring.dumpWrites == 1 ==> t.dump.items <= UsedCount(t.cbuf))
    && (t.traceSynced + (if s.ring.dumpSyncs == 1 then t.dump.toWrite else 0)) % U64
         == (t.traceDone - UsedCount(t.cbuf)) * ITEM_SIZE % U64
  }

  ghost predicate Inv(s: State) { Flow(s) && Timers(s) && Tracing(s) }

  lemma InitInv()
    ensures Inv(Init())
  {
    hide Tracing, Ids;
    assert Ids(0, 0) == [];
    InitTracing();
  }

  lemma InitTracing()
    ensures Tracing(Init())
  {
    assert UsedCount(Init().tracer.cbuf) == 0;
  }

  // ----- Counting -----

  lemma AdaptBounds(batch: nat, inflight: nat)
    requires batch <= MAX_BATCH
    ensures Adapt(batch, inflight) <= MAX_BATCH
    ensures inflight == 0 ==> Adapt(batch, inflight) > 0
  {}

  /** How the batch size follows the in-flight counter, in numbers: below 8192 it doubles with nothing in flight
      and grows by one in a hundred, at least by one, with up to eight; with 32 or more it falls by as much; in
      between, and from 8192 on with fewer than 32, it stays. */
  lemma AdaptExact(batch: nat, inflight: nat)
    requires batch <= 16382
    ensures var share := if batch < 200 then 1 else batch / 100;
            && (inflight == 0 && batch == 0 ==> Adapt(batch, inflight) == 1)
            && (inflight == 0 && 0 < batch < 8192 ==> Adapt(batch, inflight) == 2 * batch)
            && (1 <= inflight <= 8 && batch < 8192 ==> Adapt(batch, inflight) == batch + share)
            && (inflight <= 8 && batch >= 8192 ==> Adapt(batch, inflight) == batch)
            && (8 < inflight < 32 ==> Adapt(batch, inflight) == batch)
            && (inflight >= 32 && batch > 0 ==> Adapt(batch, inflight) == batch - share)
            && (inflight >= 32 && batch == 0 ==> Adapt(batch, inflight) == 0)
  {
    hide Max;
    ShareOf(batch);
  }

  lemma ShareOf(batch: nat)
    ensures Max(1, batch * BATCH_INCREMENT_PERCENT / 100) == if batch < 200 then 1 else batch / 100
  {}

  /** The batch size after n ticks that find the same in-flight counter. */
  function Adapted(batch: nat, inflight: nat, n: nat): nat {
    if n == 0 then batch else Adapt(Adapted(batch, inflight, n - 1), inflight)
  }

  function PowerOfTwo(n: nat): nat { if n == 0 then 1 else 2 * PowerOfTwo(n - 1) }

  /** A job that always finds nothing in flight doubles its batch from 1 to half the ring, and stays there. */
  lemma {:induction false} RampUp(n: nat)
    ensures Adapted(0, 0, n) == if n == 0 then 0 else if n <= 14 then PowerOfTwo(n - 1) else ENTRIES / 2
  {
    hide PowerOfTwo, Adapt;
    if n > 0 {
      RampUp(n - 1);
      PowersGrow(0, 0);
      if 1 < n <= 14 {
        PowersGrow(0, n - 2);
        PowersGrow(n - 2, 12);
        PowerDoubles(n - 2);
      }
      IdleStep(Adapted(0, 0, n - 1));
    }
  }

  lemma IdleStep(batch: nat)
    requires batch <= ENTRIES / 2
    ensures Adapt(batch, 0) == if batch == 0 then 1 else if batch < ENTRIES / 2 then 2 * batch else batch
  {}

  lemma PowerDoubles(n: nat)
    ensures PowerOfTwo(n + 1) == 2 * PowerOfTwo(n)
  {}

  lemma {:induction false} PowersGrow(a: nat, b: nat)
    requires a <= b <= 13
    ensures PowerOfTwo(a) <= PowerOfTwo(b)
    ensures PowerOfTwo(0) == 1 && PowerOfTwo(12) == 4096 && PowerOfTwo(13) == 8192
    decreases b - a
  {
    if a < b { PowersGrow(a, b - 1); }
    assert PowerOfTwo(3) == 8 && PowerOfTwo(6) == 8 * PowerOfTwo(3) && PowerOfTwo(9) == 8 * PowerOfTwo(6);
    assert PowerOfTwo(12) == 8 * PowerOfTwo(9);
  }

  /** With few pages in flight the batch creeps up to half the ring and no further than one step beyond. */
  lemma {:induction false} CreepUp(batch: nat, inflight: nat, n: nat)
    requires 1 <= inflight <= INFLIGHT_LOW_RANGE && batch < ENTRIES / 2
    ensures Min(batch + n, ENTRIES / 2) <= Adapted(batch, inflight, n) <= 8272
  {
    hide Adapt;
    if n > 0 {
      CreepUp(batch, inflight, n - 1);
      CreepStep(Adapted(batch, inflight, n - 1), inflight);
    }
  }

  lemma CreepStep(batch: nat, inflight: nat)
    requires 1 <= inflight <= INFLIGHT_LOW_RANGE && batch <= 8272
    ensures if batch < ENTRIES / 2 then batch < Adapt(batch, inflight) <= 8272 else Adapt(batch, inflight) == batch
  {}

  /** With many pages in flight the batch falls to nothing, by one in a hundred at most while it is large. */
  lemma {:induction false} BackOff(batch: nat, inflight: nat, n: nat)
    requires inflight >= INFLIGHT_HIGH_RANGE
    ensures n <= batch ==> Adapted(batch, inflight, n) <= batch - n
    ensures n >= batch ==> Adapted(batch, inflight, n) == 0
    ensures batch >= 100 ==> 99 * batch <= 100 * Adapted(batch, inflight, 1) < 100 * batch
  {
    if n > 0 { BackOff(batch, inflight, n - 1); }
    assert Adapted(batch, inflight, 1) == Adapt(batch, inflight);
  }

  lemma BatchIds(pageId: nat, b: nat)
    requires pageId + b < U32
    ensures Batch(pageId, b) == Ids(pageId, pageId + b)
  {}

  lemma IdsJoin(a: nat, b: nat, c: nat)
    requires a <= b <= c
    ensures Ids(a, b) + Ids(b, c) == Ids(a, c)
  {}

  lemma UnfinishedMeaning(pageId: nat)
    ensures Unfinished(pageId) <==> pageId < TARGET
  {}

  /** Sending more raises the 8-bit counter as it raises what is owed, modulo 256. */
  lemma MoreInFlight(inflight: nat, due: nat, b: nat)
    requires inflight == due % U8
    ensures (inflight + b) % U8 == (due + b) % U8
  {}

  lemma LessInFlight(inflight: nat, due: nat)
    requires inflight == due % U8 && due > 0
    ensures (inflight + U8 - 1) % U8 == (due - 1) % U8
  {
    var q := due / U8;
    if inflight == 0 {
      Remainder(due - 1, q - 1, U8 - 1);
    } else {
      Remainder(due - 1, q, inflight - 1);
      Remainder(inflight + U8 - 1, 1, inflight - 1);
    }
  }

  lemma Remainder(a: nat, q: nat, r: nat)
    requires r < U8 && a == q * U8 + r
    ensures a % U8 == r
  {}

  /** What a writer tick changes: it sends out the next ids and moves on by as many. */
  lemma WriterSends(s: State)
    requires Inv(s)
    ensures var s', b := WriterStep(s), Adapt(s.writer.batch, s.writer.inflight);
            && s' == s.(writer := s'.writer, ring := s.ring.(dueWrites := s'.ring.dueWrites, writerTimers := s'.ring.writerTimers))
            && s'.writer.writtenNoFlush == s.writer.writtenNoFlush
            && s'.writer.batch == b <= MAX_BATCH && s'.writer.pageId == s.writer.pageId + b
            && s'.ring.dueWrites == s.ring.dueWrites + Ids(s.writer.pageId, s.writer.pageId + b)
            && s'.writer.inflight == |s'.ring.dueWrites| % U8
  {
    hide Tracing, Adapt, Unfinished, Batch, Ids;
    AdaptBounds(s.writer.batch, s.writer.inflight);
    var b := Adapt(s.writer.batch, s.writer.inflight);
    BatchIds(s.writer.pageId, b);
    MoreInFlight(s.writer.inflight, |s.ring.dueWrites|, b);
  }

  lemma WriterKeeps(s: State)
    requires Inv(s) && Enabled(s, WriterTick)
    ensures Inv(WriterStep(s))
  {
    hide Tracing, Adapt, Unfinished, Batch, Ids;
    var b := Adapt(s.writer.batch, s.writer.inflight);
    WriterSends(s);
    UnfinishedMeaning(s.writer.pageId + b);
    IdsJoin(s.checkOrder, s.writer.pageId, s.writer.pageId + b);
    TracingOnly(s, WriterStep(s));
  }

  lemma TracingOnly(s: State, s': State)
    requires Tracing(s) && s'.tracer == s.tracer && s'.ring.dumpWrites == s.ring.dumpWrites && s'.ring.dumpSyncs == s.ring.dumpSyncs
    ensures Tracing(s')
  {}

  lemma ReadBatchMeaning(s: State)
    requires s.reader.pageId <= s.flusher.pageId <= PAGE_BOUND
    ensures ReadBatch(s) == Min(Adapt(s.reader.batch, s.reader.inflight), s.flusher.pageId - s.reader.pageId)
  {
    hide Adapt;
  }

  /** What a reader tick changes. The batch it keeps is the number of reads it issues: what the adapted batch
      leaves of the pages that are flushed and not yet read. */
  lemma ReaderSends(s: State)
    requires Inv(s)
    ensures var s', b := ReaderStep(s), s.flusher.pageId - s.reader.pageId;
            && s'.reader.batch == (if Adapt(s.reader.batch, s.reader.inflight) < b then Adapt(s.reader.batch, s.reader.inflight) else b)
            && s' == s.(reader := s'.reader, ring := s.ring.(dueReads := s'.ring.dueReads, readerTimers := s'.ring.readerTimers))
            && s'.reader.pageId == s.reader.pageId + s'.reader.batch
            && |s'.ring.dueReads| == |s.ring.dueReads| + s'.reader.batch
            && (forall id :: s'.ring.dueReads[id]
                  == s.ring.dueReads[id] + if s.reader.pageId <= id < s.reader.pageId + s'.reader.batch then 1 else 0)
            && s'.reader.inflight == (s.reader.inflight + s'.reader.batch) % 256
            && (s'.reader.running <==> s.reader.running && s'.reader.pageId < 32768)
  {
    hide Adapt, Unfinished, Batch, Ids, Tracing, ReadBatch;
    AdaptBounds(s.reader.batch, s.reader.inflight);
    ReadBatchMeaning(s);
    var b := ReadBatch(s);
    BatchIds(s.reader.pageId, b);
    UnfinishedMeaning(s.reader.pageId + b);
    IdsOnce(s.reader.pageId, s.reader.pageId + b);
  }

  lemma IdsOnce(lo: nat, hi: nat)
    requires lo <= hi
    ensures var m := multiset(Ids(lo, hi)); forall id: nat :: m[id] == if lo <= id < hi then 1 else 0
  {
    hide Ids;
    var m := multiset(Ids(lo, hi));
    forall id: nat ensures m[id] == if lo <= id < hi then 1 else 0 { IdOnce(id, lo, hi); }
  }

  lemma {:induction false} IdOnce(id: nat, lo: nat, hi: nat)
    requires lo <= hi
    ensures multiset(Ids(lo, hi))[id] == if lo <= id < hi then 1 else 0
    decreases hi - lo
  {
    if lo < hi {
      IdOnce(id, lo, hi - 1);
      assert Ids(lo, hi) == Ids(lo, hi - 1) + [hi - 1];
    }
  }

  lemma ReaderKeeps(s: State)
    requires Inv(s) && Enabled(s, ReaderTick)
    ensures Inv(ReaderStep(s))
  {
    hide Tracing, Adapt, Unfinished, Batch, Ids, ReadBatch;
    AdaptBounds(s.reader.batch, s.reader.inflight);
    ReadBatchMeaning(s);
    var b := ReadBatch(s);
    UnfinishedMeaning(s.reader.pageId + b);
    MoreInFlight(s.reader.inflight, |s.ring.dueReads|, b);
    TracingOnly(s, ReaderStep(s));
  }

  /** What a flusher tick does: an fsync exactly when something is to be flushed and none is under way, and one
      more tick exactly when fewer than 32768 pages are flushed. */
  lemma FlusherTicks(s: State)
    requires Inv(s) && Enabled(s, FlusherTick)
    ensures var s', due := FlusherStep(s), s.writer.writtenNoFlush > 0 && s.ring.fsyncs == 0;
            && s' == s.(flusher := s'.flusher, ring := s.ring.(fsyncs := s'.ring.fsyncs, flusherTimers := s'.ring.flusherTimers))
            && s'.flusher == s.flusher.(inflight := s'.flusher.inflight, running := s'.flusher.running)
            && s'.ring.fsyncs == s'.flusher.inflight == (if due then 1 else s.ring.fsyncs)
            && (s'.flusher.running <==> s.flusher.pageId < 32768) && s'.ring.flusherTimers == if s.flusher.pageId < 32768 then 1 else 0
  {
    hide Ids, Tracing, Unfinished;
    UnfinishedMeaning(s.flusher.pageId);
  }

  lemma FlusherKeeps(s: State)
    requires Inv(s) && Enabled(s, FlusherTick)
    ensures Inv(FlusherStep(s))
  {
    hide Tracing;
    TracingOnly(s, FlusherStep(s));
  }

  lemma IdsSplit(a: nat, b: nat)
    requires a < b
    ensures Ids(a, a + 1) == [a] && Ids(a, b)[0] == a && Ids(a, b)[1..] == Ids(a + 1, b)
  {}

  /** The completion the code expects next is the one that arrives. */
  lemma WrittenKeeps(s: State)
    requires Inv(s) && Enabled(s, WriteDone)
    ensures s.ring.dueWrites[0] == s.checkOrder && Inv(PageWritten(s))
  {
    hide Tracing, Ids;
    IdsSplit(s.checkOrder, s.writer.pageId);
    IdsJoin(s.flusher.pageId, s.checkOrder, s.checkOrder + 1);
    LessInFlight(s.writer.inflight, |s.ring.dueWrites|);
    TracingOnly(s, PageWritten(s));
  }

  lemma ReadKeeps(s: State, id: nat)
    requires Inv(s) && Enabled(s, ReadDone(id))
    ensures Inv(PageRead(s, id))
  {
    hide Tracing, Ids;
    LessInFlight(s.reader.inflight, |s.ring.dueReads|);
    TracingOnly(s, PageRead(s, id));
  }

  lemma SyncedKeeps(s: State)
    requires Inv(s) && Enabled(s, FsyncDone)
    ensures Inv(FileSynced(s))
  {
    hide Tracing;
    TracingOnly(s, FileSynced(s));
  }

  /** The counters wrap, their difference does not. */
  lemma UsedMeaning(c: Cbuf)
    requires c.head < U32 && c.tail < U32
    ensures UsedCount(c) == (if c.head <= c.tail then 0 else U32) + c.tail - c.head
    ensures UsedCount(c) <= TRACING_BUF_LEN ==> FreeCount(c) == TRACING_BUF_LEN - UsedCount(c)
  {}

  lemma UsedGrows(c: Cbuf)
    requires c.head < U32 && c.tail < U32 && UsedCount(c) < TRACING_BUF_LEN
    ensures UsedCount(c.(tail := Add32(c.tail, 1))) == UsedCount(c) + 1
  {
    hide UsedCount;
    UsedMeaning(c);
    UsedMeaning(c.(tail := Add32(c.tail, 1)));
  }

  lemma UsedShrinks(c: Cbuf, n: nat)
    requires c.head < U32 && c.tail < U32 && n <= UsedCount(c) <= TRACING_BUF_LEN
    ensures UsedCount(c.(head := Add32(c.head, n))) == UsedCount(c) - n
  {
    hide UsedCount;
    UsedMeaning(c);
    UsedMeaning(c.(head := Add32(c.head, n)));
  }

  lemma TurnDropped(a: int, k: int)
    ensures (a + k * U64) % U64 == a % U64
  {}

  /** 64-bit counts differ by as much after one more item on both sides. */
  lemma OneMore(done: nat, used: nat)
    requires done < U64
    ensures ((done + 1) % U64 - (used + 1)) * ITEM_SIZE % U64 == (done - used) * ITEM_SIZE % U64
    ensures (done + 1) % U64 % U32 == (done % U32 + 1) % U32
  {
    if done + 1 == U64 { TurnDropped((-1 - used) * ITEM_SIZE, ITEM_SIZE); }
  }

  lemma RecordedKeeps(s: State)
    requires Tracing(s)
    ensures Tracing(Recorded(s))
  {
    hide UsedCount, FreeCount;
    var t := s.tracer;
    UsedMeaning(t.cbuf);
    if FreeCount(t.cbuf) != 0 && !Finished(s) {
      UsedGrows(t.cbuf);
      OneMore(t.traceDone, UsedCount(t.cbuf));
    }
  }

  lemma DumpKeeps(s: State)
    requires Tracing(s)
    ensures Tracing(DumpItems(s))
  {
    hide FreeCount;
  }

  /** Some of the jobs that are traced is still running. */
  predicate Traced(s: State) { s.writer.running || s.flusher.running || s.reader.running }

  /** A tick records an item exactly when the buffer has room and a job is running. */
  predicate Records(s: State) { UsedCount(s.tracer.cbuf) < 64 && Traced(s) }

  lemma TickRecords(s: State)
    requires Tracing(s)
    ensures var s', more := TracerStep(s), if Records(s) then 1 else 0;
            && s'.tracer.traceDone == (s.tracer.traceDone + more) % 0x1_0000_0000_0000_0000
            && UsedCount(s'.tracer.cbuf) == UsedCount(s.tracer.cbuf) + more
            && s'.tracer.cbuf.head == s.tracer.cbuf.head && s'.tracer.traceSynced == s.tracer.traceSynced
            && s'.tracer.running == s.tracer.running
  {
    hide UsedCount, FreeCount;
    UsedMeaning(s.tracer.cbuf);
    if Records(s) { UsedGrows(s.tracer.cbuf); }
  }

  /** A tick that finds no dump under way starts one of all used items exactly when at least half of the buffer is
      used, or no job runs and there are items. It waits for another tick unless no job runs and no dump was due. */
  lemma TickDumps(s: State)
    requires Tracing(s)
    ensures var s' := TracerStep(s);
            var used, was := UsedCount(s'.tracer.cbuf), s.tracer.dump.inflight == 1;
            var starts := !was && (used >= 32 || (!Traced(s) && used > 0));
            && s'.tracer.dump == (if starts then Dump(used, 40 * used, 1) else s.tracer.dump)
            && s'.ring.dumpWrites == s.ring.dumpWrites + (if starts then 1 else 0) && s'.ring.dumpSyncs == s.ring.dumpSyncs
            && (s.ring.tracerTimers > 0 ==>
                  s'.ring.tracerTimers == s.ring.tracerTimers - if Traced(s) || was || used >= 32 then 0 else 1)
  {
    hide UsedCount, FreeCount;
    TickRecords(s);
    RecordedKeeps(s);
    UsedMeaning(Recorded(s).tracer.cbuf);
    RecordedOnly(s);
  }

  lemma RecordedOnly(s: State)
    ensures var s' := Recorded(s);
            && s' == s.(tracer := s'.tracer) && s'.tracer.dump == s.tracer.dump
            && TracerStep(s).tracer.cbuf == s'.tracer.cbuf && (Finished(s) <==> !Traced(s))
  {
    hide UsedCount, FreeCount;
  }

  lemma TracerKeeps(s: State)
    requires Inv(s) && Enabled(s, TracerTick)
    ensures Inv(TracerStep(s))
  {
    hide Tracing;
    var s1 := Recorded(s);
    RecordedKeeps(s);
    DumpKeeps(s1);
    var s2 := if FreeCount(s1.tracer.cbuf) <= TRACING_BUF_LEN / 2 then DumpItems(s1) else s1;
    var s3 := s2.(ring := s2.ring.(tracerTimers := Less(s2.ring.tracerTimers)));
    TracingOnly(s2, s3);
    DumpKeeps(s3);
  }

  lemma DumpWrittenKeeps(s: State)
    requires Inv(s) && Enabled(s, DumpWritten)
    ensures Inv(TracingWritten(s))
  {
    hide Tracing;
    ReleaseKeeps(s);
  }

  /** A synced dump frees the way for the next one, and stops the tracer exactly when no other job is running. */
  lemma DumpSyncedEnds(s: State)
    requires Tracing(s) && s.ring.dumpSyncs > 0
    ensures var s' := TracingSynced(s);
            && s' == s.(tracer := s'.tracer, ring := s.ring.(dumpSyncs := 0))
            && s'.tracer == s.tracer.(traceSynced := s'.tracer.traceSynced, dump := s.tracer.dump.(inflight := 0), running := s'.tracer.running)
            && s'.tracer.traceSynced == (s.tracer.traceSynced + 40 * s.tracer.dump.items) % 0x1_0000_0000_0000_0000
            && (s'.tracer.running <==> s.tracer.running && Traced(s))
  {
    hide UsedCount;
  }

  lemma DumpSyncedKeeps(s: State)
    requires Inv(s) && Enabled(s, DumpSynced)
    ensures Inv(TracingSynced(s))
  {
    hide Tracing;
    SyncKeeps(s);
  }

  lemma ReleaseKeeps(s: State)
    requires Tracing(s) && s.ring.dumpWrites > 0
    ensures Tracing(TracingWritten(s))
  {
    hide UsedCount, FreeCount;
    UsedShrinks(s.tracer.cbuf, s.tracer.dump.items);
    ShiftBoth(s.tracer.traceSynced, s.tracer.traceDone - UsedCount(s.tracer.cbuf), s.tracer.dump.items);
  }

  lemma ShiftBoth(synced: nat, released: int, items: nat)
    requires synced % U64 == released * ITEM_SIZE % U64
    ensures (synced + items * ITEM_SIZE) % U64 == (released + items) * ITEM_SIZE % U64
  {
    var q := synced / U64 - released * ITEM_SIZE / U64;
    assert synced == released * ITEM_SIZE + q * U64;
    TurnDropped((released + items) * ITEM_SIZE, q);
  }

  lemma SyncKeeps(s: State)
    requires Tracing(s) && s.ring.dumpSyncs > 0
    ensures Tracing(TracingSynced(s))
  {
    hide UsedCount, FreeCount;
  }

  /** Every step keeps the invariant. */
  lemma StepKeeps(s: State, e: Event)
    requires Inv(s) && Enabled(s, e)
    ensures Inv(Step(s, e))
  {
    hide Flow, Timers, Tracing;
    match e {
      case WriterTick => WriterKeeps(s);
      case ReaderTick => ReaderKeeps(s);
      case FlusherTick => FlusherKeeps(s);
      case TracerTick => TracerKeeps(s);
      case WriteDone => WrittenKeeps(s);
      case ReadDone(id) => ReadKeeps(s, id);
      case FsyncDone => SyncedKeeps(s);
      case DumpWritten => DumpWrittenKeeps(s);
      case DumpSynced => DumpSyncedKeeps(s);
      case Idle =>
    }
  }

  /** The invariant holds after every run. */
  lemma {:induction false} RunKeeps(es: seq<Event>)
    requires Possible(es)
    ensures Inv(After(es))
    decreases |es|
  {
    hide Inv;
    if es == [] {
      InitInv();
    } else {
      RunKeeps(es[..|es| - 1]);
      StepKeeps(After(es[..|es| - 1]), es[|es| - 1]);
    }
  }
}
