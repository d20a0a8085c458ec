/** The pipeline comes to an end: no fair run goes on for ever without stopping writer, flusher and reader. */
module Liveness {
  import opened Pipeline
  import opened PipelineLog

  /** What is left to do. Issuing a page is paid for by completing it. */
  function Potential(s: State): int {
    2 * (PAGE_BOUND - s.writer.pageId) + |s.ring.dueWrites| + 2 * (PAGE_BOUND - s.reader.pageId) + |s.ring.dueReads|
    + 2 * (PAGE_BOUND - s.flusher.pageId) + (1 - s.ring.fsyncs)
    + Bit(s.writer.running) + Bit(s.reader.running) + Bit(s.flusher.running)
  }

  /** The part of the state that decides what helps next. */
  predicate SameWork(s: State, s': State) {
    && s'.writer.pageId == s.writer.pageId && s'.writer.running == s.writer.running
    && s'.writer.writtenNoFlush == s.writer.writtenNoFlush
    && s'.reader.pageId == s.reader.pageId && s'.reader.running == s.reader.running
    && s'.flusher.pageId == s.flusher.pageId && s'.flusher.running == s.flusher.running
    && s'.ring.dueWrites == s.ring.dueWrites && s'.ring.dueReads == s.ring.dueReads && s'.ring.fsyncs == s.ring.fsyncs
  }

  ghost function OneOf(ids: multiset<nat>): (id: nat)
    requires ids != multiset{}
    ensures id in ids
  {
    var id :| id in ids; id
  }

  /** An event that makes progress as long as one of the three jobs runs. */
  ghost function Helpful(s: State): Event {
    if s.ring.dueWrites != [] then WriteDone
    else if s.ring.dueReads != multiset{} then ReadDone(OneOf(s.ring.dueReads))
    else if s.writer.running then WriterTick
    else if s.ring.fsyncs > 0 then FsyncDone
    else if s.flusher.running then FlusherTick
    else ReaderTick
  }

  lemma WriterMoves(s: State)
    requires Inv(s) && Enabled(s, WriterTick)
    ensures var s' := WriterStep(s);
            && Potential(s') <= Potential(s) && (Potential(s') == Potential(s) ==> SameWork(s, s'))
            && (s.ring.dueWrites == [] ==> Potential(s') < Potential(s))
  {
    hide Adapt, Unfinished, Batch, Ids, Tracing;
    WriterKeeps(s);
    AdaptBounds(s.writer.batch, s.writer.inflight);
    UnfinishedMeaning(WriterStep(s).writer.pageId);
    var b := Adapt(s.writer.batch, s.writer.inflight);
    if b == 0 { assert s.ring.dueWrites + Batch(s.writer.pageId, b) == s.ring.dueWrites; }
  }

  lemma NoNewReads(before: multiset<nat>, after: multiset<nat>, lo: nat, hi: nat)
    requires forall id :: after[id] == before[id] + if lo <= id < hi then 1 else 0
    ensures lo == hi ==> after == before
  {}

  lemma ReaderMoves(s: State)
    requires Inv(s) && Enabled(s, ReaderTick)
    ensures var s' := ReaderStep(s);
            && Potential(s') <= Potential(s) && (Potential(s') == Potential(s) ==> SameWork(s, s'))
            && (s.ring.dueReads == multiset{} && s.reader.pageId < s.flusher.pageId ==> Potential(s') < Potential(s))
  {
    hide Adapt, Unfinished, Ids, Tracing, ReaderStep;
    ReaderSends(s);
    AdaptBounds(s.reader.batch, s.reader.inflight);
    NoNewReads(s.ring.dueReads, ReaderStep(s).ring.dueReads, s.reader.pageId, s.reader.pageId + ReaderStep(s).reader.batch);
  }

  lemma FlusherMoves(s: State)
    requires Inv(s) && Enabled(s, FlusherTick)
    ensures var s' := FlusherStep(s);
            && Potential(s') <= Potential(s) && (Potential(s') == Potential(s) ==> SameWork(s, s'))
            && (s.ring.fsyncs == 0 && (s.writer.writtenNoFlush > 0 || s.flusher.pageId >= TARGET) ==> Potential(s') < Potential(s))
  {
    hide Unfinished, Ids, Tracing;
    UnfinishedMeaning(s.flusher.pageId);
  }

  lemma CompletionsMove(s: State, e: Event)
    requires Inv(s) && Enabled(s, e) && (e.WriteDone? || e.ReadDone? || e.FsyncDone?)
    ensures Potential(Step(s, e)) < Potential(s)
  {
    hide Ids, Tracing;
    if e.FsyncDone? { SyncedKeeps(s); }
  }

  lemma TracingMovesNothing(s: State, e: Event)
    requires Enabled(s, e) && (e.TracerTick? || e.DumpWritten? || e.DumpSynced? || e.Idle?)
    ensures SameWork(s, Step(s, e)) && Potential(Step(s, e)) == Potential(s)
  {}

  /** No step adds to what is left, and a step that takes nothing away leaves the work as it is. */
  lemma NeverMore(s: State, e: Event)
    requires Inv(s) && Enabled(s, e)
    ensures Potential(Step(s, e)) <= Potential(s)
    ensures Potential(Step(s, e)) == Potential(s) ==> SameWork(s, Step(s, e))
  {
    hide Inv, Potential, SameWork;
    match e {
      case WriterTick => WriterMoves(s);
      case ReaderTick => ReaderMoves(s);
      case FlusherTick => FlusherMoves(s);
      case WriteDone => CompletionsMove(s, e);
      case ReadDone(_) => CompletionsMove(s, e);
      case FsyncDone => CompletionsMove(s, e);
      case _ => TracingMovesNothing(s, e);
    }
  }

  lemma NeverNegative(s: State)
    requires Inv(s)
    ensures Potential(s) >= 0
  {}

  /** While a job runs, the helpful event is enabled and takes work away. */
  lemma Helps(s: State)
    requires Inv(s) && !Finished(s)
    ensures Enabled(s, Helpful(s)) && Potential(Step(s, Helpful(s))) < Potential(s)
  {
    hide Potential, Tracing, Adapt, Step;
    var e := Helpful(s);
    HelpfulKind(s);
    if e.WriterTick? {
      WriterMoves(s);
      StepIs(s, e);
    } else if e.FlusherTick? {
      FlusherMoves(s);
      StepIs(s, e);
    } else if e.ReaderTick? {
      ReaderMoves(s);
      StepIs(s, e);
    } else {
      CompletionsMove(s, e);
    }
  }

  lemma StepIs(s: State, e: Event)
    requires Enabled(s, e)
    ensures e.WriterTick? ==> Step(s, e) == WriterStep(s)
    ensures e.ReaderTick? ==> Step(s, e) == ReaderStep(s)
    ensures e.FlusherTick? ==> Step(s, e) == FlusherStep(s)
  {}

  lemma HelpfulKind(s: State)
    requires Inv(s) && !Finished(s)
    ensures var e := Helpful(s);
            && Enabled(s, e)
            && (e.WriterTick? ==> s.ring.dueWrites == [])
            && (e.FlusherTick? ==> s.ring.fsyncs == 0 && (s.writer.writtenNoFlush > 0 || s.flusher.pageId >= TARGET))
            && (e.ReaderTick? ==> s.ring.dueReads == multiset{} && s.reader.pageId < s.flusher.pageId)
            && (e.WriterTick? || e.FlusherTick? || e.ReaderTick? || e.WriteDone? || e.ReadDone? || e.FsyncDone?)
  {
    hide Tracing;
  }

  /** Whatever helps goes on helping while the work stays the same. */
  lemma HelpfulStays(s: State, s': State)
    requires SameWork(s, s')
    ensures Helpful(s') == Helpful(s) && Finished(s') == Finished(s)
  {}

  // ----- Fair runs -----

  /** An infinite run: every state follows from the one before by an event that was enabled. */
  ghost predicate IsRun(r: nat -> State, e: nat -> Event) {
    r(0) == Init() && forall i: nat :: Enabled(r(i), e(i)) && r(i + 1) == Step(r(i), e(i))
  }

  ghost predicate StaysEnabled(r: nat -> State, ev: Event, i: nat) { forall j: nat :: i <= j ==> Enabled(r(j), ev) }

  ghost predicate IsDelivered(e: nat -> Event, ev: Event, i: nat) { exists k: nat :: i <= k && e(k) == ev }

  /** An event that stays enabled is delivered some time. */
  ghost predicate Fair(r: nat -> State, e: nat -> Event) {
    forall i: nat, ev: Event :: StaysEnabled(r, ev, i) ==> IsDelivered(e, ev, i)
  }

  /** Writer, flusher and reader are stopped from then on. */
  ghost predicate StoppedFrom(r: nat -> State, n: nat) { forall m: nat :: n <= m ==> Finished(r(m)) }

  lemma {:induction false} RunInv(r: nat -> State, e: nat -> Event, i: nat)
    requires IsRun(r, e)
    ensures Inv(r(i))
    decreases i
  {
    hide Inv, Step, Enabled;
    if i == 0 {
      InitInv();
    } else {
      RunInv(r, e, i - 1);
      StepKeeps(r(i - 1), e(i - 1));
    }
  }

  lemma {:induction false} PotentialFalls(r: nat -> State, e: nat -> Event, i: nat, j: nat)
    requires IsRun(r, e) && i <= j
    ensures Potential(r(j)) <= Potential(r(i))
    ensures Potential(r(j)) == Potential(r(i)) ==> Helpful(r(j)) == Helpful(r(i)) && Finished(r(j)) == Finished(r(i))
    decreases j - i
  {
    hide Inv, Step, Enabled, Potential, Helpful, Finished, SameWork;
    if i < j {
      PotentialFalls(r, e, i, j - 1);
      RunInv(r, e, j - 1);
      NeverMore(r(j - 1), e(j - 1));
      if SameWork(r(j - 1), r(j)) { HelpfulStays(r(j - 1), r(j)); }
    }
  }

  /** In a fair run the work left sinks as long as a job runs. */
  lemma Sinks(r: nat -> State, e: nat -> Event, i: nat) returns (j: nat)
    requires IsRun(r, e) && Fair(r, e) && !Finished(r(i))
    ensures i < j && Potential(r(j)) < Potential(r(i))
  {
    hide Inv, Step, Enabled, Potential, Helpful, Finished, IsRun;
    var ev := Helpful(r(i));
    j := i + 1;
    if k: nat :| i <= k && Potential(r(k)) != Potential(r(i)) {
      PotentialFalls(r, e, i, k);
      j := k;
    } else {
      forall k: nat | i <= k ensures Enabled(r(k), ev) { HelpsAt(r, e, i, k); }
      assert StaysEnabled(r, ev, i);
      assert IsDelivered(e, ev, i);
      var k: nat :| i <= k && e(k) == ev;
      HelpsAt(r, e, i, k);
      RunStep(r, e, k);
      assert false;
    }
  }

  lemma RunStep(r: nat -> State, e: nat -> Event, k: nat)
    requires IsRun(r, e)
    ensures Enabled(r(k), e(k)) && r(k + 1) == Step(r(k), e(k))
  {
    hide Step, Enabled;
  }

  /** As long as the potential stands still, the same event goes on helping. */
  lemma HelpsAt(r: nat -> State, e: nat -> Event, i: nat, k: nat)
    requires IsRun(r, e) && i <= k && !Finished(r(i)) && Potential(r(k)) == Potential(r(i))
    ensures var ev := Helpful(r(i)); Enabled(r(k), ev) && Potential(Step(r(k), ev)) < Potential(r(i))
  {
    hide Inv, Step, Enabled, Potential, Helpful, Finished, IsRun;
    PotentialFalls(r, e, i, k);
    RunInv(r, e, k);
    Helps(r(k));
  }

  lemma {:induction false} StopsFrom(r: nat -> State, e: nat -> Event, i: nat) returns (n: nat)
    requires IsRun(r, e) && Fair(r, e)
    ensures i <= n && Finished(r(n))
    decreases Potential(r(i))
  {
    hide Inv, Step, Enabled, Potential, Helpful, Finished, IsRun, Fair;
    RunInv(r, e, i);
    NeverNegative(r(i));
    n := i;
    if !Finished(r(i)) {
      var j := Sinks(r, e, i);
      n := StopsFrom(r, e, j);
    }
  }

  lemma StoppedStays(s: State, e: Event)
    requires Enabled(s, e) && Finished(s)
    ensures Finished(Step(s, e))
  {}

  lemma {:induction false} StoppedForever(r: nat -> State, e: nat -> Event, n: nat, m: nat)
    requires IsRun(r, e) && Finished(r(n)) && n <= m
    ensures Finished(r(m))
    decreases m - n
  {
    hide Step, Enabled, Finished;
    if n < m {
      StoppedForever(r, e, n, m - 1);
      StoppedStays(r(m - 1), e(m - 1));
    }
  }

  /** Every fair run stops writer, flusher and reader, and they stay stopped. */
  lemma FairRunStops(r: nat -> State, e: nat -> Event)
    requires IsRun(r, e) && Fair(r, e)
    ensures exists n: nat :: StoppedFrom(r, n)
  {
    hide Step, Enabled, Finished, IsRun, Fair;
    var n := StopsFrom(r, e, 0);
    forall m: nat | n <= m ensures Finished(r(m)) { StoppedForever(r, e, n, m); }
    assert StoppedFrom(r, n);
  }

  // ----- One round -----

  /** A step if it is possible. */
  function Try(s: State, e: Event): State { if Enabled(s, e) then Step(s, e) else s }

  function Round(s: State): State { Try(Try(Try(Try(s, WriterTick), FlusherTick), FsyncDone), ReaderTick) }

  /** With nothing outstanding and the reader running, one round of writer, flusher, fsync and reader moves
      at least one of the three page ids forward. */
  lemma RoundMoves(s: State)
    requires Inv(s) && s.reader.running && s.ring.dueWrites == [] && s.ring.dueReads == multiset{} && s.ring.fsyncs == 0
    ensures var s' := Round(s);
            && s'.writer.pageId >= s.writer.pageId && s'.flusher.pageId >= s.flusher.pageId && s'.reader.pageId >= s.reader.pageId
            && s'.writer.pageId + s'.flusher.pageId + s'.reader.pageId > s.writer.pageId + s.flusher.pageId + s.reader.pageId
  {
    hide Tracing, Adapt, Unfinished, Batch, Ids, Step;
    var s1 := Try(s, WriterTick);
    TryWriter(s);
    var s2 := Try(s1, FlusherTick);
    TryFlusher(s1);
    var s3 := Try(s2, FsyncDone);
    TrySync(s2);
    TryReader(s3);
  }

  lemma TryWriter(s: State)
    requires Inv(s)
    ensures var s' := Try(s, WriterTick);
            && Inv(s') && s'.flusher == s.flusher && s'.reader == s.reader && s'.ring.dueReads == s.ring.dueReads
            && s'.ring.fsyncs == s.ring.fsyncs && s'.ring.flusherTimers == s.ring.flusherTimers && s'.checkOrder == s.checkOrder
            && s'.ring.readerTimers == s.ring.readerTimers
            && s'.writer.writtenNoFlush == s.writer.writtenNoFlush && s'.writer.pageId >= s.writer.pageId
            && (s.ring.dueWrites == [] && s.writer.running ==> s'.writer.pageId > s.writer.pageId)
            && (!s.writer.running ==> s' == s)
  {
    hide Tracing, Adapt, Unfinished, Batch, Ids;
    if Enabled(s, WriterTick) {
      WriterKeeps(s);
      AdaptBounds(s.writer.batch, s.writer.inflight);
    }
  }

  lemma TryFlusher(s: State)
    requires Inv(s)
    ensures var s' := Try(s, FlusherTick);
            && Inv(s') && s'.writer == s.writer && s'.reader == s.reader && s'.ring.dueReads == s.ring.dueReads
            && s'.flusher.pageId == s.flusher.pageId && s'.ring.readerTimers == s.ring.readerTimers
            && (s.flusher.running && s.writer.writtenNoFlush > 0 ==> s'.ring.fsyncs > 0)
  {
    hide Tracing, Unfinished, Ids;
    if Enabled(s, FlusherTick) { FlusherKeeps(s); }
  }

  lemma TrySync(s: State)
    requires Inv(s)
    ensures var s' := Try(s, FsyncDone);
            && Inv(s') && s'.writer.pageId == s.writer.pageId && s'.reader == s.reader && s'.ring.dueReads == s.ring.dueReads
            && s'.flusher.pageId >= s.flusher.pageId && s'.ring.readerTimers == s.ring.readerTimers
            && (s.ring.fsyncs > 0 ==> s'.flusher.pageId > s.flusher.pageId)
  {
    hide Tracing, Ids;
    if Enabled(s, FsyncDone) { SyncedKeeps(s); }
  }

  lemma TryReader(s: State)
    requires Inv(s)
    ensures var s' := Try(s, ReaderTick);
            && s'.writer == s.writer && s'.flusher == s.flusher && s'.reader.pageId >= s.reader.pageId
            && (s.reader.running && s.ring.dueReads == multiset{} && s.reader.pageId < s.flusher.pageId ==> s'.reader.pageId > s.reader.pageId)
  {
    hide Tracing, Adapt, Unfinished, Batch, Ids, ReadBatch;
    if Enabled(s, ReaderTick) {
      ReadBatchMeaning(s);
      AdaptBounds(s.reader.batch, s.reader.inflight);
    }
  }

  // ----- A run that ends, and one that does not -----

  /** Nothing has been traced yet, and the tracer waits for its first tick. */
  predicate Untraced(s: State) { s.tracer == Init().tracer && s.ring.tracerTimers == 1 }

  lemma Extended(es: seq<Event>, e: Event)
    requires Possible(es) && Enabled(After(es), e)
    ensures Possible(es + [e]) && After(es + [e]) == Step(After(es), e)
  {
    hide Enabled, Step;
    assert (es + [e])[..|es|] == es;
  }

  lemma HelpfulLeavesTracing(s: State)
    requires Inv(s) && !Finished(s) && Untraced(s)
    ensures Enabled(s, Helpful(s)) && Untraced(Step(s, Helpful(s)))
  {
    hide Inv, Adapt, Unfinished, Batch, ReadBatch, Helpful;
    HelpfulKind(s);
  }

  /** Every run that has traced nothing can go on without tracing until writer, flusher and reader have stopped. */
  lemma {:induction false} GoesOn(es: seq<Event>) returns (es': seq<Event>)
    requires Possible(es) && Untraced(After(es))
    ensures Possible(es') && Finished(After(es')) && Untraced(After(es'))
    decreases Potential(After(es))
  {
    hide Inv, Step, Enabled, Potential, Helpful, Finished, Untraced;
    RunKeeps(es);
    NeverNegative(After(es));
    es' := es;
    if !Finished(After(es)) {
      var e := Helpful(After(es));
      Helps(After(es));
      HelpfulLeavesTracing(After(es));
      Extended(es, e);
      NeverNegative(After(es));
      es' := GoesOn(es + [e]);
    }
  }

  /** There is a run after which writer, flusher and reader have stopped, and one tick of the tracer later the
      tracer is stuck: the main loop is never left. */
  lemma SomeRunGetsStuck() returns (es: seq<Event>, es': seq<Event>)
    ensures Possible(es) && Finished(After(es))
    ensures es' == es + [TracerTick] && Possible(es') && Stuck(After(es'))
  {
    hide Inv, Step, After;
    assert Untraced(Init());
    assert After([]) == Init() by { StartsWith(); }
    es := GoesOn([]);
    es' := es + [TracerTick];
    RunKeeps(es);
    Extended(es, TracerTick);
    FinalTick(After(es));
    TickIs(After(es));
  }

  lemma StartsWith()
    ensures After([]) == Init()
  {}

  lemma TickIs(s: State)
    requires Enabled(s, TracerTick)
    ensures Step(s, TracerTick) == TracerStep(s)
  {}
}
