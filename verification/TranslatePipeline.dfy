/**
 TranslatePipeline: an input channel, a feeder numbering its values, bounded workers
 that record the first failure and cancel, and a collector that restores the order.
 A failing worker tells the collector without blocking, so its message may be lost.
 */
module TranslatePipeline {
  import opened Common
  import opened TranslateJob

  // `inputs` is everything the caller sends before closing `in`.
  datatype Stream<!IN, !OUT> = Stream(inputs: seq<IN>, translate: IN -> Answer<OUT>)
  {
    function Ask(i: nat): Answer<OUT>
      requires i < |inputs|
    {
      translate(inputs[i])
    }

    predicate Fails(i: nat)
      requires i < |inputs|
    {
      Ask(i).err.Some? && Ask(i).err != Some(Continue)
    }
  }

  // Failing: the translation failed. Recorded: reterr is set. Cancelling: cancel() was
  // called and the error result is about to be offered.
  datatype Slot<+OUT> = Idle | Busy(idx: nat) | Holding(r: Record<OUT>)
                      | Failing(r: Record<OUT>) | Recorded(r: Record<OUT>) | Cancelling(r: Record<OUT>)
                      | Exited

  // Reading: waiting on `in`. Offering: holding the value it read, waiting on workChan.
  datatype Feeder = Reading | Offering | Closed

  // Returned: the collector loop has returned ret after dealing with the first upto inputs.
  datatype Collector<+OUT> = Receiving | Flushing | Sending(output: OUT) | Returned(ret: Option<Error>, upto: nat)

  datatype State<+OUT> = State(
    next: nat,  // the sequence number of the next value sent to workChan
    feeder: Feeder,
    work: seq<nat>,
    slots: seq<Slot<OUT>>,
    results: seq<Record<OUT>>,
    resultsClosed: bool,
    reterr: Option<Error>,
    cancelled: bool,
    pending: map<nat, Record<OUT>>,
    nextSeq: nat,
    collector: Collector<OUT>,
    out: seq<OUT>,
    calls: multiset<nat>)  // the calls of translate() so far

  datatype Action = Read | Offer | EndOfInput | GiveUp
                  | Take(w: nat) | Translate(w: nat) | Send(w: nat) | Quit(w: nat)
                  | Report(w: nat) | Cancel(w: nat) | Tell(w: nat)
                  | CloseResults | Receive | Flush | Emit | Abandon | Finish

  function Start<OUT>(workers: nat): State<OUT> {
    State(0, Reading, [], seq(workers, _ => Idle), [], false, None, false, map[], 0, Receiving, [], multiset{})
  }

  // workChan and resultChan both have room for twice the number of workers.
  function Capacity<OUT>(s: State<OUT>): nat {
    2 * |s.slots|
  }

  function RecordOf<IN, OUT>(job: Stream<IN, OUT>, i: nat): Record<OUT>
    requires i < |job.inputs|
  {
    var a := job.Ask(i);
    if a.err == Some(Continue) then Record(i, true, a.output, None) else Record(i, false, a.output, a.err)
  }

  predicate AllExited<OUT>(s: State<OUT>) {
    forall w | 0 <= w < |s.slots| :: s.slots[w].Exited?
  }

  predicate WorkerEnabled<IN, OUT>(job: Stream<IN, OUT>, s: State<OUT>, a: Action)
    requires a.Take? || a.Translate? || a.Send? || a.Quit? || a.Report? || a.Cancel? || a.Tell?
  {
    && a.w < |s.slots|
    && var slot := s.slots[a.w];
    match a
    case Take(_) => slot.Idle? && s.work != []
    case Translate(_) => slot.Busy? && slot.idx < |job.inputs|
    case Send(_) => slot.Holding? && |s.results| < Capacity(s)
    case Report(_) => slot.Failing? && slot.r.err.Some?
    case Cancel(_) => slot.Recorded?
    case Tell(_) => slot.Cancelling?
    case _ =>
      || (slot.Idle? && (s.cancelled || (s.work == [] && s.feeder.Closed?)))
      || (slot.Holding? && s.cancelled)
  }

  predicate Enabled<IN, OUT>(job: Stream<IN, OUT>, s: State<OUT>, a: Action) {
    match a
    case Read => s.feeder.Reading? && s.next < |job.inputs|
    case Offer => s.feeder.Offering? && |s.work| < Capacity(s)
    case EndOfInput => s.feeder.Reading? && s.next == |job.inputs|
    case GiveUp => !s.feeder.Closed? && s.cancelled
    case CloseResults => !s.resultsClosed && s.feeder.Closed? && AllExited(s)
    case Receive => s.collector.Receiving? && s.results != []
    case Flush => s.collector.Flushing?
    case Emit => s.collector.Sending?
    case Abandon => s.collector.Sending? && s.cancelled
    case Finish => s.collector.Receiving? && s.results == [] && s.resultsClosed
    case _ => WorkerEnabled(job, s, a)
  }

  function WorkerNext<IN, OUT>(job: Stream<IN, OUT>, s: State<OUT>, a: Action): State<OUT>
    requires a.Take? || a.Translate? || a.Send? || a.Quit? || a.Report? || a.Cancel? || a.Tell?
    requires WorkerEnabled(job, s, a)
  {
    var slot := s.slots[a.w];
    match a
    case Take(w) => s.(work := s.work[1..], slots := s.slots[w := Busy(s.work[0])])
    case Translate(w) =>
      var r := RecordOf(job, slot.idx);
      s.(slots := s.slots[w := if r.err.Some? then Failing(r) else Holding(r)],
         calls := s.calls + multiset{slot.idx})
    case Send(w) => s.(results := s.results + [slot.r], slots := s.slots[w := Idle])
    case Report(w) =>
      s.(reterr := if s.reterr.None? then slot.r.err else s.reterr, slots := s.slots[w := Recorded(slot.r)])
    case Cancel(w) => s.(cancelled := true, slots := s.slots[w := Cancelling(slot.r)])
    case Tell(w) =>
      s.(results := if |s.results| < Capacity(s) then s.results + [slot.r] else s.results,
         slots := s.slots[w := Exited])
    case Quit(w) => s.(slots := s.slots[w := Exited])
  }

  function Next<IN, OUT>(job: Stream<IN, OUT>, s: State<OUT>, a: Action): State<OUT>
    requires Enabled(job, s, a)
  {
    match a
    case Read => s.(feeder := Offering)
    case Offer => s.(work := s.work + [s.next], next := s.next + 1, feeder := Reading)
    case EndOfInput => s.(feeder := Closed)
    case GiveUp => s.(feeder := Closed)
    case CloseResults => s.(resultsClosed := true)
    case Receive =>
      var r, rest := s.results[0], s.results[1..];
      if r.err.Some? then s.(results := rest, collector := Returned(s.reterr, s.nextSeq))
      else s.(results := rest, pending := s.pending[r.idx := r], collector := Flushing)
    case Flush =>
      if s.nextSeq !in s.pending then s.(collector := Receiving)
      else
        var p := s.pending[s.nextSeq];
        s.(pending := s.pending - {s.nextSeq}, nextSeq := s.nextSeq + 1,
           collector := if p.cont then Flushing else Sending(p.output))
    case Emit => s.(out := s.out + [s.collector.output], collector := Flushing)
    case Abandon => s.(collector := Returned(s.reterr, if s.nextSeq > 0 then s.nextSeq - 1 else 0))
    case Finish => s.(collector := Returned(s.reterr, s.nextSeq))
    case _ => WorkerNext(job, s, a)
  }

  function Exec<IN, OUT>(job: Stream<IN, OUT>, s: State<OUT>, schedule: seq<Action>): Option<State<OUT>>
    decreases |schedule|
  {
    if schedule == [] then Some(s)
    else if !Enabled(job, s, schedule[0]) then None
    else Exec(job, Next(job, s, schedule[0]), schedule[1..])
  }

  // The call has returned to its caller: the deferred wg.Wait() has seen every goroutine end.
  predicate Complete<OUT>(s: State<OUT>) {
    s.collector.Returned? && s.feeder.Closed? && AllExited(s) && s.resultsClosed
  }

  // The outputs of the first k inputs, those answered with Continue left out.
  function Outputs<IN, OUT>(job: Stream<IN, OUT>, k: nat): seq<OUT>
    requires k <= |job.inputs|
  {
    if k == 0 then []
    else
      var a := job.Ask(k - 1);
      Outputs(job, k - 1) + if a.err == Some(Continue) then [] else [a.output]
  }

  // ----- where every value is -----

  function IndexIn<OUT>(slot: Slot<OUT>): Option<nat> {
    match slot
    case Idle => None
    case Exited => None
    case Busy(i) => Some(i)
    case _ => Some(slot.r.idx)
  }

  function InSlot<OUT>(slot: Slot<OUT>, all: bool, i: nat): nat {
    if (all || slot.Busy?) && IndexIn(slot) == Some(i) then 1 else 0
  }

  function InSlots<OUT>(slots: seq<Slot<OUT>>, all: bool, i: nat): nat {
    if slots == [] then 0 else InSlot(slots[0], all, i) + InSlots(slots[1..], all, i)
  }

  // How often value i is in a channel, a worker or the pending map.
  ghost function Flight<OUT>(s: State<OUT>, i: nat): nat {
    InJobs(s.work, i) + InSlots(s.slots, true, i) + InRecords(s.results, i) + if i in s.pending then 1 else 0
  }

  ghost function Untranslated<OUT>(s: State<OUT>, i: nat): nat {
    InJobs(s.work, i) + InSlots(s.slots, false, i)
  }

  lemma {:induction false} InSlotsUpdate<OUT>(slots: seq<Slot<OUT>>, all: bool, w: nat, x: Slot<OUT>, i: nat)
    requires w < |slots|
    ensures InSlots(slots[w := x], all, i) + InSlot(slots[w], all, i) == InSlots(slots, all, i) + InSlot(x, all, i)
  {
    var slots' := slots[w := x];
    if w == 0 {
      assert slots'[1..] == slots[1..];
    } else {
      assert slots'[1..] == slots[1..][w - 1 := x];
      InSlotsUpdate(slots[1..], all, w - 1, x, i);
    }
  }

  lemma {:induction false} InSlotsNone<OUT>(slots: seq<Slot<OUT>>, all: bool, i: nat)
    requires forall w | 0 <= w < |slots| :: InSlot(slots[w], all, i) == 0
    ensures InSlots(slots, all, i) == 0
  {
    if slots != [] { InSlotsNone(slots[1..], all, i); }
  }

  lemma {:induction false} InSlotsSome<OUT>(slots: seq<Slot<OUT>>, all: bool, w: nat, i: nat)
    requires w < |slots|
    ensures InSlots(slots, all, i) >= InSlot(slots[w], all, i)
  {
    if w > 0 { InSlotsSome(slots[1..], all, w - 1, i); }
  }

  // ----- the invariant of every reachable state -----

  ghost predicate Genuine<IN, OUT>(job: Stream<IN, OUT>, r: Record<OUT>) {
    r.idx < |job.inputs| && r == RecordOf(job, r.idx)
  }

  ghost predicate SlotInv<IN, OUT>(job: Stream<IN, OUT>, slot: Slot<OUT>) {
    match slot
    case Idle => true
    case Exited => true
    case Busy(_) => true
    case Holding(r) => Genuine(job, r) && r.err.None?
    case _ => Genuine(job, slot.r) && slot.r.err.Some?
  }

  ghost predicate RecordsInv<IN, OUT>(job: Stream<IN, OUT>, s: State<OUT>) {
    && (forall w | 0 <= w < |s.slots| :: SlotInv(job, s.slots[w]))
    && (forall k | 0 <= k < |s.results| :: Genuine(job, s.results[k]))
    && (forall i | i in s.pending :: Genuine(job, s.pending[i]) && s.pending[i].idx == i && s.pending[i].err.None?)
  }

  ghost predicate FlightInv<IN, OUT>(job: Stream<IN, OUT>, s: State<OUT>) {
    && s.nextSeq <= s.next <= |job.inputs|
    && (s.feeder.Offering? ==> s.next < |job.inputs|)
    && (forall i: nat :: Flight(s, i) <= if s.nextSeq <= i < s.next then 1 else 0)
    && (!s.cancelled ==> forall i: nat | s.nextSeq <= i < s.next :: Flight(s, i) == 1)
    && (s.collector.Receiving? ==> s.nextSeq !in s.pending)
  }

  ghost predicate CallsInv<IN, OUT>(job: Stream<IN, OUT>, s: State<OUT>) {
    forall i: nat :: s.calls[i] + Untranslated(s, i) == if i < s.next then 1 else 0
  }

  ghost predicate ControlInv<IN, OUT>(job: Stream<IN, OUT>, s: State<OUT>) {
    && 1 <= |s.slots|
    && (s.feeder.Closed? && !s.cancelled ==> s.next == |job.inputs|)
    && (forall w | 0 <= w < |s.slots| && s.slots[w].Exited? && !s.cancelled :: s.work == [] && s.feeder.Closed?)
    && (s.resultsClosed ==> s.feeder.Closed? && AllExited(s))
    && (s.collector.Returned? ==> s.cancelled || s.resultsClosed)
  }

  // Some translation has failed with error e.
  ghost predicate FailedWith<IN, OUT>(job: Stream<IN, OUT>, calls: multiset<nat>, e: Option<Error>) {
    exists i: nat :: i < |job.inputs| && calls[i] == 1 && job.Fails(i) && job.Ask(i).err == e
  }

  // reterr is the error of a translation that failed; once a worker is past reporting
  // its failure it is set, and cancellation comes only after that.
  ghost predicate FailureInv<IN, OUT>(job: Stream<IN, OUT>, s: State<OUT>) {
    && (s.reterr.Some? ==> FailedWith(job, s.calls, s.reterr))
    && (s.cancelled ==> s.reterr.Some?)
    && (forall w | 0 <= w < |s.slots| && (s.slots[w].Recorded? || s.slots[w].Cancelling?) :: s.reterr.Some?)
    && (forall w | 0 <= w < |s.slots| && s.slots[w].Cancelling? :: s.cancelled)
    && (forall k | 0 <= k < |s.results| && s.results[k].err.Some? :: s.cancelled)
  }

  // The collector has dealt with the first Upto(s) inputs.
  function Upto<OUT>(s: State<OUT>): nat {
    match s.collector
    case Returned(_, upto) => upto
    case Sending(_) => if s.nextSeq > 0 then s.nextSeq - 1 else 0
    case _ => s.nextSeq
  }

  ghost predicate OutputInv<IN, OUT>(job: Stream<IN, OUT>, s: State<OUT>) {
    && Upto(s) <= s.nextSeq <= |job.inputs|
    && (forall i: nat | i < s.nextSeq :: !job.Fails(i))
    && s.out == Outputs(job, Upto(s))
    && (s.collector.Sending? ==>
          && s.nextSeq > 0
          && job.Ask(s.nextSeq - 1).output == s.collector.output && job.Ask(s.nextSeq - 1).err != Some(Continue))
    && (s.collector.Returned? ==>
          s.collector.ret == s.reterr && (s.reterr.None? ==> s.collector.upto == s.next == |job.inputs|))
  }

  ghost predicate Inv<IN, OUT>(job: Stream<IN, OUT>, s: State<OUT>) {
    && RecordsInv(job, s) && FlightInv(job, s) && CallsInv(job, s)
    && ControlInv(job, s) && FailureInv(job, s) && OutputInv(job, s)
  }

  lemma StartInv<IN, OUT>(job: Stream<IN, OUT>, workers: nat)
    requires 1 <= workers
    ensures Inv(job, Start<OUT>(workers))
  {
    var s := Start<OUT>(workers);
    forall i: nat ensures InSlots(s.slots, true, i) == InSlots(s.slots, false, i) == 0 {
      InSlotsNone(s.slots, true, i);
      InSlotsNone(s.slots, false, i);
    }
  }

  // How each action of worker w changes the places of value i.
  lemma TakeMoves<IN, OUT>(job: Stream<IN, OUT>, s: State<OUT>, w: nat, i: nat)
    requires Enabled(job, s, Take(w))
    ensures Flight(Next(job, s, Take(w)), i) == Flight(s, i)
    ensures Untranslated(Next(job, s, Take(w)), i) == Untranslated(s, i)
  {
    InSlotsUpdate(s.slots, true, w, Busy(s.work[0]), i);
    InSlotsUpdate(s.slots, false, w, Busy(s.work[0]), i);
  }

  lemma TranslateMoves<IN, OUT>(job: Stream<IN, OUT>, s: State<OUT>, w: nat, i: nat)
    requires Enabled(job, s, Translate(w))
    ensures Flight(Next(job, s, Translate(w)), i) == Flight(s, i)
    ensures Untranslated(s, i) ==
            Untranslated(Next(job, s, Translate(w)), i) + if i == s.slots[w].idx then 1 else 0
  {
    var s' := Next(job, s, Translate(w));
    InSlotsUpdate(s.slots, true, w, s'.slots[w], i);
    InSlotsUpdate(s.slots, false, w, s'.slots[w], i);
  }

  lemma SendMoves<IN, OUT>(job: Stream<IN, OUT>, s: State<OUT>, w: nat, i: nat)
    requires Enabled(job, s, Send(w))
    ensures Flight(Next(job, s, Send(w)), i) == Flight(s, i)
    ensures Untranslated(Next(job, s, Send(w)), i) == Untranslated(s, i)
  {
    InSlotsUpdate(s.slots, true, w, Idle, i);
    InSlotsUpdate(s.slots, false, w, Idle, i);
    InRecordsSnoc(s.results, s.slots[w].r, i);
  }

  lemma QuitMoves<IN, OUT>(job: Stream<IN, OUT>, s: State<OUT>, w: nat, i: nat)
    requires Enabled(job, s, Quit(w))
    ensures Flight(Next(job, s, Quit(w)), i) <= Flight(s, i)
    ensures s.slots[w].Idle? ==> Flight(Next(job, s, Quit(w)), i) == Flight(s, i)
    ensures Untranslated(Next(job, s, Quit(w)), i) == Untranslated(s, i)
  {
    InSlotsUpdate(s.slots, true, w, Exited, i);
    InSlotsUpdate(s.slots, false, w, Exited, i);
  }

  lemma ReportMoves<IN, OUT>(job: Stream<IN, OUT>, s: State<OUT>, w: nat, i: nat)
    requires Enabled(job, s, Report(w))
    ensures Flight(Next(job, s, Report(w)), i) == Flight(s, i)
    ensures Untranslated(Next(job, s, Report(w)), i) == Untranslated(s, i)
  {
    InSlotsUpdate(s.slots, true, w, Recorded(s.slots[w].r), i);
    InSlotsUpdate(s.slots, false, w, Recorded(s.slots[w].r), i);
  }

  lemma CancelMoves<IN, OUT>(job: Stream<IN, OUT>, s: State<OUT>, w: nat, i: nat)
    requires Enabled(job, s, Cancel(w))
    ensures Flight(Next(job, s, Cancel(w)), i) == Flight(s, i)
    ensures Untranslated(Next(job, s, Cancel(w)), i) == Untranslated(s, i)
  {
    InSlotsUpdate(s.slots, true, w, Cancelling(s.slots[w].r), i);
    InSlotsUpdate(s.slots, false, w, Cancelling(s.slots[w].r), i);
  }

  lemma TellMoves<IN, OUT>(job: Stream<IN, OUT>, s: State<OUT>, w: nat, i: nat)
    requires Enabled(job, s, Tell(w))
    ensures Flight(Next(job, s, Tell(w)), i) <= Flight(s, i)
    ensures Untranslated(Next(job, s, Tell(w)), i) == Untranslated(s, i)
  {
    InSlotsUpdate(s.slots, true, w, Exited, i);
    InSlotsUpdate(s.slots, false, w, Exited, i);
    InRecordsSnoc(s.results, s.slots[w].r, i);
  }

  lemma OfferMoves<IN, OUT>(job: Stream<IN, OUT>, s: State<OUT>, i: nat)
    requires Enabled(job, s, Offer)
    ensures Flight(Next(job, s, Offer), i) == Flight(s, i) + if i == s.next then 1 else 0
    ensures Untranslated(Next(job, s, Offer), i) == Untranslated(s, i) + if i == s.next then 1 else 0
  {
    InJobsSnoc(s.work, s.next, i);
  }

  lemma ReceiveMoves<IN, OUT>(job: Stream<IN, OUT>, s: State<OUT>, i: nat)
    requires Enabled(job, s, Receive)
    requires Flight(s, s.results[0].idx) <= 1
    ensures Flight(Next(job, s, Receive), i) <= Flight(s, i)
    ensures s.results[0].err.None? ==> Flight(Next(job, s, Receive), i) == Flight(s, i)
    ensures Untranslated(Next(job, s, Receive), i) == Untranslated(s, i)
  {}

  lemma FlushMoves<IN, OUT>(job: Stream<IN, OUT>, s: State<OUT>, i: nat)
    requires Enabled(job, s, Flush)
    ensures Flight(s, i) == Flight(Next(job, s, Flush), i) + if i == s.nextSeq && i in s.pending then 1 else 0
    ensures Untranslated(Next(job, s, Flush), i) == Untranslated(s, i)
  {}

  lemma {:induction false} InSlotsTranslated<OUT>(slots: seq<Slot<OUT>>, w: nat, i: nat)
    requires w < |slots|
    ensures InSlots(slots, true, i) >= InSlots(slots, false, i) + InSlot(slots[w], true, i) - InSlot(slots[w], false, i)
  {
    if w > 0 {
      InSlotsTranslated(slots[1..], w - 1, i);
    } else if |slots| > 1 {
      InSlotsTranslated(slots[1..], 0, i);
    }
  }

  lemma ReportedWasCalled<IN, OUT>(job: Stream<IN, OUT>, s: State<OUT>, w: nat)
    requires RecordsInv(job, s) && FlightInv(job, s) && CallsInv(job, s)
    requires w < |s.slots| && s.slots[w].Failing?
    ensures FailedWith(job, s.calls, s.slots[w].r.err)
  {
    var i := s.slots[w].r.idx;
    InSlotsTranslated(s.slots, w, i);
    assert Flight(s, i) <= 1;
    assert s.calls[i] + Untranslated(s, i) == if i < s.next then 1 else 0;
    assert job.Fails(i);
  }

  // When resultChan is closed and nothing failed, the cursor is past the last input.
  lemma EverythingArrived<IN, OUT>(job: Stream<IN, OUT>, s: State<OUT>)
    requires Inv(job, s) && s.collector.Receiving? && s.results == [] && s.resultsClosed && s.reterr.None?
    ensures s.nextSeq == s.next == |job.inputs|
  {
    assert s.slots[0].Exited?;
    InSlotsNone(s.slots, true, s.nextSeq);
    assert Flight(s, s.nextSeq) == 0;
  }

  lemma TakeKeepsFlight<IN, OUT>(job: Stream<IN, OUT>, s: State<OUT>, w: nat)
    requires RecordsInv(job, s) && FlightInv(job, s) && CallsInv(job, s) && FailureInv(job, s)
    requires Enabled(job, s, Take(w))
    ensures FlightInv(job, Next(job, s, Take(w))) && CallsInv(job, Next(job, s, Take(w)))
  {
    forall i: nat { TakeMoves(job, s, w, i); }
  }

  lemma TakeKeeps<IN, OUT>(job: Stream<IN, OUT>, s: State<OUT>, w: nat)
    requires Inv(job, s) && Enabled(job, s, Take(w))
    ensures Inv(job, Next(job, s, Take(w)))
  {
    TakeKeepsFlight(job, s, w);
  }

  lemma TranslateKeepsFlight<IN, OUT>(job: Stream<IN, OUT>, s: State<OUT>, w: nat)
    requires RecordsInv(job, s) && FlightInv(job, s) && CallsInv(job, s) && FailureInv(job, s)
    requires Enabled(job, s, Translate(w))
    ensures FlightInv(job, Next(job, s, Translate(w))) && CallsInv(job, Next(job, s, Translate(w)))
  {
    forall i: nat { TranslateMoves(job, s, w, i); }
  }

  lemma TranslateKeepsRest<IN, OUT>(job: Stream<IN, OUT>, s: State<OUT>, w: nat)
    requires RecordsInv(job, s) && ControlInv(job, s) && FailureInv(job, s) && Enabled(job, s, Translate(w))
    requires CallsInv(job, Next(job, s, Translate(w)))
    ensures RecordsInv(job, Next(job, s, Translate(w))) && ControlInv(job, Next(job, s, Translate(w)))
    ensures FailureInv(job, Next(job, s, Translate(w)))
  {
  }

  lemma TranslateKeepsOutput<IN, OUT>(job: Stream<IN, OUT>, s: State<OUT>, w: nat)
    requires Inv(job, s) && Enabled(job, s, Translate(w))
    ensures OutputInv(job, Next(job, s, Translate(w)))
  {
  }

  lemma TranslateKeeps<IN, OUT>(job: Stream<IN, OUT>, s: State<OUT>, w: nat)
    requires Inv(job, s) && Enabled(job, s, Translate(w))
    ensures Inv(job, Next(job, s, Translate(w)))
  {
    TranslateKeepsFlight(job, s, w);
    TranslateKeepsRest(job, s, w);
    TranslateKeepsOutput(job, s, w);
  }

  lemma SendKeepsFlight<IN, OUT>(job: Stream<IN, OUT>, s: State<OUT>, w: nat)
    requires RecordsInv(job, s) && FlightInv(job, s) && CallsInv(job, s) && FailureInv(job, s)
    requires Enabled(job, s, Send(w))
    ensures FlightInv(job, Next(job, s, Send(w))) && CallsInv(job, Next(job, s, Send(w)))
  {
    forall i: nat { SendMoves(job, s, w, i); }
  }

  lemma SendKeeps<IN, OUT>(job: Stream<IN, OUT>, s: State<OUT>, w: nat)
    requires Inv(job, s) && Enabled(job, s, Send(w))
    ensures Inv(job, Next(job, s, Send(w)))
  {
    SendKeepsFlight(job, s, w);
  }

  lemma QuitKeepsFlight<IN, OUT>(job: Stream<IN, OUT>, s: State<OUT>, w: nat)
    requires RecordsInv(job, s) && FlightInv(job, s) && CallsInv(job, s) && FailureInv(job, s)
    requires Enabled(job, s, Quit(w))
    ensures FlightInv(job, Next(job, s, Quit(w))) && CallsInv(job, Next(job, s, Quit(w)))
  {
    forall i: nat { QuitMoves(job, s, w, i); }
  }

  lemma QuitKeeps<IN, OUT>(job: Stream<IN, OUT>, s: State<OUT>, w: nat)
    requires Inv(job, s) && Enabled(job, s, Quit(w))
    ensures Inv(job, Next(job, s, Quit(w)))
  {
    QuitKeepsFlight(job, s, w);
  }

  lemma ReportKeepsFlight<IN, OUT>(job: Stream<IN, OUT>, s: State<OUT>, w: nat)
    requires RecordsInv(job, s) && FlightInv(job, s) && CallsInv(job, s) && FailureInv(job, s)
    requires Enabled(job, s, Report(w))
    ensures FlightInv(job, Next(job, s, Report(w))) && CallsInv(job, Next(job, s, Report(w)))
  {
    forall i: nat { ReportMoves(job, s, w, i); }
  }

  lemma ReportKeepsRest<IN, OUT>(job: Stream<IN, OUT>, s: State<OUT>, w: nat)
    requires Inv(job, s) && Enabled(job, s, Report(w))
    ensures RecordsInv(job, Next(job, s, Report(w))) && ControlInv(job, Next(job, s, Report(w)))
    ensures FailureInv(job, Next(job, s, Report(w)))
  {
    ReportedWasCalled(job, s, w);
  }

  lemma ReportKeepsOutput<IN, OUT>(job: Stream<IN, OUT>, s: State<OUT>, w: nat)
    requires Inv(job, s) && Enabled(job, s, Report(w))
    ensures OutputInv(job, Next(job, s, Report(w)))
  {
  }

  lemma ReportKeeps<IN, OUT>(job: Stream<IN, OUT>, s: State<OUT>, w: nat)
    requires Inv(job, s) && Enabled(job, s, Report(w))
    ensures Inv(job, Next(job, s, Report(w)))
  {
    ReportKeepsFlight(job, s, w);
    ReportKeepsRest(job, s, w);
    ReportKeepsOutput(job, s, w);
  }

  lemma CancelKeepsFlight<IN, OUT>(job: Stream<IN, OUT>, s: State<OUT>, w: nat)
    requires RecordsInv(job, s) && FlightInv(job, s) && CallsInv(job, s) && FailureInv(job, s)
    requires Enabled(job, s, Cancel(w))
    ensures FlightInv(job, Next(job, s, Cancel(w))) && CallsInv(job, Next(job, s, Cancel(w)))
  {
    forall i: nat { CancelMoves(job, s, w, i); }
  }

  lemma CancelKeeps<IN, OUT>(job: Stream<IN, OUT>, s: State<OUT>, w: nat)
    requires Inv(job, s) && Enabled(job, s, Cancel(w))
    ensures Inv(job, Next(job, s, Cancel(w)))
  {
    CancelKeepsFlight(job, s, w);
  }

  lemma TellKeepsFlight<IN, OUT>(job: Stream<IN, OUT>, s: State<OUT>, w: nat)
    requires RecordsInv(job, s) && FlightInv(job, s) && CallsInv(job, s) && FailureInv(job, s)
    requires Enabled(job, s, Tell(w))
    ensures FlightInv(job, Next(job, s, Tell(w))) && CallsInv(job, Next(job, s, Tell(w)))
  {
    forall i: nat { TellMoves(job, s, w, i); }
  }

  lemma TellKeeps<IN, OUT>(job: Stream<IN, OUT>, s: State<OUT>, w: nat)
    requires Inv(job, s) && Enabled(job, s, Tell(w))
    ensures Inv(job, Next(job, s, Tell(w)))
  {
    TellKeepsFlight(job, s, w);
  }

  lemma OfferKeepsFlight<IN, OUT>(job: Stream<IN, OUT>, s: State<OUT>)
    requires RecordsInv(job, s) && FlightInv(job, s) && CallsInv(job, s) && FailureInv(job, s)
    requires Enabled(job, s, Offer)
    ensures FlightInv(job, Next(job, s, Offer)) && CallsInv(job, Next(job, s, Offer))
  {
    forall i: nat { OfferMoves(job, s, i); }
  }

  lemma OfferKeeps<IN, OUT>(job: Stream<IN, OUT>, s: State<OUT>)
    requires Inv(job, s) && Enabled(job, s, Offer)
    ensures Inv(job, Next(job, s, Offer))
  {
    OfferKeepsFlight(job, s);
  }

  lemma ReceiveKeepsFlight<IN, OUT>(job: Stream<IN, OUT>, s: State<OUT>)
    requires RecordsInv(job, s) && FlightInv(job, s) && CallsInv(job, s) && FailureInv(job, s)
    requires Enabled(job, s, Receive)
    ensures FlightInv(job, Next(job, s, Receive)) && CallsInv(job, Next(job, s, Receive))
  {
    assert Flight(s, s.results[0].idx) <= 1;
    forall i: nat { ReceiveMoves(job, s, i); }
  }

  lemma ReceiveKeepsRest<IN, OUT>(job: Stream<IN, OUT>, s: State<OUT>)
    requires RecordsInv(job, s) && ControlInv(job, s) && FailureInv(job, s) && CallsInv(job, s)
    requires Enabled(job, s, Receive)
    ensures RecordsInv(job, Next(job, s, Receive)) && ControlInv(job, Next(job, s, Receive))
    ensures FailureInv(job, Next(job, s, Receive))
  {
  }

  lemma ReceiveKeepsOutput<IN, OUT>(job: Stream<IN, OUT>, s: State<OUT>)
    requires RecordsInv(job, s) && FlightInv(job, s) && FailureInv(job, s) && OutputInv(job, s)
    requires Enabled(job, s, Receive)
    ensures OutputInv(job, Next(job, s, Receive))
  {
  }

  lemma ReceiveKeeps<IN, OUT>(job: Stream<IN, OUT>, s: State<OUT>)
    requires Inv(job, s) && Enabled(job, s, Receive)
    ensures Inv(job, Next(job, s, Receive))
  {
    ReceiveKeepsFlight(job, s);
    ReceiveKeepsRest(job, s);
    ReceiveKeepsOutput(job, s);
  }

  lemma FlushKeepsFlight<IN, OUT>(job: Stream<IN, OUT>, s: State<OUT>)
    requires RecordsInv(job, s) && FlightInv(job, s) && CallsInv(job, s) && FailureInv(job, s)
    requires Enabled(job, s, Flush)
    ensures FlightInv(job, Next(job, s, Flush)) && CallsInv(job, Next(job, s, Flush))
  {
    assert s.nextSeq in s.pending ==> Flight(s, s.nextSeq) == 1;
    forall i: nat { FlushMoves(job, s, i); }
  }

  lemma FlushKeepsRest<IN, OUT>(job: Stream<IN, OUT>, s: State<OUT>)
    requires RecordsInv(job, s) && ControlInv(job, s) && FailureInv(job, s) && CallsInv(job, s)
    requires Enabled(job, s, Flush)
    ensures RecordsInv(job, Next(job, s, Flush)) && ControlInv(job, Next(job, s, Flush))
    ensures FailureInv(job, Next(job, s, Flush))
  {
  }

  lemma FlushKeepsOutput<IN, OUT>(job: Stream<IN, OUT>, s: State<OUT>)
    requires RecordsInv(job, s) && FlightInv(job, s) && FailureInv(job, s) && OutputInv(job, s)
    requires Enabled(job, s, Flush)
    ensures OutputInv(job, Next(job, s, Flush))
  {
  }

  lemma FlushKeeps<IN, OUT>(job: Stream<IN, OUT>, s: State<OUT>)
    requires Inv(job, s) && Enabled(job, s, Flush)
    ensures Inv(job, Next(job, s, Flush))
  {
    FlushKeepsFlight(job, s);
    FlushKeepsRest(job, s);
    FlushKeepsOutput(job, s);
  }

  lemma ReadKeeps<IN, OUT>(job: Stream<IN, OUT>, s: State<OUT>)
    requires Inv(job, s) && Enabled(job, s, Read)
    ensures Inv(job, Next(job, s, Read))
  {
    var s' := Next(job, s, Read);
    forall i: nat ensures Flight(s', i) == Flight(s, i) && Untranslated(s', i) == Untranslated(s, i) {}
  }

  lemma EndOfInputKeeps<IN, OUT>(job: Stream<IN, OUT>, s: State<OUT>)
    requires Inv(job, s) && Enabled(job, s, EndOfInput)
    ensures Inv(job, Next(job, s, EndOfInput))
  {
    var s' := Next(job, s, EndOfInput);
    forall i: nat ensures Flight(s', i) == Flight(s, i) && Untranslated(s', i) == Untranslated(s, i) {}
  }

  lemma GiveUpKeeps<IN, OUT>(job: Stream<IN, OUT>, s: State<OUT>)
    requires Inv(job, s) && Enabled(job, s, GiveUp)
    ensures Inv(job, Next(job, s, GiveUp))
  {
    var s' := Next(job, s, GiveUp);
    forall i: nat ensures Flight(s', i) == Flight(s, i) && Untranslated(s', i) == Untranslated(s, i) {}
  }

  lemma CloseResultsKeeps<IN, OUT>(job: Stream<IN, OUT>, s: State<OUT>)
    requires Inv(job, s) && Enabled(job, s, CloseResults)
    ensures Inv(job, Next(job, s, CloseResults))
  {
    var s' := Next(job, s, CloseResults);
    forall i: nat ensures Flight(s', i) == Flight(s, i) && Untranslated(s', i) == Untranslated(s, i) {}
  }

  lemma EmitKeeps<IN, OUT>(job: Stream<IN, OUT>, s: State<OUT>)
    requires Inv(job, s) && Enabled(job, s, Emit)
    ensures Inv(job, Next(job, s, Emit))
  {
    var s' := Next(job, s, Emit);
    forall i: nat ensures Flight(s', i) == Flight(s, i) && Untranslated(s', i) == Untranslated(s, i) {}
  }

  lemma AbandonKeeps<IN, OUT>(job: Stream<IN, OUT>, s: State<OUT>)
    requires Inv(job, s) && Enabled(job, s, Abandon)
    ensures Inv(job, Next(job, s, Abandon))
  {
    var s' := Next(job, s, Abandon);
    forall i: nat ensures Flight(s', i) == Flight(s, i) && Untranslated(s', i) == Untranslated(s, i) {}
  }

  lemma FinishKeeps<IN, OUT>(job: Stream<IN, OUT>, s: State<OUT>)
    requires Inv(job, s) && Enabled(job, s, Finish)
    ensures Inv(job, Next(job, s, Finish))
  {
    var s' := Next(job, s, Finish);
    forall i: nat ensures Flight(s', i) == Flight(s, i) && Untranslated(s', i) == Untranslated(s, i) {}
    if s.reterr.None? { EverythingArrived(job, s); }
  }

  lemma WorkerKeepsInv<IN, OUT>(job: Stream<IN, OUT>, s: State<OUT>, a: Action)
    requires a.Take? || a.Translate? || a.Send? || a.Quit? || a.Report? || a.Cancel? || a.Tell?
    requires Inv(job, s) && Enabled(job, s, a)
    ensures Inv(job, Next(job, s, a))
  {
    match a
    case Take(w) => TakeKeeps(job, s, w);
    case Translate(w) => TranslateKeeps(job, s, w);
    case Send(w) => SendKeeps(job, s, w);
    case Quit(w) => QuitKeeps(job, s, w);
    case Report(w) => ReportKeeps(job, s, w);
    case Cancel(w) => CancelKeeps(job, s, w);
    case Tell(w) => TellKeeps(job, s, w);
  }

  lemma StepKeepsInv<IN, OUT>(job: Stream<IN, OUT>, s: State<OUT>, a: Action)
    requires Inv(job, s) && Enabled(job, s, a)
    ensures Inv(job, Next(job, s, a))
  {
    match a
    case Read => ReadKeeps(job, s);
    case Offer => OfferKeeps(job, s);
    case EndOfInput => EndOfInputKeeps(job, s);
    case GiveUp => GiveUpKeeps(job, s);
    case CloseResults => CloseResultsKeeps(job, s);
    case Receive => ReceiveKeeps(job, s);
    case Flush => FlushKeeps(job, s);
    case Emit => EmitKeeps(job, s);
    case Abandon => AbandonKeeps(job, s);
    case Finish => FinishKeeps(job, s);
    case _ => WorkerKeepsInv(job, s, a);
  }

  lemma {:induction false} ExecKeepsInv<IN, OUT>(job: Stream<IN, OUT>, s: State<OUT>, schedule: seq<Action>)
    requires Inv(job, s)
    requires Exec(job, s, schedule).Some?
    ensures Inv(job, Exec(job, s, schedule).value)
    decreases |schedule|
  {
    if schedule != [] {
      StepKeepsInv(job, s, schedule[0]);
      ExecKeepsInv(job, Next(job, s, schedule[0]), schedule[1..]);
    }
  }

  // ----- every schedule ends, and only when the call has returned -----

  function SlotWork<OUT>(slot: Slot<OUT>): nat {
    match slot
    case Idle => 1
    case Busy(_) => 8
    case Holding(_) => 7
    case Failing(_) => 7
    case Recorded(_) => 6
    case Cancelling(_) => 5
    case Exited => 0
  }

  function SlotsWork<OUT>(slots: seq<Slot<OUT>>): nat {
    if slots == [] then 0 else SlotWork(slots[0]) + SlotsWork(slots[1..])
  }

  ghost function Work<IN, OUT>(job: Stream<IN, OUT>, s: State<OUT>): nat
    requires s.next <= |job.inputs|
  {
    10 * (|job.inputs| - s.next) + 8 * |s.work| + SlotsWork(s.slots) + 4 * |s.results| + 2 * |s.pending|
    + (match s.feeder case Reading => 2 case Offering => 1 case Closed => 0)
    + (match s.collector case Receiving => 1 case Flushing => 2 case Sending(_) => 3 case Returned(_, _) => 0)
    + (if s.resultsClosed then 0 else 1)
  }

  lemma {:induction false} SlotsWorkUpdate<OUT>(slots: seq<Slot<OUT>>, w: nat, x: Slot<OUT>)
    requires w < |slots|
    ensures SlotsWork(slots[w := x]) + SlotWork(slots[w]) == SlotsWork(slots) + SlotWork(x)
  {
    var slots' := slots[w := x];
    if w == 0 {
      assert slots'[1..] == slots[1..];
    } else {
      assert slots'[1..] == slots[1..][w - 1 := x];
      SlotsWorkUpdate(slots[1..], w - 1, x);
    }
  }

  lemma {:induction false} SlotsWorkIdle<OUT>(slots: seq<Slot<OUT>>)
    requires forall x | x in slots :: x.Idle?
    ensures SlotsWork(slots) == |slots|
  {
    if slots != [] { SlotsWorkIdle(slots[1..]); }
  }

  lemma WorkerDoesWork<IN, OUT>(job: Stream<IN, OUT>, s: State<OUT>, a: Action)
    requires a.Take? || a.Translate? || a.Send? || a.Quit? || a.Report? || a.Cancel? || a.Tell?
    requires WorkerEnabled(job, s, a) && s.next <= |job.inputs|
    ensures WorkerNext(job, s, a).next == s.next
    ensures Work(job, WorkerNext(job, s, a)) < Work(job, s)
  {
    SlotsWorkUpdate(s.slots, a.w, WorkerNext(job, s, a).slots[a.w]);
  }

  lemma OneMoreKey<K, V>(m: map<K, V>, k: K, v: V)
    ensures |m[k := v]| <= |m| + 1
  {
    assert m[k := v].Keys == m.Keys + {k};
  }

  lemma ReceiveDoesWork<IN, OUT>(job: Stream<IN, OUT>, s: State<OUT>)
    requires FlightInv(job, s) && Enabled(job, s, Receive)
    ensures Work(job, Next(job, s, Receive)) < Work(job, s)
  {
    OneMoreKey(s.pending, s.results[0].idx, s.results[0]);
  }

  lemma FlushDoesWork<IN, OUT>(job: Stream<IN, OUT>, s: State<OUT>)
    requires FlightInv(job, s) && Enabled(job, s, Flush)
    ensures Work(job, Next(job, s, Flush)) < Work(job, s)
  {
    if s.nextSeq in s.pending {
      assert (s.pending - {s.nextSeq}).Keys == s.pending.Keys - {s.nextSeq};
    }
  }

  lemma StepDoesWork<IN, OUT>(job: Stream<IN, OUT>, s: State<OUT>, a: Action)
    requires Inv(job, s) && Enabled(job, s, a)
    ensures Next(job, s, a).next <= |job.inputs|
    ensures Work(job, Next(job, s, a)) < Work(job, s)
  {
    match a
    case Receive => ReceiveDoesWork(job, s);
    case Flush => FlushDoesWork(job, s);
    case Read =>
    case Offer =>
    case EndOfInput =>
    case GiveUp =>
    case CloseResults =>
    case Emit =>
    case Abandon =>
    case Finish =>
    case _ => WorkerDoesWork(job, s, a);
  }

  lemma {:induction false} ExecDoesWork<IN, OUT>(job: Stream<IN, OUT>, s: State<OUT>, schedule: seq<Action>)
    requires Inv(job, s)
    requires Exec(job, s, schedule).Some?
    ensures |schedule| <= Work(job, s)
    decreases |schedule|
  {
    if schedule != [] {
      StepKeepsInv(job, s, schedule[0]);
      StepDoesWork(job, s, schedule[0]);
      ExecDoesWork(job, Next(job, s, schedule[0]), schedule[1..]);
    }
  }

  // A worker that has work in hand, or a worker waiting when the collector is idle, can act,
  // or lets the feeder act.
  lemma WorkerNeverStuck<IN, OUT>(job: Stream<IN, OUT>, s: State<OUT>, w: nat) returns (a: Action)
    requires Inv(job, s)
    requires w < |s.slots| && !s.slots[w].Exited?
    requires s.collector.Returned? || (s.collector.Receiving? && s.results == [])
    ensures Enabled(job, s, a)
  {
    match s.slots[w]
    case Busy(i) =>
      InSlotsSome(s.slots, true, w, i);
      assert Flight(s, i) <= 1;
      return Translate(w);
    case Failing(_) => return Report(w);
    case Recorded(_) => return Cancel(w);
    case Cancelling(_) => return Tell(w);
    case Holding(_) => return if s.cancelled then Quit(w) else Send(w);
    case Idle =>
      if s.cancelled { return Quit(w); }
      if s.work != [] { return Take(w); }
      match s.feeder
      case Closed => return Quit(w);
      case Offering => return Offer;
      case Reading => return if s.next < |job.inputs| then Read else EndOfInput;
  }

  // With a consumer that keeps receiving, some goroutine can step until the call has returned.
  lemma NeverStuck<IN, OUT>(job: Stream<IN, OUT>, s: State<OUT>) returns (a: Action)
    requires Inv(job, s) && !Complete(s)
    ensures Enabled(job, s, a)
  {
    if s.collector.Flushing? { return Flush; }
    if s.collector.Sending? { return Emit; }
    if s.collector.Receiving? && s.results != [] { return Receive; }
    if w: nat :| w < |s.slots| && !s.slots[w].Exited? {
      a := WorkerNeverStuck(job, s, w);
      return;
    }
    assert s.slots[0].Exited?;
    if !s.feeder.Closed? { return GiveUp; }
    return if s.resultsClosed then Finish else CloseResults;
  }

  // ----- the main results -----

  /** In every reachable state the values sent on `out` are the outputs, in order, of the
      first k inputs, Continue left out, and none of those inputs failed to translate,
      although another worker's failure, or its lost message, may have come first. */
  lemma OutputIsAnHonestPrefix<IN, OUT>(job: Stream<IN, OUT>, workers: nat, schedule: seq<Action>, s: State<OUT>)
    returns (k: nat)
    requires 1 <= workers
    requires Exec(job, Start(workers), schedule) == Some(s)
    ensures k <= |job.inputs| && s.out == Outputs(job, k)
    ensures forall i: nat | i < k :: !job.Fails(i)
    ensures s.collector.Returned? && s.collector.ret.None? ==> k == |job.inputs|
  {
    StartInv(job, workers);
    ExecKeepsInv(job, Start(workers), schedule);
    k := Upto(s);
  }

  /** A nil return means that every input was translated, once, that none failed and that
      every output was sent; any other return is the error of a translation that failed. */
  lemma ReturnTellsTheTruth<IN, OUT>(job: Stream<IN, OUT>, workers: nat, schedule: seq<Action>, s: State<OUT>)
    requires 1 <= workers
    requires Exec(job, Start(workers), schedule) == Some(s)
    requires s.collector.Returned?
    ensures s.collector.ret.None? <==> forall i: nat | i < |job.inputs| && s.calls[i] == 1 :: !job.Fails(i)
    ensures s.collector.ret.None? ==>
              && s.out == Outputs(job, |job.inputs|)
              && forall i: nat | i < |job.inputs| :: s.calls[i] == 1 && !job.Fails(i)
    ensures s.collector.ret.Some? ==> FailedWith(job, s.calls, s.collector.ret)
  {
    StartInv(job, workers);
    ExecKeepsInv(job, Start(workers), schedule);
    if s.collector.ret.None? {
      assert s.resultsClosed && AllExited(s) && s.slots[0].Exited?;
      forall i: nat | i < |job.inputs| ensures s.calls[i] == 1 {
        InSlotsNone(s.slots, false, i);
        assert s.calls[i] + Untranslated(s, i) == 1;
      }
    }
  }

  /** When no input fails, the call returns nil with every output sent. */
  lemma NoFailureLosesNothing<IN, OUT>(job: Stream<IN, OUT>, workers: nat, schedule: seq<Action>, s: State<OUT>)
    requires 1 <= workers
    requires Exec(job, Start(workers), schedule) == Some(s)
    requires forall i: nat | i < |job.inputs| :: !job.Fails(i)
    ensures !s.cancelled
    ensures s.collector.Returned? ==> s.collector.ret.None? && s.out == Outputs(job, |job.inputs|)
  {
    StartInv(job, workers);
    ExecKeepsInv(job, Start(workers), schedule);
  }

  /** No value is translated twice; every schedule is bounded, and, with a consumer that
      keeps receiving, can always go on until the call has returned and every goroutine
      it started has ended, with or without failures and lost messages. */
  lemma EveryScheduleReturns<IN, OUT>(job: Stream<IN, OUT>, workers: nat, schedule: seq<Action>, s: State<OUT>)
    requires 1 <= workers
    requires Exec(job, Start(workers), schedule) == Some(s)
    ensures forall i: nat :: s.calls[i] <= if i < |job.inputs| then 1 else 0
    ensures |schedule| <= 10 * |job.inputs| + workers + 4
    ensures Complete(s) <==> forall a :: !Enabled(job, s, a)
  {
    StartInv(job, workers);
    ExecKeepsInv(job, Start(workers), schedule);
    ExecDoesWork(job, Start(workers), schedule);
    SlotsWorkIdle(Start<OUT>(workers).slots);
    forall i: nat ensures s.calls[i] <= if i < |job.inputs| then 1 else 0 {
      assert s.calls[i] + Untranslated(s, i) == if i < s.next then 1 else 0;
    }
    if !Complete(s) {
      var a := NeverStuck(job, s);
    }
  }
}
