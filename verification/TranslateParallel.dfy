/**
 Ordered parallel translation: the sequential loop for small inputs, and the
 worker pool (enqueuer, bounded workers, collector with a reordering buffer)
 for large ones, as a transition system whose every schedule refines the loop.
 */
module TranslateParallel {
  import opened Common
  import opened TranslateJob

  const PARALLEL_TRANSLATE_THRESHOLD := 16

  // Slice: TranslateSliceParallel, which understands Continue and a nil result().
  // Map: TranslateMapParallel, which understands neither.
  datatype Variant = Slice | Map

  // `deliver` is result(): it may depend on every output it was given before.
  datatype Job<!IN, !OUT> = Job(
    items: seq<IN>,
    translate: (nat, IN) -> Answer<OUT>,
    deliver: Option<(seq<OUT>, OUT) -> Option<Error>>,
    variant: Variant)
  {
    ghost predicate Valid() {
      variant.Map? ==> deliver.Some?
    }

    function Ask(i: nat): Answer<OUT>
      requires i < |items|
    {
      translate(i, items[i])
    }

    predicate Skips(err: Option<Error>) {
      variant.Slice? && err == Some(Continue)
    }
  }

  // What a caller observes, the arguments of the calls of result() in order and the
  // error, and the index the run stopped at (the number of items if it did not stop).
  datatype Run<+OUT> = Run(delivered: seq<OUT>, err: Option<Error>, stop: nat)

  function Mask(e: Error): Option<Error> {
    if e.EOF? then None else Some(e)
  }

  // The rest of the sequential loop, from index i.
  function RunFrom<IN, OUT>(job: Job<IN, OUT>, i: nat, delivered: seq<OUT>): Run<OUT>
    requires i <= |job.items|
    decreases |job.items| - i
  {
    if i == |job.items| then Run(delivered, None, i)
    else
      var a := job.Ask(i);
      if job.Skips(a.err) then RunFrom(job, i + 1, delivered)
      else if a.err.Some? then Run(delivered, Mask(a.err.value), i)
      else if job.deliver.None? then RunFrom(job, i + 1, delivered)
      else
        match job.deliver.value(delivered, a.output)
        case None => RunFrom(job, i + 1, delivered + [a.output])
        case Some(e) => Run(delivered + [a.output], Mask(e), i)
  }

  function Sequential<IN, OUT>(job: Job<IN, OUT>): Run<OUT> {
    RunFrom(job, 0, [])
  }

  method TranslateInline<IN, OUT>(job: Job<IN, OUT>) returns (delivered: seq<OUT>, err: Option<Error>)
    requires job.Valid()
    ensures delivered == Sequential(job).delivered && err == Sequential(job).err
  {
    delivered := [];
    for i := 0 to |job.items|
      invariant RunFrom(job, i, delivered) == Sequential(job)
    {
      var a := job.Ask(i);
      if job.Skips(a.err) { continue; }
      if a.err.Some? {
        return delivered, Mask(a.err.value);
      }
      if job.deliver.None? { continue; }
      var e := job.deliver.value(delivered, a.output);
      delivered := delivered + [a.output];
      if e.Some? {
        return delivered, Mask(e.value);
      }
    }
    return delivered, None;
  }

  // The outputs of the first k items that reach result().
  ghost function Outputs<IN, OUT>(job: Job<IN, OUT>, k: nat): seq<OUT>
    requires k <= |job.items|
  {
    if k == 0 then []
    else
      var a := job.Ask(k - 1);
      Outputs(job, k - 1) + if a.err.None? && job.deliver.Some? then [a.output] else []
  }

  // Whether item k would stop a run that reaches it, and with what error.
  ghost function Halt<IN, OUT>(job: Job<IN, OUT>, k: nat): Option<Option<Error>>
    requires k < |job.items|
  {
    var a := job.Ask(k);
    if job.Skips(a.err) then None
    else if a.err.Some? then Some(Mask(a.err.value))
    else if job.deliver.None? then None
    else
      match job.deliver.value(Outputs(job, k), a.output)
      case None => None
      case Some(e) => Some(Mask(e))
  }

  // The loop stops at the lowest stopping index, having delivered the outputs up to it in order.
  lemma SequentialStopsFirst<IN, OUT>(job: Job<IN, OUT>)
    ensures
      var run := Sequential(job);
      && run.stop <= |job.items|
      && (forall k: nat | k < run.stop :: Halt(job, k) == None)
      && (if run.stop < |job.items| then Halt(job, run.stop) == Some(run.err) else run.err == None)
      && run.delivered == Outputs(job, if run.stop < |job.items| then run.stop + 1 else run.stop)
  {
    RunFromStopsFirst(job, 0);
  }

  lemma {:induction false} RunFromStopsFirst<IN, OUT>(job: Job<IN, OUT>, i: nat)
    requires i <= |job.items|
    ensures
      var run := RunFrom(job, i, Outputs(job, i));
      && i <= run.stop <= |job.items|
      && (forall k: nat | i <= k < run.stop :: Halt(job, k) == None)
      && (if run.stop < |job.items| then Halt(job, run.stop) == Some(run.err) else run.err == None)
      && run.delivered == Outputs(job, if run.stop < |job.items| then run.stop + 1 else run.stop)
    decreases |job.items| - i
  {
    if i < |job.items| {
      RunFromStopsFirst(job, i + 1);
      assert Outputs(job, i) + [] == Outputs(job, i);
    }
  }

  // At item k, given the outputs before it, translate() or result() gives this error. An answer of
  // Continue is none in the slice variant.
  ghost predicate Raises<IN, OUT>(job: Job<IN, OUT>, k: nat, before: seq<OUT>, e: Error)
    requires k < |job.items|
  {
    var a := job.translate(k, job.items[k]);
    || (a.err == Some(e) && !(job.variant == Slice && e == Continue))
    || (a.err == None && job.deliver.Some? && job.deliver.value(before, a.output) == Some(e))
  }

  /** The error of the loop, from what translate() and result() answer: it stops at the first index
      where one of them gives an error, and returns that error unless it is EOF. */
  lemma FirstErrorIsReturned<IN, OUT>(job: Job<IN, OUT>)
    ensures
      var run := Sequential(job);
      && run.stop <= |job.items|
      && (forall k: nat, e | k < run.stop :: !Raises(job, k, Outputs(job, k), e))
      && (run.stop < |job.items| ==> exists e :: Raises(job, run.stop, Outputs(job, run.stop), e))
      && (forall e :: run.err == Some(e) <==>
            e != EOF && run.stop < |job.items| && Raises(job, run.stop, Outputs(job, run.stop), e))
      && (run.err == None <==>
            run.stop == |job.items| || Raises(job, run.stop, Outputs(job, run.stop), EOF))
  {
    var run := Sequential(job);
    SequentialStopsFirst(job);
    forall k: nat, e | k < run.stop ensures !Raises(job, k, Outputs(job, k), e) {
      assert Halt(job, k) == None;
    }
    if run.stop < |job.items| {
      var a := job.Ask(run.stop);
      var e := if a.err.Some? then a.err.value else job.deliver.value(Outputs(job, run.stop), a.output).value;
      assert Raises(job, run.stop, Outputs(job, run.stop), e);
    }
  }

  lemma {:induction false} RunFromExtends<IN, OUT>(job: Job<IN, OUT>, i: nat, delivered: seq<OUT>)
    requires i <= |job.items|
    ensures delivered <= RunFrom(job, i, delivered).delivered
    decreases |job.items| - i
  {
    if i < |job.items| {
      RunFromExtends(job, i + 1, delivered);
      RunFromExtends(job, i + 1, delivered + [job.Ask(i).output]);
    }
  }

  // ----- the worker pool as a transition system -----

  datatype Slot<+OUT> = Idle | Busy(idx: nat) | Holding(r: Record<OUT>) | Exited

  datatype Feeder = Feeding | Waiting | Finished

  datatype Collector = Receiving | Flushing | Draining(ret: Option<Error>) | Returned(ret: Option<Error>)

  // jobs and done are the buffers of jobChan and doneChan. jobChan is closed once
  // the feeder is past Feeding, doneChan once it is Finished.
  datatype State<+OUT> = State(
    next: nat,
    feeder: Feeder,
    jobs: seq<nat>,
    slots: seq<Slot<OUT>>,
    done: seq<Record<OUT>>,
    pending: map<nat, Record<OUT>>,
    nextIdx: nat,
    cancelled: bool,
    collector: Collector,
    delivered: seq<OUT>,
    calls: multiset<nat>)  // the calls of translate() so far

  datatype Action = Feed | StopFeeding | CloseDone
                  | Take(w: nat) | Translate(w: nat) | Send(w: nat) | Quit(w: nat)
                  | Receive | Flush | Drain | Finish

  function RecordOf<IN, OUT>(job: Job<IN, OUT>, i: nat): Record<OUT>
    requires i < |job.items|
  {
    var a := job.Ask(i);
    if job.Skips(a.err) then Record(i, true, a.output, None) else Record(i, false, a.output, a.err)
  }

  function Start<OUT>(workers: nat): State<OUT> {
    State(0, Feeding, [], seq(workers, _ => Idle), [], map[], 0, false, Receiving, [], multiset{})
  }

  predicate Enabled<IN, OUT>(job: Job<IN, OUT>, s: State<OUT>, a: Action) {
    match a
    case Feed => s.feeder.Feeding? && s.next < |job.items| && |s.jobs| < |s.slots|
    case StopFeeding => s.feeder.Feeding? && (s.next >= |job.items| || s.cancelled)
    case CloseDone => s.feeder.Waiting? && forall w | 0 <= w < |s.slots| :: s.slots[w].Exited?
    case Take(w) => w < |s.slots| && s.slots[w].Idle? && s.jobs != []
    case Translate(w) => w < |s.slots| && s.slots[w].Busy? && s.slots[w].idx < |job.items|
    case Send(w) => w < |s.slots| && s.slots[w].Holding? && |s.done| < |job.items|
    case Quit(w) => w < |s.slots| && s.slots[w].Idle? && (s.cancelled || (s.jobs == [] && !s.feeder.Feeding?))
    case Receive => s.collector.Receiving? && s.done != []
    case Flush => s.collector.Flushing?
    case Drain => s.collector.Draining? && s.done != []
    case Finish => (s.collector.Receiving? || s.collector.Draining?) && s.done == [] && s.feeder.Finished?
  }

  // What one turn of the flush loop does with the record it popped: the outputs
  // delivered after it, and what the call will return if the turn stops the run.
  datatype Turn<+OUT> = Turn(delivered: seq<OUT>, halt: Option<Option<Error>>)

  function Deliver<IN, OUT>(job: Job<IN, OUT>, delivered: seq<OUT>, p: Record<OUT>): Turn<OUT> {
    if p.err.Some? then Turn(delivered, Some(Mask(p.err.value)))
    else if p.cont || job.deliver.None? then Turn(delivered, None)
    else
      var e := job.deliver.value(delivered, p.output);
      Turn(delivered + [p.output], if e.Some? then Some(Mask(e.value)) else None)
  }

  function Next<IN, OUT>(job: Job<IN, OUT>, s: State<OUT>, a: Action): State<OUT>
    requires Enabled(job, s, a)
  {
    match a
    case Feed => s.(jobs := s.jobs + [s.next], next := s.next + 1)
    case StopFeeding => s.(feeder := Waiting)
    case CloseDone => s.(feeder := Finished)
    case Take(w) => s.(jobs := s.jobs[1..], slots := s.slots[w := Busy(s.jobs[0])])
    case Translate(w) =>
      var i := s.slots[w].idx;
      s.(slots := s.slots[w := Holding(RecordOf(job, i))], calls := s.calls + multiset{i})
    case Send(w) => s.(done := s.done + [s.slots[w].r], slots := s.slots[w := Idle])
    case Quit(w) => s.(slots := s.slots[w := Exited])
    case Receive =>
      var r := s.done[0];
      s.(done := s.done[1..], pending := s.pending[r.idx := r], collector := Flushing)
    case Flush =>
      if s.nextIdx !in s.pending then s.(collector := Receiving)
      else
        var turn := Deliver(job, s.delivered, s.pending[s.nextIdx]);
        s.(pending := s.pending - {s.nextIdx}, nextIdx := s.nextIdx + 1, delivered := turn.delivered,
           cancelled := s.cancelled || turn.halt.Some?,
           collector := if turn.halt.Some? then Draining(turn.halt.value) else Flushing)
    case Drain => s.(done := s.done[1..])
    case Finish => s.(collector := Returned(if s.collector.Receiving? then None else s.collector.ret))
  }

  // The state after a schedule, if every action of it was enabled in turn.
  function Exec<IN, OUT>(job: Job<IN, OUT>, s: State<OUT>, schedule: seq<Action>): Option<State<OUT>>
    decreases |schedule|
  {
    if schedule == [] then Some(s)
    else if !Enabled(job, s, schedule[0]) then None
    else Exec(job, Next(job, s, schedule[0]), schedule[1..])
  }

  // ----- where every index is -----

  // Whether the worker holds index i; with `all` false, only if it has yet to translate it.
  function InSlot<OUT>(slot: Slot<OUT>, all: bool, i: nat): nat {
    match slot
    case Busy(j) => if i == j then 1 else 0
    case Holding(r) => if all && i == r.idx then 1 else 0
    case _ => 0
  }

  function InSlots<OUT>(slots: seq<Slot<OUT>>, all: bool, i: nat): nat {
    if slots == [] then 0 else InSlot(slots[0], all, i) + InSlots(slots[1..], all, i)
  }

  // How often index i is in a channel, a worker or the pending map.
  ghost function Flight<OUT>(s: State<OUT>, i: nat): nat {
    InJobs(s.jobs, i) + InSlots(s.slots, true, i) + InRecords(s.done, i) + if i in s.pending then 1 else 0
  }

  ghost function Untranslated<OUT>(s: State<OUT>, i: nat): nat {
    InJobs(s.jobs, i) + InSlots(s.slots, false, i)
  }

  lemma {:induction false} InSlotsUpdate<OUT>(slots: seq<Slot<OUT>>, all: bool, w: nat, x: Slot<OUT>, i: nat)
    requires w < |slots|
    ensures InSlots(slots[w := x], all, i) + InSlot(slots[w], all, i) == InSlots(slots, all, i) + InSlot(x, all, i)
  {
    var slots' := slots[w := x];
    if w == 0 {
      assert slots'[1..] == slots[1..];
    } else {
      assert slots'[1..] == slots[1..][w - 1 := x];
      InSlotsUpdate(slots[1..], all, w - 1, x, i);
    }
  }

  lemma {:induction false} InSlotsNone<OUT>(slots: seq<Slot<OUT>>, all: bool, i: nat)
    requires forall x | x in slots :: InSlot(x, all, i) == 0
    ensures InSlots(slots, all, i) == 0
  {
    if slots != [] { InSlotsNone(slots[1..], all, i); }
  }

  lemma {:induction false} InSlotsSome<OUT>(slots: seq<Slot<OUT>>, all: bool, w: nat, i: nat)
    requires w < |slots|
    ensures InSlots(slots, all, i) >= InSlot(slots[w], all, i)
  {
    if w > 0 { InSlotsSome(slots[1..], all, w - 1, i); }
  }

  // ----- the invariant of every reachable state -----

  predicate Active<OUT>(s: State<OUT>) {
    s.collector.Receiving? || s.collector.Flushing?
  }

  ghost predicate Genuine<IN, OUT>(job: Job<IN, OUT>, r: Record<OUT>) {
    r.idx < |job.items| && r == RecordOf(job, r.idx)
  }

  // Every record anywhere is the answer to its own index.
  ghost predicate RecordsInv<IN, OUT>(job: Job<IN, OUT>, s: State<OUT>) {
    && (forall r | r in s.done :: Genuine(job, r))
    && (forall w | 0 <= w < |s.slots| && s.slots[w].Holding? :: Genuine(job, s.slots[w].r))
    && (forall i | i in s.pending :: Genuine(job, s.pending[i]) && s.pending[i].idx == i)
  }

  // Nothing is ever in two places, and while the collector is active nothing is lost.
  ghost predicate FlightInv<IN, OUT>(job: Job<IN, OUT>, s: State<OUT>) {
    && s.nextIdx <= s.next <= |job.items|
    && (forall i: nat :: Flight(s, i) <= if s.nextIdx <= i < s.next then 1 else 0)
    && (Active(s) ==> forall i: nat | s.nextIdx <= i < s.next :: Flight(s, i) == 1)
    && (s.collector.Receiving? ==> s.nextIdx !in s.pending)
  }

  // An index is translated once, after it has left the jobs channel.
  ghost predicate CallsInv<IN, OUT>(job: Job<IN, OUT>, s: State<OUT>) {
    forall i: nat :: s.calls[i] + Untranslated(s, i) == if i < s.next then 1 else 0
  }

  ghost predicate ControlInv<IN, OUT>(job: Job<IN, OUT>, s: State<OUT>) {
    && 1 <= |s.slots|
    && (Active(s) ==> !s.cancelled)
    && (!s.feeder.Feeding? && !s.cancelled ==> s.next == |job.items|)
    && (s.feeder.Finished? ==> forall w | 0 <= w < |s.slots| :: s.slots[w].Exited?)
    && (forall w | 0 <= w < |s.slots| && s.slots[w].Exited? && !s.cancelled :: s.jobs == [] && !s.feeder.Feeding?)
    && (s.collector.Returned? ==> s.feeder.Finished? && s.done == [])
  }

  // What was delivered so far, and what is still to come, make up the sequential run.
  ghost predicate OutcomeInv<IN, OUT>(job: Job<IN, OUT>, s: State<OUT>) {
    && s.nextIdx <= |job.items|
    && (Active(s) ==> RunFrom(job, s.nextIdx, s.delivered) == Sequential(job))
    && (s.cancelled ==> 1 <= s.nextIdx)
    && (!Active(s) ==>
          Run(s.delivered, s.collector.ret, if s.cancelled then s.nextIdx - 1 else |job.items|) == Sequential(job))
  }

  ghost predicate Inv<IN, OUT>(job: Job<IN, OUT>, s: State<OUT>) {
    && RecordsInv(job, s) && FlightInv(job, s) && CallsInv(job, s) && ControlInv(job, s) && OutcomeInv(job, s)
  }

  lemma StartInv<IN, OUT>(job: Job<IN, OUT>, workers: nat)
    requires 1 <= workers
    ensures Inv(job, Start<OUT>(workers))
  {
    var s := Start<OUT>(workers);
    forall i: nat ensures InSlots(s.slots, true, i) == InSlots(s.slots, false, i) == 0 {
      InSlotsNone(s.slots, true, i);
      InSlotsNone(s.slots, false, i);
    }
  }

  // How each action changes the places of index i.
  lemma FeedMoves<IN, OUT>(job: Job<IN, OUT>, s: State<OUT>, i: nat)
    requires Enabled(job, s, Feed)
    ensures Flight(Next(job, s, Feed), i) == Flight(s, i) + if i == s.next then 1 else 0
    ensures Untranslated(Next(job, s, Feed), i) == Untranslated(s, i) + if i == s.next then 1 else 0
  {
    InJobsSnoc(s.jobs, s.next, i);
  }

  lemma TakeMoves<IN, OUT>(job: Job<IN, OUT>, s: State<OUT>, w: nat, i: nat)
    requires Enabled(job, s, Take(w))
    ensures Flight(Next(job, s, Take(w)), i) == Flight(s, i)
    ensures Untranslated(Next(job, s, Take(w)), i) == Untranslated(s, i)
  {
    InSlotsUpdate(s.slots, true, w, Busy(s.jobs[0]), i);
    InSlotsUpdate(s.slots, false, w, Busy(s.jobs[0]), i);
  }

  lemma TranslateMoves<IN, OUT>(job: Job<IN, OUT>, s: State<OUT>, w: nat, i: nat)
    requires Enabled(job, s, Translate(w))
    ensures Flight(Next(job, s, Translate(w)), i) == Flight(s, i)
    ensures Untranslated(s, i) ==
            Untranslated(Next(job, s, Translate(w)), i) + if i == s.slots[w].idx then 1 else 0
  {
    var x := Holding(RecordOf(job, s.slots[w].idx));
    InSlotsUpdate(s.slots, true, w, x, i);
    InSlotsUpdate(s.slots, false, w, x, i);
  }

  lemma SendMoves<IN, OUT>(job: Job<IN, OUT>, s: State<OUT>, w: nat, i: nat)
    requires Enabled(job, s, Send(w))
    ensures Flight(Next(job, s, Send(w)), i) == Flight(s, i)
    ensures Untranslated(Next(job, s, Send(w)), i) == Untranslated(s, i)
  {
    InSlotsUpdate(s.slots, true, w, Idle, i);
    InSlotsUpdate(s.slots, false, w, Idle, i);
    InRecordsSnoc(s.done, s.slots[w].r, i);
  }

  lemma QuitMoves<IN, OUT>(job: Job<IN, OUT>, s: State<OUT>, w: nat, i: nat)
    requires Enabled(job, s, Quit(w))
    ensures Flight(Next(job, s, Quit(w)), i) == Flight(s, i)
    ensures Untranslated(Next(job, s, Quit(w)), i) == Untranslated(s, i)
  {
    InSlotsUpdate(s.slots, true, w, Exited, i);
    InSlotsUpdate(s.slots, false, w, Exited, i);
  }

  lemma ReceiveMoves<IN, OUT>(job: Job<IN, OUT>, s: State<OUT>, i: nat)
    requires Enabled(job, s, Receive)
    requires Flight(s, s.done[0].idx) <= 1
    ensures Flight(Next(job, s, Receive), i) == Flight(s, i)
    ensures Untranslated(Next(job, s, Receive), i) == Untranslated(s, i)
  {}

  lemma FlushMoves<IN, OUT>(job: Job<IN, OUT>, s: State<OUT>, i: nat)
    requires Enabled(job, s, Flush)
    ensures Flight(s, i) == Flight(Next(job, s, Flush), i) + if i == s.nextIdx && i in s.pending then 1 else 0
    ensures Untranslated(Next(job, s, Flush), i) == Untranslated(s, i)
  {}

  lemma FeedKeeps<IN, OUT>(job: Job<IN, OUT>, s: State<OUT>)
    requires Inv(job, s) && Enabled(job, s, Feed)
    ensures Inv(job, Next(job, s, Feed))
  {
    forall i: nat { FeedMoves(job, s, i); }
  }

  lemma TakeKeeps<IN, OUT>(job: Job<IN, OUT>, s: State<OUT>, w: nat)
    requires Inv(job, s) && Enabled(job, s, Take(w))
    ensures Inv(job, Next(job, s, Take(w)))
  {
    forall i: nat { TakeMoves(job, s, w, i); }
  }

  lemma TranslateKeeps<IN, OUT>(job: Job<IN, OUT>, s: State<OUT>, w: nat)
    requires Inv(job, s) && Enabled(job, s, Translate(w))
    ensures Inv(job, Next(job, s, Translate(w)))
  {
    forall i: nat { TranslateMoves(job, s, w, i); }
  }

  lemma SendKeeps<IN, OUT>(job: Job<IN, OUT>, s: State<OUT>, w: nat)
    requires Inv(job, s) && Enabled(job, s, Send(w))
    ensures Inv(job, Next(job, s, Send(w)))
  {
    forall i: nat { SendMoves(job, s, w, i); }
  }

  lemma QuitKeeps<IN, OUT>(job: Job<IN, OUT>, s: State<OUT>, w: nat)
    requires Inv(job, s) && Enabled(job, s, Quit(w))
    ensures Inv(job, Next(job, s, Quit(w)))
  {
    forall i: nat { QuitMoves(job, s, w, i); }
  }

  lemma ReceiveKeeps<IN, OUT>(job: Job<IN, OUT>, s: State<OUT>)
    requires Inv(job, s) && Enabled(job, s, Receive)
    ensures Inv(job, Next(job, s, Receive))
  {
    forall i: nat { ReceiveMoves(job, s, i); }
  }

  // One turn of the flush loop is one turn of the sequential loop.
  lemma DeliverRefines<IN, OUT>(job: Job<IN, OUT>, s: State<OUT>)
    requires RecordsInv(job, s) && OutcomeInv(job, s) && s.collector.Flushing?
    requires s.nextIdx in s.pending
    ensures OutcomeInv(job, Next(job, s, Flush))
  {
    assert s.pending[s.nextIdx] == RecordOf(job, s.nextIdx);
  }

  lemma FlushKeepsFlight<IN, OUT>(job: Job<IN, OUT>, s: State<OUT>)
    requires FlightInv(job, s) && CallsInv(job, s) && s.collector.Flushing?
    ensures FlightInv(job, Next(job, s, Flush)) && CallsInv(job, Next(job, s, Flush))
  {
    var s' := Next(job, s, Flush);
    forall i: nat
      ensures Flight(s, i) == Flight(s', i) + if i == s.nextIdx && i in s.pending then 1 else 0
      ensures Untranslated(s', i) == Untranslated(s, i)
    {
      FlushMoves(job, s, i);
    }
    if s.nextIdx in s.pending { assert Flight(s, s.nextIdx) == 1; }
  }

  lemma FlushKeeps<IN, OUT>(job: Job<IN, OUT>, s: State<OUT>)
    requires Inv(job, s) && Enabled(job, s, Flush)
    ensures Inv(job, Next(job, s, Flush))
  {
    FlushKeepsFlight(job, s);
    if s.nextIdx in s.pending { DeliverRefines(job, s); }
  }

  lemma ReturnKeeps<IN, OUT>(job: Job<IN, OUT>, s: State<OUT>)
    requires Inv(job, s) && Enabled(job, s, Finish)
    ensures Inv(job, Next(job, s, Finish))
  {
    var s' := Next(job, s, Finish);
    forall i: nat ensures Flight(s', i) == Flight(s, i) && Untranslated(s', i) == Untranslated(s, i) {}
    if s.collector.Receiving? { EverythingArrived(job, s); }
  }

  // When doneChan is closed and nothing was cancelled, the cursor is past the last index.
  lemma EverythingArrived<IN, OUT>(job: Job<IN, OUT>, s: State<OUT>)
    requires Inv(job, s) && s.collector.Receiving? && s.done == [] && s.feeder.Finished?
    ensures s.nextIdx == |job.items|
  {
    InSlotsNone(s.slots, true, s.nextIdx);
    assert s.slots[0].Exited?;
    assert Flight(s, s.nextIdx) == 0;
  }

  // A record of an index beyond those being held is never dropped by the drain loop.
  lemma DrainKeeps<IN, OUT>(job: Job<IN, OUT>, s: State<OUT>)
    requires Inv(job, s) && Enabled(job, s, Drain)
    ensures Inv(job, Next(job, s, Drain))
  {
    var s' := Next(job, s, Drain);
    forall i: nat ensures Flight(s', i) <= Flight(s, i) && Untranslated(s', i) == Untranslated(s, i) {}
  }

  lemma FeederKeeps<IN, OUT>(job: Job<IN, OUT>, s: State<OUT>, a: Action)
    requires a.StopFeeding? || a.CloseDone?
    requires Inv(job, s) && Enabled(job, s, a)
    ensures Inv(job, Next(job, s, a))
  {
    var s' := Next(job, s, a);
    forall i: nat ensures Flight(s', i) == Flight(s, i) && Untranslated(s', i) == Untranslated(s, i) {}
  }

  lemma StepKeepsInv<IN, OUT>(job: Job<IN, OUT>, s: State<OUT>, a: Action)
    requires Inv(job, s) && Enabled(job, s, a)
    ensures Inv(job, Next(job, s, a))
  {
    match a
    case Feed => FeedKeeps(job, s);
    case StopFeeding => FeederKeeps(job, s, a);
    case CloseDone => FeederKeeps(job, s, a);
    case Take(w) => TakeKeeps(job, s, w);
    case Translate(w) => TranslateKeeps(job, s, w);
    case Send(w) => SendKeeps(job, s, w);
    case Quit(w) => QuitKeeps(job, s, w);
    case Receive => ReceiveKeeps(job, s);
    case Flush => FlushKeeps(job, s);
    case Drain => DrainKeeps(job, s);
    case Finish => ReturnKeeps(job, s);
  }

  lemma {:induction false} ExecKeepsInv<IN, OUT>(job: Job<IN, OUT>, s: State<OUT>, schedule: seq<Action>)
    requires Inv(job, s)
    requires Exec(job, s, schedule).Some?
    ensures Inv(job, Exec(job, s, schedule).value)
    decreases |schedule|
  {
    if schedule != [] {
      StepKeepsInv(job, s, schedule[0]);
      ExecKeepsInv(job, Next(job, s, schedule[0]), schedule[1..]);
    }
  }

  // ----- every schedule ends, and only by returning -----

  // How much is left to do for the worker and the index it holds.
  function SlotWork<OUT>(slot: Slot<OUT>): nat {
    match slot
    case Idle => 1
    case Busy(_) => 6
    case Holding(_) => 5
    case Exited => 0
  }

  function SlotsWork<OUT>(slots: seq<Slot<OUT>>): nat {
    if slots == [] then 0 else SlotWork(slots[0]) + SlotsWork(slots[1..])
  }

  ghost function Work<IN, OUT>(job: Job<IN, OUT>, s: State<OUT>): nat
    requires s.next <= |job.items|
  {
    7 * (|job.items| - s.next) + 6 * |s.jobs| + SlotsWork(s.slots) + 3 * |s.done| + |s.pending|
    + (match s.feeder case Feeding => 2 case Waiting => 1 case Finished => 0)
    + (match s.collector case Flushing => 2 case Returned(_) => 0 case _ => 1)
  }

  lemma {:induction false} SlotsWorkUpdate<OUT>(slots: seq<Slot<OUT>>, w: nat, x: Slot<OUT>)
    requires w < |slots|
    ensures SlotsWork(slots[w := x]) + SlotWork(slots[w]) == SlotsWork(slots) + SlotWork(x)
  {
    var slots' := slots[w := x];
    if w == 0 {
      assert slots'[1..] == slots[1..];
    } else {
      assert slots'[1..] == slots[1..][w - 1 := x];
      SlotsWorkUpdate(slots[1..], w - 1, x);
    }
  }

  lemma {:induction false} SlotsWorkIdle<OUT>(slots: seq<Slot<OUT>>)
    requires forall x | x in slots :: x.Idle?
    ensures SlotsWork(slots) == |slots|
  {
    if slots != [] { SlotsWorkIdle(slots[1..]); }
  }

  lemma WorkerDoesWork<IN, OUT>(job: Job<IN, OUT>, s: State<OUT>, a: Action)
    requires a.Take? || a.Translate? || a.Send? || a.Quit?
    requires Enabled(job, s, a) && s.next <= |job.items|
    ensures Work(job, Next(job, s, a)) < Work(job, s)
  {
    SlotsWorkUpdate(s.slots, a.w, Next(job, s, a).slots[a.w]);
  }

  lemma ReceiveDoesWork<IN, OUT>(job: Job<IN, OUT>, s: State<OUT>)
    requires FlightInv(job, s) && Enabled(job, s, Receive)
    ensures Work(job, Next(job, s, Receive)) < Work(job, s)
  {
    var s' := Next(job, s, Receive);
    assert Flight(s, s.done[0].idx) <= 1;
    assert s'.pending.Keys == s.pending.Keys + {s.done[0].idx};
  }

  lemma FlushDoesWork<IN, OUT>(job: Job<IN, OUT>, s: State<OUT>)
    requires FlightInv(job, s) && Enabled(job, s, Flush)
    ensures Work(job, Next(job, s, Flush)) < Work(job, s)
  {
    var s' := Next(job, s, Flush);
    if s.nextIdx in s.pending {
      assert s'.pending.Keys == s.pending.Keys - {s.nextIdx};
    }
  }

  lemma StepDoesWork<IN, OUT>(job: Job<IN, OUT>, s: State<OUT>, a: Action)
    requires Inv(job, s) && Enabled(job, s, a)
    ensures Next(job, s, a).next <= |job.items|
    ensures Work(job, Next(job, s, a)) < Work(job, s)
  {
    if a.Take? || a.Translate? || a.Send? || a.Quit? {
      WorkerDoesWork(job, s, a);
    } else if a.Receive? {
      ReceiveDoesWork(job, s);
    } else if a.Flush? {
      FlushDoesWork(job, s);
    }
  }

  // doneChan never holds a record for every item while a worker still holds one: sends never block.
  lemma SendNeverBlocks<IN, OUT>(job: Job<IN, OUT>, s: State<OUT>, w: nat)
    requires Inv(job, s)
    requires w < |s.slots| && s.slots[w].Holding?
    ensures Enabled(job, s, Send(w))
  {
    var held := s.slots[w].r.idx;
    forall i: nat ensures InRecords(s.done, i) <= if i < |job.items| && i != held then 1 else 0 {
      InSlotsSome(s.slots, true, w, i);
      assert Flight(s, i) <= 1;
    }
    RecordsBound(s.done, |job.items|, held);
  }

  // Distinct records below n, all different from `held` < n, are fewer than n.
  lemma RecordsBound<OUT>(rs: seq<Record<OUT>>, n: nat, held: nat)
    requires held < n
    requires forall i: nat :: InRecords(rs, i) <= if i < n && i != held then 1 else 0
    ensures |rs| < n
  {
    forall r | r in rs ensures r.idx < n {
      InRecordsMember(rs, r);
    }
    TotalIsLength(rs, n);
    TotalBound(rs, n, held);
  }

  function Total<OUT>(rs: seq<Record<OUT>>, n: nat): nat {
    if n == 0 then 0 else InRecords(rs, n - 1) + Total(rs, n - 1)
  }

  lemma {:induction false} InRecordsMember<OUT>(rs: seq<Record<OUT>>, r: Record<OUT>)
    requires r in rs
    ensures InRecords(rs, r.idx) >= 1
  {
    if rs[0] != r { InRecordsMember(rs[1..], r); }
  }

  lemma {:induction false} TotalCons<OUT>(rs: seq<Record<OUT>>, n: nat)
    requires rs != []
    ensures Total(rs, n) == Total(rs[1..], n) + if rs[0].idx < n then 1 else 0
  {
    if n > 0 { TotalCons(rs, n - 1); }
  }

  lemma {:induction false} TotalNone<OUT>(n: nat)
    ensures Total<OUT>([], n) == 0
  {
    if n > 0 { TotalNone<OUT>(n - 1); }
  }

  lemma {:induction false} TotalIsLength<OUT>(rs: seq<Record<OUT>>, n: nat)
    requires forall r | r in rs :: r.idx < n
    ensures Total(rs, n) == |rs|
  {
    if rs == [] {
      TotalNone<OUT>(n);
    } else {
      TotalCons(rs, n);
      TotalIsLength(rs[1..], n);
    }
  }

  lemma {:induction false} TotalBound<OUT>(rs: seq<Record<OUT>>, n: nat, held: nat)
    requires forall i: nat :: InRecords(rs, i) <= if i != held then 1 else 0
    ensures Total(rs, n) <= if held < n then n - 1 else n
  {
    if n > 0 { TotalBound(rs, n - 1, held); }
  }

  // Until the call has returned, some goroutine can take a step.
  lemma NeverStuck<IN, OUT>(job: Job<IN, OUT>, s: State<OUT>) returns (a: Action)
    requires Inv(job, s) && !s.collector.Returned?
    ensures Enabled(job, s, a)
  {
    if s.collector.Flushing? { return Flush; }
    if s.done != [] { return if s.collector.Receiving? then Receive else Drain; }
    if s.feeder.Finished? { return Finish; }
    if w: nat :| w < |s.slots| && s.slots[w].Holding? {
      SendNeverBlocks(job, s, w);
      return Send(w);
    }
    if w: nat :| w < |s.slots| && s.slots[w].Busy? {
      InSlotsSome(s.slots, true, w, s.slots[w].idx);
      assert Flight(s, s.slots[w].idx) <= 1;
      return Translate(w);
    }
    if w: nat :| w < |s.slots| && s.slots[w].Idle? {
      if s.jobs != [] { return Take(w); }
      if !s.feeder.Feeding? { return Quit(w); }
      return if s.next < |job.items| then Feed else StopFeeding;
    }
    assert s.slots[0].Exited?;
    return if s.feeder.Feeding? then StopFeeding else CloseDone;
  }

  lemma {:induction false} ExecDoesWork<IN, OUT>(job: Job<IN, OUT>, s: State<OUT>, schedule: seq<Action>)
    requires Inv(job, s)
    requires Exec(job, s, schedule).Some?
    ensures |schedule| <= Work(job, s)
    decreases |schedule|
  {
    if schedule != [] {
      StepKeepsInv(job, s, schedule[0]);
      StepDoesWork(job, s, schedule[0]);
      ExecDoesWork(job, Next(job, s, schedule[0]), schedule[1..]);
    }
  }

  // ----- the main results -----

  /** Whatever the schedule: every index is translated at most once, what has been
      delivered is the beginning of what the sequential loop delivers, and once the
      call returns it has delivered all of it, returns the loop's error, has translated
      every index up to the stopping one and leaves no goroutine behind. */
  lemma EveryScheduleRefinesTheLoop<IN, OUT>(job: Job<IN, OUT>, workers: nat, schedule: seq<Action>, s: State<OUT>)
    requires 1 <= workers
    requires Exec(job, Start(workers), schedule) == Some(s)
    ensures forall i: nat :: s.calls[i] <= if i < |job.items| then 1 else 0
    ensures s.delivered <= Sequential(job).delivered
    ensures s.collector.Returned? ==>
              && s.delivered == Sequential(job).delivered
              && s.collector.ret == Sequential(job).err
              && (forall i: nat | i < |job.items| && i <= Sequential(job).stop :: s.calls[i] == 1)
              && s.feeder.Finished?
              && (forall w | 0 <= w < |s.slots| :: s.slots[w].Exited?)
  {
    StartInv(job, workers);
    ExecKeepsInv(job, Start(workers), schedule);
    if Active(s) { RunFromExtends(job, s.nextIdx, s.delivered); }
    forall i: nat ensures s.calls[i] <= if i < |job.items| then 1 else 0 {
      assert s.calls[i] + Untranslated(s, i) == if i < s.next then 1 else 0;
    }
    if s.collector.Returned? {
      forall i: nat | i < |job.items| && i <= Sequential(job).stop ensures s.calls[i] == 1 {
        TranslatedWhenReturned(job, s, i);
      }
    }
  }

  lemma TranslatedWhenReturned<IN, OUT>(job: Job<IN, OUT>, s: State<OUT>, i: nat)
    requires Inv(job, s) && s.collector.Returned?
    requires i < |job.items| && i <= Sequential(job).stop
    ensures s.calls[i] == 1
  {
    assert Exited == s.slots[0];
    InSlotsNone(s.slots, false, i);
    if s.cancelled {
      assert i < s.nextIdx <= s.next;
      assert Flight(s, i) == 0;
    }
    assert s.calls[i] + Untranslated(s, i) == 1;
  }

  /** No schedule is longer than a bound fixed by the number of items and workers, and
      none gets stuck before the call has returned: every schedule can be, and eventually
      is, run to a return. */
  lemma EveryScheduleReturns<IN, OUT>(job: Job<IN, OUT>, workers: nat, schedule: seq<Action>, s: State<OUT>)
    requires 1 <= workers
    requires Exec(job, Start(workers), schedule) == Some(s)
    ensures |schedule| <= 7 * |job.items| + workers + 3
    ensures s.collector.Returned? <==> forall a :: !Enabled(job, s, a)
  {
    StartInv(job, workers);
    ExecKeepsInv(job, Start(workers), schedule);
    ExecDoesWork(job, Start(workers), schedule);
    SlotsWorkIdle(Start<OUT>(workers).slots);
    if !s.collector.Returned? {
      var a := NeverStuck(job, s);
    } else {
      forall a ensures !Enabled(job, s, a) {}
    }
  }

  lemma {:induction false} RunToReturn<IN, OUT>(job: Job<IN, OUT>, s: State<OUT>) returns (schedule: seq<Action>)
    requires Inv(job, s)
    ensures Exec(job, s, schedule).Some? && Exec(job, s, schedule).value.collector.Returned?
    decreases Work(job, s)
  {
    if s.collector.Returned? { return []; }
    var a := NeverStuck(job, s);
    StepKeepsInv(job, s, a);
    StepDoesWork(job, s, a);
    var rest := RunToReturn(job, Next(job, s, a));
    schedule := [a] + rest;
  }

  // What a call of TranslateSliceParallel or TranslateMapParallel may deliver and return:
  // the loop's run up to the threshold, and any finished schedule of the pool above it.
  ghost predicate MayReturn<IN, OUT>(job: Job<IN, OUT>, workers: nat, delivered: seq<OUT>, err: Option<Error>) {
    if |job.items| <= PARALLEL_TRANSLATE_THRESHOLD then
      delivered == Sequential(job).delivered && err == Sequential(job).err
    else
      exists schedule ::
        var s := Exec(job, Start<OUT>(workers), schedule);
        s.Some? && s.value.collector == Returned(err) && s.value.delivered == delivered
  }

  /** Both paths have the same observable semantics: the outcome is the sequential one,
      always, and the pool does reach it. */
  lemma ThresholdIsUnobservable<IN, OUT>(job: Job<IN, OUT>, workers: nat, delivered: seq<OUT>, err: Option<Error>)
    requires 1 <= workers
    ensures MayReturn(job, workers, delivered, err) <==>
              delivered == Sequential(job).delivered && err == Sequential(job).err
  {
    if |job.items| > PARALLEL_TRANSLATE_THRESHOLD {
      if MayReturn(job, workers, delivered, err) {
        var schedule :|
          var s := Exec(job, Start<OUT>(workers), schedule);
          s.Some? && s.value.collector == Returned(err) && s.value.delivered == delivered;
        EveryScheduleRefinesTheLoop(job, workers, schedule, Exec(job, Start<OUT>(workers), schedule).value);
      }
      StartInv(job, workers);
      var schedule := RunToReturn(job, Start<OUT>(workers));
      EveryScheduleRefinesTheLoop(job, workers, schedule, Exec(job, Start<OUT>(workers), schedule).value);
    }
  }
}
