/**
 The step machine of one workflow run, as the traces it may leave: which step comes
 next after which action, and how the retry counters develop. Executor answers and
 criteria are unknown, so a step may have several legal continuations.
 */
module ArazzoTrace {
  import opened Common
  import opened ArazzoModel

  const MAX_STEP_TRANSITIONS := 1024

  // What the run does after a step. Fail ends it with an error, End successfully.
  datatype Decision = Advance | Jump(to: nat) | Retry | End | Fail(error: Error)

  // What the selection of an action after a step came to.
  datatype Choice = Broken(error: Error) | Nothing | Chosen(action: Action)

  datatype StepResult = StepResult(stepId: string, success: bool, error: Option<Error>, retries: nat)

  datatype WorkflowResult = WorkflowResult(
    workflowId: string, success: bool, error: Option<Error>, steps: seq<StepResult>)

  // The recorded results, and the executor calls made so far.
  datatype Snapshot = Snapshot(results: map<string, WorkflowResult>, calls: nat)

  // A step's execution, from one state to another, with its error if it failed, and what followed.
  datatype Event = Event(
    idx: nat, before: Snapshot, after: Snapshot, error: Option<Error>, choice: Choice, decision: Decision)
  {
    predicate Success() {
      error.None?
    }
  }

  // ----- selecting an action -----

  function Resolve(components: map<string, Action>, a: Action): Result<Action, Error> {
    if a.reference == "" then Ok(a)
    else if a.reference in components then Ok(components[a.reference])
    else Err(UnresolvedComponent)
  }

  // An action that resolves and whose criteria may turn out not to hold.
  predicate Passable(components: map<string, Action>, a: Action) {
    var r := Resolve(components, a);
    r.Ok? && r.value.criteria != []
  }

  ghost predicate Picks(components: map<string, Action>, actions: seq<Action>, a: Action) {
    exists k :: 0 <= k < |actions| && Resolve(components, actions[k]) == Ok(a)
                && forall j | 0 <= j < k :: Passable(components, actions[j])
  }

  ghost predicate PicksNone(components: map<string, Action>, actions: seq<Action>) {
    forall j | 0 <= j < |actions| :: Passable(components, actions[j])
  }

  // Step actions first, workflow actions if none of them matches.
  ghost predicate Selects(components: map<string, Action>, own: seq<Action>, shared: seq<Action>, a: Action) {
    Picks(components, own, a) || (PicksNone(components, own) && Picks(components, shared, a))
  }

  // Selection breaks at an action that does not resolve, or whose criteria cannot be evaluated.
  ghost predicate Breaks(components: map<string, Action>, actions: seq<Action>, err: Error) {
    exists k :: 0 <= k < |actions| && BreaksAt(components, actions[k], err)
                && forall j | 0 <= j < k :: Passable(components, actions[j])
  }

  predicate BreaksAt(components: map<string, Action>, a: Action, err: Error) {
    match Resolve(components, a)
    case Err(e) => err == e
    case Ok(r) => r.criteria != [] && err == External
  }

  // What selecting may come to: step actions first, workflow actions if none of them matches.
  ghost predicate MayChoose(components: map<string, Action>, own: seq<Action>, shared: seq<Action>, choice: Choice) {
    match choice
    case Broken(err) => Breaks(components, own, err) || (PicksNone(components, own) && Breaks(components, shared, err))
    case Nothing => PicksNone(components, own) && PicksNone(components, shared)
    case Chosen(a) => Selects(components, own, shared, a)
  }

  ghost predicate OnSuccess(c: Components, wf: Workflow, idx: nat, a: Action)
    requires idx < |wf.steps|
  {
    Selects(c.successActions, wf.steps[idx].onSuccess, wf.successActions, a)
  }

  ghost predicate OnFailure(c: Components, wf: Workflow, idx: nat, a: Action)
    requires idx < |wf.steps|
  {
    Selects(c.failureActions, wf.steps[idx].onFailure, wf.failureActions, a)
  }

  // ----- what an action does -----

  predicate GotoWorkflow(a: Action) {
    a.kind == "goto" && a.workflowId != ""
  }

  predicate GotoStep(a: Action) {
    a.kind == "goto" && a.workflowId == "" && a.stepId != ""
  }

  // A missing or non-positive limit counts as 1.
  function Limit(a: Action): nat {
    if a.retryLimit <= 0 then 1 else a.retryLimit
  }

  // The position of the last step with this id.
  function StepIndex(steps: seq<Step>, id: string): Option<nat> {
    if steps == [] then None
    else if steps[|steps| - 1].stepId == id then Some(|steps| - 1)
    else StepIndex(steps[..|steps| - 1], id)
  }

  // ----- traces -----

  // The retry counter of a step id: failures retried since its last success.
  function Retries(wf: Workflow, trace: seq<Event>, id: string): nat {
    if trace == [] then 0
    else
      var e, before := trace[|trace| - 1], Retries(wf, trace[..|trace| - 1], id);
      if e.idx >= |wf.steps| || wf.steps[e.idx].stepId != id then before
      else if e.Success() then 0
      else if e.decision.Retry? then before + 1
      else before
  }

  // What selecting after step idx may come to.
  ghost predicate MaySelect(c: Components, wf: Workflow, idx: nat, ok: bool, choice: Choice)
    requires idx < |wf.steps|
  {
    if ok then MayChoose(c.successActions, wf.steps[idx].onSuccess, wf.successActions, choice)
    else MayChoose(c.failureActions, wf.steps[idx].onFailure, wf.failureActions, choice)
  }

  // The decision, given what was selected. Only a goto to a workflow may go either way, and only the
  // wait before a retry may be interrupted.
  ghost predicate Decided(wf: Workflow, e: Event, retries: nat) {
    match e.choice
    case Broken(err) => e.decision == Fail(err)
    case Nothing => e.decision == if e.error.None? then Advance else Fail(e.error.value)
    case Chosen(a) =>
      if GotoWorkflow(a) then e.decision.Fail? || (e.error.None? && e.decision == End)
      else if GotoStep(a) then
        (match StepIndex(wf.steps, a.stepId)
         case Some(i) => e.decision == Jump(i)
         case None => e.decision == Fail(StepNotInWorkflow))
      else if e.error.None? then e.decision == if a.kind == "end" then End else Advance
      else if a.kind == "retry" && retries < Limit(a) then e.decision == Retry || e.decision == Fail(External)
      else e.decision == Fail(e.error.value)
  }

  ghost predicate Legal(c: Components, wf: Workflow, e: Event, retries: nat) {
    e.idx < |wf.steps| && MaySelect(c, wf, e.idx, e.error.None?, e.choice) && Decided(wf, e, retries)
  }

  predicate Goes(e: Event) {
    e.decision.Advance? || e.decision.Jump? || e.decision.Retry?
  }

  // The step after e; past the last step when e was the last one's success.
  function Target(e: Event): nat
    requires Goes(e)
  {
    match e.decision
    case Advance => e.idx + 1
    case Jump(to) => to
    case Retry => e.idx
  }

  // Where a run stands that has left this trace and goes on.
  function Position(trace: seq<Event>): nat
    requires trace != [] ==> Goes(trace[|trace| - 1])
  {
    if trace == [] then 0 else Target(trace[|trace| - 1])
  }

  ghost predicate ValidTrace(c: Components, wf: Workflow, trace: seq<Event>)
    decreases |trace|
  {
    trace != [] ==>
      var before, e := trace[..|trace| - 1], trace[|trace| - 1];
      && e.idx < |wf.steps|
      && ValidTrace(c, wf, before)
      && (before != [] ==> Goes(before[|before| - 1]))
      && e.idx == Position(before)
      && Legal(c, wf, e, Retries(wf, before, wf.steps[e.idx].stepId))
  }

  // The wait before a retry was interrupted.
  predicate Interrupted(e: Event, retries: nat) {
    && e.error.Some? && e.decision.Fail?
    && e.choice.Chosen? && e.choice.action.kind == "retry" && retries < Limit(e.choice.action)
  }

  // No wait was interrupted.
  predicate Patient(wf: Workflow, trace: seq<Event>)
    decreases |trace|
  {
    trace != [] ==>
      var before, e := trace[..|trace| - 1], trace[|trace| - 1];
      && Patient(wf, before)
      && (e.idx < |wf.steps| ==> !Interrupted(e, Retries(wf, before, wf.steps[e.idx].stepId)))
  }

  lemma OneMorePatient(wf: Workflow, trace: seq<Event>, e: Event)
    requires Patient(wf, trace) && e.idx < |wf.steps|
    requires !Interrupted(e, Retries(wf, trace, wf.steps[e.idx].stepId))
    ensures Patient(wf, trace + [e])
  {
    assert (trace + [e])[..|trace|] == trace;
  }

  // How many steps of the trace called the executor and succeeded.
  function Answered(wf: Workflow, trace: seq<Event>): nat {
    if trace == [] then 0
    else Answered(wf, trace[..|trace| - 1]) + if Answers(wf, trace[|trace| - 1]) then 1 else 0
  }

  predicate Answers(wf: Workflow, e: Event) {
    e.Success() && e.idx < |wf.steps| && wf.steps[e.idx].workflowId == ""
  }

  lemma OneMoreAnswered(wf: Workflow, trace: seq<Event>, e: Event)
    ensures Answered(wf, trace + [e]) == Answered(wf, trace) + if Answers(wf, e) then 1 else 0
  {
    assert (trace + [e])[..|trace|] == trace;
  }

  // ----- bounds on retries and on the length of a run -----

  // caps[i] bounds the limits of the retry actions that step i may select.
  ghost predicate Caps(c: Components, wf: Workflow, caps: seq<nat>) {
    && |caps| == |wf.steps|
    && forall i, a | 0 <= i < |caps| && OnFailure(c, wf, i, a) && a.kind == "retry" :: Limit(a) <= caps[i]
  }

  ghost predicate CapsId(wf: Workflow, caps: seq<nat>, id: string, cap: nat)
    requires |caps| == |wf.steps|
  {
    forall i | 0 <= i < |caps| && wf.steps[i].stepId == id :: caps[i] <= cap
  }

  /** No retry counter ever exceeds the largest limit its step may select, whatever jumps the run makes. */
  lemma {:induction false} RetriesAreCapped(c: Components, wf: Workflow, trace: seq<Event>, caps: seq<nat>,
                                        id: string, cap: nat)
    requires ValidTrace(c, wf, trace) && Caps(c, wf, caps) && CapsId(wf, caps, id, cap)
    ensures Retries(wf, trace, id) <= cap
    decreases |trace|
  {
    if trace != [] {
      var before, e := trace[..|trace| - 1], trace[|trace| - 1];
      RetriesAreCapped(c, wf, before, caps, id, cap);
      if e.decision.Retry? && wf.steps[e.idx].stepId == id {
        assert OnFailure(c, wf, e.idx, e.choice.action) && Limit(e.choice.action) <= caps[e.idx] <= cap;
      }
    }
  }

  // No action that some step may select is a goto to a step.
  ghost predicate NoStepGoto(c: Components, wf: Workflow) {
    forall i, a | 0 <= i < |wf.steps| && (OnSuccess(c, wf, i, a) || OnFailure(c, wf, i, a)) :: !GotoStep(a)
  }

  // One execution and its retries for each of the first n steps.
  function Budget(caps: seq<nat>, n: nat): nat
    requires n <= |caps|
  {
    if n == 0 then 0 else Budget(caps, n - 1) + 1 + caps[n - 1]
  }

  lemma {:induction false} BudgetMonotone(caps: seq<nat>, m: nat, n: nat)
    requires m <= n <= |caps|
    ensures Budget(caps, m) <= Budget(caps, n)
  {
    if m < n { BudgetMonotone(caps, m, n - 1); }
  }

  // Without jumps, only the current step has a retry counter, and the run so far used no
  // more than the budget of the steps behind it and the retries of the current one.
  lemma {:induction false} ForwardProgress(c: Components, wf: Workflow, trace: seq<Event>, caps: seq<nat>)
    requires ValidTrace(c, wf, trace) && Caps(c, wf, caps) && NoStepGoto(c, wf)
    requires trace != [] ==> Goes(trace[|trace| - 1])
    ensures
      var at := Position(trace);
      && at <= |wf.steps|
      && (forall id | at == |wf.steps| || id != wf.steps[at].stepId :: Retries(wf, trace, id) == 0)
      && (if at == |wf.steps| then |trace| <= Budget(caps, at)
          else
            var r := Retries(wf, trace, wf.steps[at].stepId);
            r <= caps[at] && |trace| <= Budget(caps, at) + r)
    decreases |trace|
  {
    if trace != [] {
      var before, e := trace[..|trace| - 1], trace[|trace| - 1];
      ForwardProgress(c, wf, before, caps);
      assert e.choice.Chosen? ==>
               if e.error.None? then OnSuccess(c, wf, e.idx, e.choice.action)
               else OnFailure(c, wf, e.idx, e.choice.action);
      if e.decision.Retry? { assert Limit(e.choice.action) <= caps[e.idx]; }
    }
  }

  /** Without gotos to steps, a run executes at most the sum over its steps of one execution
      and the retries the step may select. */
  lemma {:induction false} RunsAreBounded(c: Components, wf: Workflow, trace: seq<Event>, caps: seq<nat>)
    requires ValidTrace(c, wf, trace) && Caps(c, wf, caps) && NoStepGoto(c, wf)
    ensures |trace| <= Budget(caps, |caps|)
  {
    if trace != [] {
      var before, e := trace[..|trace| - 1], trace[|trace| - 1];
      ForwardProgress(c, wf, before, caps);
      BudgetMonotone(caps, e.idx + 1, |caps|);
    }
  }

  /** The transition cap can only stop a run whose budget exceeds it, or that jumps. */
  lemma {:induction false} CapIsOutOfReach(c: Components, wf: Workflow, trace: seq<Event>, caps: seq<nat>)
    requires ValidTrace(c, wf, trace) && Caps(c, wf, caps) && NoStepGoto(c, wf)
    requires trace != [] ==> Goes(trace[|trace| - 1])
    requires Position(trace) < |wf.steps|
    requires Budget(caps, |caps|) <= 1024
    ensures |trace| < MAX_STEP_TRANSITIONS
  {
    ForwardProgress(c, wf, trace, caps);
    BudgetMonotone(caps, Position(trace) + 1, |caps|);
  }

  // The step results a run with this trace reports.
  ghost predicate Reports(wf: Workflow, trace: seq<Event>, steps: seq<StepResult>) {
    && |steps| == |trace|
    && forall k | 0 <= k < |trace| :: ReportsAt(wf, trace, steps[k], k)
  }

  ghost predicate ReportsAt(wf: Workflow, trace: seq<Event>, step: StepResult, k: int)
    requires 0 <= k < |trace|
  {
    && trace[k].idx < |wf.steps|
    && step.stepId == wf.steps[trace[k].idx].stepId
    && step.success == trace[k].Success() && step.error == trace[k].error
    && step.retries == Retries(wf, trace[..k], step.stepId)
  }

  lemma {:induction false} PrefixIsValid(c: Components, wf: Workflow, trace: seq<Event>, k: nat)
    requires ValidTrace(c, wf, trace) && k <= |trace|
    ensures ValidTrace(c, wf, trace[..k])
    decreases |trace|
  {
    if k < |trace| {
      PrefixIsValid(c, wf, trace[..|trace| - 1], k);
      assert trace[..|trace| - 1][..k] == trace[..k];
    } else {
      assert trace[..k] == trace;
    }
  }

  /** Every reported Retries field is at most the largest limit selectable for its step. */
  lemma ReportedRetriesAreCapped(c: Components, wf: Workflow, trace: seq<Event>, steps: seq<StepResult>,
                                 caps: seq<nat>, k: nat, cap: nat)
    requires ValidTrace(c, wf, trace) && Reports(wf, trace, steps) && Caps(c, wf, caps)
    requires k < |steps| && CapsId(wf, caps, steps[k].stepId, cap)
    ensures steps[k].retries <= cap
  {
    PrefixIsValid(c, wf, trace, k);
    assert ReportsAt(wf, trace, steps[k], k);
    RetriesAreCapped(c, wf, trace[..k], caps, steps[k].stepId, cap);
  }

  lemma ReportsSnoc(wf: Workflow, trace: seq<Event>, steps: seq<StepResult>, e: Event, step: StepResult)
    requires Reports(wf, trace, steps)
    requires e.idx < |wf.steps| && step.stepId == wf.steps[e.idx].stepId
    requires step.success == e.Success() && step.error == e.error
    requires step.retries == Retries(wf, trace, step.stepId)
    ensures Reports(wf, trace + [e], steps + [step])
  {
    var trace', steps' := trace + [e], steps + [step];
    forall k | 0 <= k < |trace'| ensures ReportsAt(wf, trace', steps'[k], k) {
      assert trace'[..k] == trace[..k];
      if k < |trace| { assert ReportsAt(wf, trace, steps[k], k); } else { assert trace[..k] == trace; }
    }
  }

  lemma RetriesSnoc(wf: Workflow, trace: seq<Event>, e: Event, id: string)
    requires e.idx < |wf.steps|
    ensures Retries(wf, trace + [e], id) ==
            if wf.steps[e.idx].stepId != id then Retries(wf, trace, id)
            else if e.Success() then 0
            else Retries(wf, trace, id) + if e.decision.Retry? then 1 else 0
  {
    assert (trace + [e])[..|trace|] == trace;
  }

  lemma TraceSnoc(c: Components, wf: Workflow, trace: seq<Event>, e: Event)
    requires ValidTrace(c, wf, trace)
    requires trace != [] ==> Goes(trace[|trace| - 1])
    requires e.idx == Position(trace) && e.idx < |wf.steps|
    requires Legal(c, wf, e, Retries(wf, trace, wf.steps[e.idx].stepId))
    ensures ValidTrace(c, wf, trace + [e])
  {
    assert (trace + [e])[..|trace|] == trace;
  }

  // A turn of the step loop from the current position extends a run by one event.
  lemma ExtendRun(c: Components, wf: Workflow, trace: seq<Event>, steps: seq<StepResult>, e: Event, step: StepResult)
    requires ValidTrace(c, wf, trace) && Reports(wf, trace, steps)
    requires trace != [] ==> Goes(trace[|trace| - 1])
    requires e.idx == Position(trace) && e.idx < |wf.steps|
    requires step.stepId == wf.steps[e.idx].stepId
    requires step.success == e.Success() && step.error == e.error
    requires step.retries == Retries(wf, trace, step.stepId) && Legal(c, wf, e, step.retries)
    ensures ValidTrace(c, wf, trace + [e]) && Reports(wf, trace + [e], steps + [step])
    ensures forall id :: Retries(wf, trace + [e], id) ==
                         if step.stepId != id then Retries(wf, trace, id)
                         else if e.Success() then 0
                         else Retries(wf, trace, id) + if e.decision.Retry? then 1 else 0
  {
    TraceSnoc(c, wf, trace, e);
    ReportsSnoc(wf, trace, steps, e, step);
    forall id { RetriesSnoc(wf, trace, e, id); }
  }

  // ----- what actions make of a run -----

  ghost predicate NoActions(wf: Workflow) {
    && wf.successActions == [] && wf.failureActions == []
    && forall i | 0 <= i < |wf.steps| :: wf.steps[i].onSuccess == [] && wf.steps[i].onFailure == []
  }

  /** Without actions, a run takes the steps one after the other, as long as they succeed, and fails with
      the error of the first one that does not. */
  lemma {:induction false} WithoutActions(c: Components, wf: Workflow, trace: seq<Event>)
    requires ValidTrace(c, wf, trace) && NoActions(wf)
    ensures forall k | 0 <= k < |trace| ::
              && trace[k].idx == k
              && trace[k].decision == if trace[k].error.None? then Advance else Fail(trace[k].error.value)
    decreases |trace|
  {
    if trace != [] {
      var n := |trace| - 1;
      WithoutActions(c, wf, trace[..n]);
      assert forall k | 0 <= k < n :: trace[..n][k] == trace[k];
    }
  }

  // The step's own first action that comes up, if it has no criteria.
  ghost predicate FirstAction(c: Components, wf: Workflow, idx: nat, ok: bool, a: Action)
    requires idx < |wf.steps|
  {
    var known, own := if ok then c.successActions else c.failureActions,
                      if ok then wf.steps[idx].onSuccess else wf.steps[idx].onFailure;
    && own != [] && a.criteria == []
    && if own[0].reference == "" then own[0] == a
       else own[0].reference in known && known[own[0].reference] == a
  }

  /** A first action without criteria is the one that is taken. */
  lemma FirstActionIsTaken(c: Components, wf: Workflow, e: Event, retries: nat, a: Action)
    requires Legal(c, wf, e, retries) && FirstAction(c, wf, e.idx, e.error.None?, a)
    ensures e.choice == Chosen(a)
    ensures a.kind == "end" ==> e.decision == if e.error.None? then End else Fail(e.error.value)
    ensures a.kind == "goto" && a.workflowId == "" && a.stepId != "" ==>
              e.decision == match StepIndex(wf.steps, a.stepId)
                            case Some(i) => Jump(i)
                            case None => Fail(StepNotInWorkflow)
    ensures a.kind == "retry" && e.error.Some? ==>
              if retries < a.retryLimit || retries == 0 then e.decision == Retry || e.decision == Fail(External)
              else e.decision == Fail(e.error.value)
  {
    var known, own := if e.error.None? then c.successActions else c.failureActions,
                      if e.error.None? then wf.steps[e.idx].onSuccess else wf.steps[e.idx].onFailure;
    assert Resolve(known, own[0]) == Ok(a) && !Passable(known, own[0]);
  }
}
