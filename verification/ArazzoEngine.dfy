/**
 The workflow engine: the step loop of one workflow, re-entered through steps and goto
 actions that name a workflow, and RunAll over all of them in dependency order. The executor is any
 function of the number of the call; whether inputs, criteria and outputs, where there are any, can be
 evaluated and hold is unknown, and so is when a context that can be cancelled is.
 */
module ArazzoEngine {
  import opened Common
  import opened ArazzoModel
  import opened ArazzoTrace
  import opened DependencyGraph
  import TopologicalSort

  const MAX_WORKFLOW_DEPTH := 32

  datatype RunResult = RunResult(workflows: seq<WorkflowResult>, success: bool)

  // What a run of a workflow did, and the state it had come to before its result was recorded.
  datatype Run = Run(trace: seq<Event>, end: Snapshot)

  // A workflow's turn in RunAll: what it found, whether its body was started, the run, and what it left.
  datatype Gate = Gate(before: Snapshot, started: bool, run: Run, after: Snapshot)

  function Reported(results: seq<WorkflowResult>): seq<string> {
    seq(|results|, k requires 0 <= k < |results| => results[k].workflowId)
  }

  // What an action asks of the step loop.
  datatype StepAction = StepAction(endWorkflow: bool, retryCurrent: bool, jumpTo: Option<nat>)

  class ExecutionState {
    var workflowResults: map<string, WorkflowResult>
    var activeWorkflows: set<string>
    var depth: nat
    var calls: nat  // executor calls made so far

    constructor ()
      ensures workflowResults == map[] && activeWorkflows == {} && depth == 0 && calls == 0
    {
      workflowResults, activeWorkflows, depth, calls := map[], {}, 0, 0;
    }
  }

  ghost function Pow(n: nat): (p: nat)
    ensures p >= 1
  {
    if n == 0 then 1 else 1025 * Pow(n - 1)
  }

  // The calls of k turns that each cost no more than unit.
  ghost function Cost(k: nat, unit: nat): nat {
    if k == 0 then 0 else Cost(k - 1, unit) + unit
  }

  lemma {:induction false} CostIsProduct(k: nat, unit: nat)
    ensures Cost(k, unit) == k * unit
  {
    if k > 0 { CostIsProduct(k - 1, unit); }
  }

  lemma {:induction false} CostGrows(k: nat, m: nat, unit: nat)
    requires k <= m
    ensures Cost(k, unit) <= Cost(m, unit)
  {
    if k < m { CostGrows(k, m - 1, unit); }
  }

  // A full run of turns and one nested run by the last action fit into the next power.
  lemma CostFits(k: nat, n: nat)
    requires k <= MAX_STEP_TRANSITIONS
    ensures Cost(k, Pow(n)) + Pow(n) <= Pow(n + 1)
  {
    CostGrows(k, MAX_STEP_TRANSITIONS, Pow(n));
    CostIsProduct(MAX_STEP_TRANSITIONS, Pow(n));
  }

  // After k turns no more calls than k runs of the workflows below.
  ghost predicate Spent(start: nat, calls: nat, k: nat, room: nat) {
    calls <= start + Cost(k, Pow(room))
  }

  // A whole run makes no more calls than the next power.
  ghost predicate Fits(start: nat, calls: nat, room: nat) {
    calls <= start + Pow(room + 1)
  }

  lemma SpentFits(start: nat, calls: nat, k: nat, room: nat)
    requires Spent(start, calls, k, room) && k <= MAX_STEP_TRANSITIONS
    ensures Fits(start, calls, room)
  {
    CostFits(k, room);
  }

  // One more turn, which may have made a second run when it was the last one.
  lemma SpendMore(start: nat, before: nat, calls: nat, k: nat, room: nat, last: bool)
    requires Spent(start, before, k, room) && k < MAX_STEP_TRANSITIONS
    requires calls <= before + Pow(room) + if last then Pow(room) else 0
    ensures if last then Fits(start, calls, room) else Spent(start, calls, k + 1, room)
  {
    CostFits(k + 1, room);
  }

  // No later workflow has the id of this one.
  ghost predicate IsLast(doc: seq<Workflow>, i: nat)
    requires i < |doc|
  {
    forall j | i < j < |doc| :: doc[j].workflowId != doc[i].workflowId
  }

  // The table maps every id of the document to the last workflow that has it.
  ghost predicate Tables(doc: seq<Workflow>, table: map<string, Workflow>) {
    Holds(doc, table) && Covers(doc, table) && PrefersLast(doc, table)
  }

  ghost predicate Holds(doc: seq<Workflow>, table: map<string, Workflow>) {
    forall id | id in table :: table[id] in doc && table[id].workflowId == id
  }

  ghost predicate Covers(doc: seq<Workflow>, table: map<string, Workflow>) {
    forall i | 0 <= i < |doc| :: doc[i].workflowId in table
  }

  ghost predicate PrefersLast(doc: seq<Workflow>, table: map<string, Workflow>)
    requires Covers(doc, table)
  {
    forall i | 0 <= i < |doc| && IsLast(doc, i) :: table[doc[i].workflowId] == doc[i]
  }

  lemma OneMoreHeld(doc: seq<Workflow>, i: nat, table: map<string, Workflow>)
    requires i < |doc| && Holds(doc[..i], table)
    ensures Holds(doc[..i + 1], table[doc[i].workflowId := doc[i]])
  {
    assert doc[..i + 1] == doc[..i] + [doc[i]];
  }

  lemma OneMoreCovered(doc: seq<Workflow>, i: nat, table: map<string, Workflow>)
    requires i < |doc| && Covers(doc[..i], table)
    ensures Covers(doc[..i + 1], table[doc[i].workflowId := doc[i]])
  {
    forall k | 0 <= k <= i ensures doc[k].workflowId in table[doc[i].workflowId := doc[i]] {
      if k < i { assert doc[..i][k] == doc[k]; }
    }
  }

  lemma OneMorePreferred(doc: seq<Workflow>, i: nat, table: map<string, Workflow>)
    requires i < |doc| && Covers(doc[..i], table) && PrefersLast(doc[..i], table)
    ensures Covers(doc[..i + 1], table[doc[i].workflowId := doc[i]])
    ensures PrefersLast(doc[..i + 1], table[doc[i].workflowId := doc[i]])
  {
    OneMoreCovered(doc, i, table);
    var next := doc[..i + 1];
    forall k | 0 <= k < |next| && IsLast(next, k)
      ensures table[doc[i].workflowId := doc[i]][next[k].workflowId] == next[k]
    {
      if k < i { EarlierIsLast(doc, i, k); }
    }
  }

  lemma EarlierIsLast(doc: seq<Workflow>, i: nat, k: nat)
    requires k < i < |doc| && IsLast(doc[..i + 1], k)
    ensures IsLast(doc[..i], k) && doc[..i][k] == doc[k] && doc[k].workflowId != doc[i].workflowId
  {
    assert doc[..i + 1][i] == doc[i];
    assert forall j | k < j < i :: doc[..i + 1][j] == doc[..i][j];
  }

  // The table finds the steps as StepIndex does.
  ghost predicate Indexes(table: map<string, nat>, steps: seq<Step>) {
    forall id :: StepIndex(steps, id) == if id in table then Some(table[id]) else None
  }

  // Results are recorded under their own ids, and fail exactly when they have an error.
  ghost predicate Recorded(results: map<string, WorkflowResult>) {
    forall id | id in results ::
      results[id].workflowId == id && (results[id].success <==> results[id].error.None?)
  }

  // Conditions of the outside world.
  method Unknown() returns (b: bool)
  {
    b := *;
  }

  class Engine {
    const document: seq<Workflow>
    const workflows: map<string, Workflow>
    const components: Components
    // What the executor answers to each call, if there is one.
    const executor: Option<nat -> Option<Error>>
    // Whether the context may be cancelled.
    const cancellable: bool

    ghost predicate Valid() {
      Tables(document, workflows)
    }

    constructor (document: seq<Workflow>, components: Components, executor: Option<nat -> Option<Error>>,
                 cancellable: bool)
      ensures Valid()
      ensures this.document == document && this.components == components
      ensures this.executor == executor && this.cancellable == cancellable
    {
      var m: map<string, Workflow> := map[];
      for i := 0 to |document|
        invariant Tables(document[..i], m)
      {
        OneMoreHeld(document, i, m);
        OneMorePreferred(document, i, m);
        m := m[document[i].workflowId := document[i]];
      }
      assert document[..|document|] == document;
      this.document, this.workflows, this.components := document, m, components;
      this.executor, this.cancellable := executor, cancellable;
    }

    // The active workflows are distinct known ones, and depth counts them.
    ghost predicate Running(state: ExecutionState)
      reads state
    {
      && state.activeWorkflows <= workflows.Keys
      && state.depth == |state.activeWorkflows| <= MAX_WORKFLOW_DEPTH
      && Recorded(state.workflowResults)
    }

    // How many more workflows can be entered below the active ones.
    ghost function Room(state: ExecutionState): nat
      requires Running(state)
      reads state
    {
      SubsetSize(state.activeWorkflows, workflows.Keys);
      var unused := |workflows| - |state.activeWorkflows|;
      if unused < MAX_WORKFLOW_DEPTH - state.depth then unused else MAX_WORKFLOW_DEPTH - state.depth
    }

    // The executor calls a workflow may cause when there is this much room.
    ghost function CallBound(room: nat): nat {
      if room == 0 then 0 else Pow(room)
    }

    // The latest recorded result of the workflow is a success.
    ghost predicate Succeeded(state: ExecutionState, id: string)
      reads state
    {
      id in state.workflowResults && state.workflowResults[id].success
    }

    // What a nested run leaves of the state it was given.
    twostate predicate Resumes(state: ExecutionState)
      reads state
    {
      && state.activeWorkflows == old(state.activeWorkflows)
      && state.depth == old(state.depth)
      && Honest(old(state.workflowResults), state.workflowResults)
      && old(state.calls) <= state.calls
    }

    ghost function Now(state: ExecutionState): Snapshot
      reads state
    {
      Snapshot(state.workflowResults, state.calls)
    }

    // A result that some run of its workflow comes to.
    ghost predicate Genuine(result: WorkflowResult) {
      && result.workflowId in workflows
      && exists trace :: Concludes(workflows[result.workflowId], trace, result.steps, result.error)
    }

    // Recorded results are replaced by those of real runs only, and never dropped.
    ghost predicate Honest(before: map<string, WorkflowResult>, after: map<string, WorkflowResult>) {
      && before.Keys <= after.Keys
      && forall id | id in after :: (id in before && after[id] == before[id]) || Genuine(after[id])
    }

    lemma HonestRecord(before: map<string, WorkflowResult>, now: map<string, WorkflowResult>, result: WorkflowResult,
                       trace: seq<Event>)
      requires Honest(before, now) && result.workflowId in workflows
      requires Concludes(workflows[result.workflowId], trace, result.steps, result.error)
      ensures Honest(before, now[result.workflowId := result])
    {
      assert Genuine(result);
    }

    // Whether the context is cancelled by now.
    method Cancelled() returns (b: bool)
      ensures b ==> cancellable
    {
      b := false;
      if cancellable { b := Unknown(); }
    }

    // ----- nested runs -----

    // Why a workflow is not run: it is active, runs are nested too deep, or it is not known.
    ghost function Refusal(id: string, active: set<string>): Option<Error> {
      if id in active then Some(CircularDependency)
      else if |active| >= 32 then Some(DepthExceeded)
      else if id !in workflows then Some(UnresolvedWorkflow)
      else None
    }

    // A result that some run of its workflow comes to, with so many executor calls.
    ghost predicate Earned(result: WorkflowResult, calls: int) {
      && result.workflowId in workflows
      && (result.success <==> result.error.None?)
      && exists trace ::
           && Concludes(workflows[result.workflowId], trace, result.steps, result.error)
           && Answered(workflows[result.workflowId], trace) <= calls
    }

    // Running a workflow from one state to another: it is refused, and nothing happens, or its result is
    // recorded.
    ghost predicate NestedRun(active: set<string>, id: string, before: Snapshot, after: Snapshot,
                              outcome: Result<WorkflowResult, Error>)
    {
      match Refusal(id, active)
      case Some(x) => outcome == Err(x) && after == before
      case None =>
        && outcome.Ok? && outcome.value.workflowId == id
        && id in after.results && after.results[id] == outcome.value
        && before.calls <= after.calls && Earned(outcome.value, after.calls - before.calls)
    }

    // ----- actions -----

    method FindMatchingAction(known: map<string, Action>,
                              actions: seq<Action>) returns (r: Result<Option<Action>, Error>)
      ensures r.Ok? && r.value.Some? ==> Picks(known, actions, r.value.value)
      ensures r.Ok? && r.value.None? ==> PicksNone(known, actions)
      ensures r.Err? ==> Breaks(known, actions, r.error)
    {
      for i := 0 to |actions|
        invariant forall j | 0 <= j < i :: Passable(known, actions[j])
      {
        var resolved := Resolve(known, actions[i]);
        if resolved.Err? {
          return Err(resolved.error);
        }
        var holds := true;
        if resolved.value.criteria != [] {
          var failed := Unknown();
          if failed { return Err(External); }
          holds := Unknown();
        }
        if holds {
          return Ok(Some(resolved.value));
        }
      }
      return Ok(None);
    }

    // A selection as a choice.
    ghost function ChoiceOf(r: Result<Option<Action>, Error>): Choice {
      match r
      case Err(err) => Broken(err)
      case Ok(None) => Nothing
      case Ok(Some(a)) => Chosen(a)
    }

    method SelectAction(known: map<string, Action>, own: seq<Action>, shared: seq<Action>)
      returns (r: Result<Option<Action>, Error>)
      ensures MayChoose(known, own, shared, ChoiceOf(r))
    {
      r := FindMatchingAction(known, own);
      if r.Err? || r.value.Some? { return; }
      r := FindMatchingAction(known, shared);
    }

    // What processing an action without nested workflow yields.
    ghost function Plain(wf: Workflow, a: Action, retries: nat): Result<StepAction, Error> {
      if a.kind == "end" then Ok(StepAction(true, false, None))
      else if GotoStep(a) then
        (match StepIndex(wf.steps, a.stepId)
         case Some(i) => Ok(StepAction(false, false, Some(i)))
         case None => Err(StepNotInWorkflow))
      else if a.kind == "retry" && retries < Limit(a) then Ok(StepAction(false, true, None))
      else Ok(StepAction(false, false, None))
    }

    // What processing a goto to a workflow yields, given its run.
    ghost function AfterRun(o: Result<WorkflowResult, Error>): Result<StepAction, Error> {
      match o
      case Err(err) => Err(err)
      case Ok(w) => if w.error.Some? then Err(w.error.value) else Ok(StepAction(true, false, None))
    }

    method ProcessAction(wf: Workflow, a: Action, retries: nat, stepIndexById: map<string, nat>, state: ExecutionState)
      returns (r: Result<StepAction, Error>, ghost nested: Result<WorkflowResult, Error>)
      requires Valid() && Running(state)
      requires Indexes(stepIndexById, wf.steps)
      modifies state
      ensures Running(state) && Resumes(state)
      ensures state.calls <= old(state.calls) + if GotoWorkflow(a) then CallBound(old(Room(state))) else 0
      ensures if GotoWorkflow(a) then
                && NestedRun(old(state.activeWorkflows), a.workflowId, old(Now(state)), Now(state), nested)
                && r == AfterRun(nested)
              else r == Plain(wf, a, retries) && Now(state) == old(Now(state))
      decreases Room(state), 1
    {
      nested := Err(External);
      if a.kind == "end" {
        r := Ok(StepAction(true, false, None));
        return;
      } else if a.kind == "goto" {
        if a.workflowId != "" {
          var result, _ := RunWorkflow(a.workflowId, state);
          nested := result;
          if result.Err? { r := Err(result.error); return; }
          if !result.value.success {
            r := Err(if result.value.error.Some? then result.value.error.value else StepFailure);
            return;
          }
          r := Ok(StepAction(true, false, None));
          return;
        }
        if a.stepId != "" {
          if a.stepId !in stepIndexById { r := Err(StepNotInWorkflow); return; }
          r := Ok(StepAction(false, false, Some(stepIndexById[a.stepId])));
          return;
        }
      } else if a.kind == "retry" {
        var limit := a.retryLimit;
        if limit <= 0 { limit := 1; }
        if retries >= limit { r := Ok(StepAction(false, false, None)); return; }
        r := Ok(StepAction(false, true, None));
        return;
      }
      r := Ok(StepAction(false, false, None));
    }

    // ----- steps -----

    // After a successful answer: the criteria may not be met, and the outputs may fail.
    ghost predicate Afterwards(step: Step, error: Option<Error>) {
      || error == None
      || (step.criteria && error == Some(StepFailure))
      || (step.outputs && error == Some(External))
    }

    // What the nested run of a step makes of the step.
    ghost predicate TakesOver(step: Step, o: Result<WorkflowResult, Error>, error: Option<Error>) {
      match o
      case Err(err) => error == Some(err)
      case Ok(w) => if w.error.Some? then error == w.error else Afterwards(step, error)
    }

    // Executing a step, from one state to another: its inputs may fail; otherwise it runs its workflow, or
    // calls the executor, which must be there, once.
    ghost predicate Executes(step: Step, active: set<string>, before: Snapshot, after: Snapshot, error: Option<Error>) {
      || (step.inputs && error == Some(External) && after == before)
      || (step.workflowId != "" && RunsNested(step, active, before, after, error))
      || (step.workflowId == "" && executor.None? && error == Some(External) && after == before)
      || (step.workflowId == "" && executor.Some?
          && after == Snapshot(before.results, before.calls + 1)
          && if executor.value(before.calls).Some? then error == executor.value(before.calls)
             else Afterwards(step, error))
    }

    ghost predicate RunsNested(step: Step, active: set<string>, before: Snapshot, after: Snapshot,
                               error: Option<Error>)
    {
      exists o :: NestedRun(active, step.workflowId, before, after, o) && TakesOver(step, o, error)
    }

    method ExecuteStep(step: Step, state: ExecutionState) returns (result: StepResult)
      requires Valid() && Running(state)
      modifies state
      ensures Running(state) && Resumes(state)
      ensures state.calls <= old(state.calls) + if step.workflowId != "" then CallBound(old(Room(state))) else 1
      ensures result.stepId == step.stepId && (result.success <==> result.error.None?)
      ensures Executes(step, old(state.activeWorkflows), old(Now(state)), Now(state), result.error)
      decreases Room(state), 1
    {
      var error: Option<Error> := None;
      var badInputs := false;
      if step.inputs { badInputs := Unknown(); }
      ghost var o: Result<WorkflowResult, Error> := Err(External);
      if badInputs {
        error := Some(External);
      } else if step.workflowId != "" {
        var nested, _ := RunWorkflow(step.workflowId, state);
        o := nested;
        if nested.Err? {
          error := Some(nested.error);
        } else if !nested.value.success {
          error := nested.value.error;
        }
      } else {
        if executor.None? {
          error := Some(External);
        } else {
          error := executor.value(state.calls);
          state.calls := state.calls + 1;
        }
      }
      if error.None? && step.criteria {
        var criteriaFail := Unknown();
        if criteriaFail { error := Some(StepFailure); }
      }
      if error.None? && step.outputs {
        var outputsFail := Unknown();
        if outputsFail { error := Some(External); }
      }
      assert !badInputs && step.workflowId != "" ==> TakesOver(step, o, error);
      return StepResult(step.stepId, error.None?, error, 0);
    }

    // The retry counter of a step id; a missing entry of retryCounts is 0.
    function CountOf(counts: map<string, nat>, id: string): nat {
      if id in counts then counts[id] else 0
    }

    // What the step loop does with an event.
    ghost predicate Follows(wf: Workflow, retries: nat, e: Event, next: Option<nat>, error: Option<Error>) {
      && Legal(components, wf, e, retries)
      && next == (if Goes(e) then Some(Target(e)) else None)
      && error == (if e.decision.Fail? then Some(e.decision.error) else None)
      && (cancellable || !Interrupted(e, retries))
    }

    // What a goto to a workflow after the event decides, given its run.
    ghost function AfterGoto(e: Event, o: Result<WorkflowResult, Error>): Decision {
      match o
      case Err(err) => Fail(err)
      case Ok(w) =>
        if w.error.Some? then Fail(w.error.value)
        else if e.error.None? then End
        else Fail(e.error.value)
    }

    // The state after an event: that of its step, unless a workflow was run afterwards.
    ghost predicate Closes(active: set<string>, e: Event, end: Snapshot) {
      if e.choice.Chosen? && GotoWorkflow(e.choice.action) then
        exists o :: NestedRun(active, e.choice.action.workflowId, e.after, end, o) && e.decision == AfterGoto(e, o)
      else
        end == e.after
    }

    // Selecting and processing: the outcome, given the choice and the run of a chosen workflow, if any.
    ghost predicate Outcome(wf: Workflow, idx: nat, ok: bool, retries: nat, choice: Choice,
                            r: Result<StepAction, Error>, nested: Result<WorkflowResult, Error>)
      requires idx < |wf.steps|
    {
      && MaySelect(components, wf, idx, ok, choice)
      && match choice
         case Broken(err) => r == Err(err)
         case Nothing => r == Ok(StepAction(false, false, None))
         case Chosen(a) => r == if GotoWorkflow(a) then AfterRun(nested) else Plain(wf, a, retries)
    }

    // Selects an action for step idx and processes it.
    method Act(wf: Workflow, idx: nat, ok: bool, retries: nat, stepIndexById: map<string, nat>, state: ExecutionState)
      returns (r: Result<StepAction, Error>, ghost choice: Choice, ghost nested: Result<WorkflowResult, Error>)
      requires Valid() && Running(state) && idx < |wf.steps|
      requires Indexes(stepIndexById, wf.steps)
      modifies state
      ensures Running(state) && Resumes(state)
      ensures state.calls <= old(state.calls) +
                if choice.Chosen? && GotoWorkflow(choice.action) then CallBound(old(Room(state))) else 0
      ensures Outcome(wf, idx, ok, retries, choice, r, nested)
      ensures if choice.Chosen? && GotoWorkflow(choice.action) then
                NestedRun(old(state.activeWorkflows), choice.action.workflowId, old(Now(state)), Now(state), nested)
              else Now(state) == old(Now(state))
      decreases Room(state), 2
    {
      var step, selected := wf.steps[idx], Ok(None);
      if ok {
        selected := SelectAction(components.successActions, step.onSuccess, wf.successActions);
      } else {
        selected := SelectAction(components.failureActions, step.onFailure, wf.failureActions);
      }
      choice, nested := ChoiceOf(selected), Err(External);
      if selected.Err? { r := Err(selected.error); return; }
      if selected.value.None? { r := Ok(StepAction(false, false, None)); return; }
      r, nested := ProcessAction(wf, selected.value.value, retries, stepIndexById, state);
    }

    // The retry counters are those of the trace.
    ghost predicate Counted(counts: map<string, nat>, wf: Workflow, trace: seq<Event>) {
      forall id :: CountOf(counts, id) == Retries(wf, trace, id)
    }

    // The counters after a step: reset by a success, raised by a retry.
    ghost predicate Recounted(counts0: map<string, nat>, counts: map<string, nat>, stepId: string, e: Event) {
      forall id :: CountOf(counts, id) ==
                   if id != stepId then CountOf(counts0, id)
                   else if e.Success() then 0
                   else CountOf(counts0, id) + if e.decision.Retry? then 1 else 0
    }

    lemma CountsFollow(counts0: map<string, nat>, counts: map<string, nat>, wf: Workflow, trace: seq<Event>,
                       steps: seq<StepResult>, e: Event, step: StepResult)
      requires Counted(counts0, wf, trace) && Recounted(counts0, counts, step.stepId, e)
      requires ValidTrace(components, wf, trace) && Reports(wf, trace, steps)
      requires trace != [] ==> Goes(trace[|trace| - 1])
      requires e.idx == Position(trace) && e.idx < |wf.steps|
      requires step.stepId == wf.steps[e.idx].stepId && step.success == e.Success() && step.error == e.error
      requires step.retries == CountOf(counts0, step.stepId) && Legal(components, wf, e, step.retries)
      ensures ValidTrace(components, wf, trace + [e]) && Reports(wf, trace + [e], steps + [step])
      ensures Counted(counts, wf, trace + [e])
    {
      ExtendRun(components, wf, trace, steps, e, step);
    }

    // Executes step idx, and then selects and processes an action.
    method ExecuteAndAct(wf: Workflow, idx: nat, retries: nat, stepIndexById: map<string, nat>, state: ExecutionState)
      returns (result: StepResult, action: Result<StepAction, Error>, ghost after: Snapshot, ghost choice: Choice,
               ghost nested: Result<WorkflowResult, Error>)
      requires Valid() && Running(state) && idx < |wf.steps|
      requires Indexes(stepIndexById, wf.steps)
      modifies state
      ensures Running(state) && Resumes(state)
      ensures state.calls <= old(state.calls) + Pow(old(Room(state))) +
                if choice.Chosen? && GotoWorkflow(choice.action) then Pow(old(Room(state))) else 0
      ensures result.stepId == wf.steps[idx].stepId && result.retries == retries
      ensures result.success <==> result.error.None?
      ensures Executes(wf.steps[idx], old(state.activeWorkflows), old(Now(state)), after, result.error)
      ensures Outcome(wf, idx, result.success, if result.success then 0 else retries, choice, action, nested)
      ensures if choice.Chosen? && GotoWorkflow(choice.action) then
                NestedRun(old(state.activeWorkflows), choice.action.workflowId, after, Now(state), nested)
              else Now(state) == after
      decreases Room(state), 3
    {
      result := ExecuteStep(wf.steps[idx], state);
      after := Now(state);
      result := result.(retries := retries);
      var counted := if result.success then 0 else retries;
      action, choice, nested := Act(wf, idx, result.success, counted, stepIndexById, state);
    }

    // Runs step idx and follows the action it selects. next is the step to go on with;
    // without it the loop ends, with an error or successfully.
    method TakeTurn(wf: Workflow, idx: nat, counts0: map<string, nat>, stepIndexById: map<string, nat>,
                    state: ExecutionState)
      returns (result: StepResult, counts: map<string, nat>, next: Option<nat>, error: Option<Error>, ghost e: Event)
      requires Valid() && Running(state) && idx < |wf.steps|
      requires Indexes(stepIndexById, wf.steps)
      modifies state
      ensures Running(state) && Resumes(state)
      ensures state.calls <= old(state.calls) + Pow(old(Room(state))) + if Goes(e) then 0 else Pow(old(Room(state)))
      ensures e.idx == idx && e.before == old(Now(state)) && e.error == result.error
      ensures Executes(wf.steps[idx], old(state.activeWorkflows), e.before, e.after, e.error)
      ensures Closes(old(state.activeWorkflows), e, Now(state))
      ensures result.stepId == wf.steps[idx].stepId && result.retries == CountOf(counts0, result.stepId)
      ensures result.success <==> result.error.None?
      ensures Follows(wf, CountOf(counts0, result.stepId), e, next, error)
      ensures Recounted(counts0, counts, result.stepId, e)
      decreases Room(state), 4
    {
      var id := wf.steps[idx].stepId;
      ghost var before, after, choice, nested := Now(state), Now(state), Nothing, Err(External);
      var action, again;
      result, action, after, choice, nested := ExecuteAndAct(wf, idx, CountOf(counts0, id), stepIndexById, state);
      counts := if result.success then counts0[id := 0] else counts0;
      next, error, again, e := Decide(wf, idx, result, action, before, after, choice, nested);
      if again { counts := counts[id := CountOf(counts, id) + 1]; }
      CountsChange(counts0, counts, id, e);
    }

    lemma CountsChange(counts0: map<string, nat>, counts: map<string, nat>, id: string, e: Event)
      requires
        var reset := if e.error.None? then counts0[id := 0] else counts0;
        counts == if e.decision.Retry? then reset[id := CountOf(reset, id) + 1] else reset
      requires e.decision.Retry? ==> e.error.Some?
      ensures Recounted(counts0, counts, id, e)
    {
    }

    // The branches of the step loop on the outcome of an action; whether to try the step again.
    method Decide(wf: Workflow, idx: nat, result: StepResult, action: Result<StepAction, Error>,
                  ghost before: Snapshot, ghost after: Snapshot, ghost choice: Choice,
                  ghost nested: Result<WorkflowResult, Error>)
      returns (next: Option<nat>, error: Option<Error>, again: bool, ghost e: Event)
      requires idx < |wf.steps| && (result.success <==> result.error.None?)
      requires Outcome(wf, idx, result.success, if result.success then 0 else result.retries, choice, action, nested)
      ensures e.idx == idx && e.before == before && e.after == after && e.error == result.error && e.choice == choice
      ensures Follows(wf, result.retries, e, next, error) && again == e.decision.Retry?
      ensures choice.Chosen? && GotoWorkflow(choice.action) ==> e.decision == AfterGoto(e, nested) && !Goes(e)
    {
      again := false;
      ghost var happened := Event(idx, before, after, result.error, choice, End);
      if action.Err? {
        next, error, e := None, Some(action.error), happened.(decision := Fail(action.error));
        return;
      }
      if result.success {
        if action.value.endWorkflow {
          next, error, e := None, None, happened;
        } else if action.value.jumpTo.Some? {
          next, error, e := action.value.jumpTo, None, happened.(decision := Jump(action.value.jumpTo.value));
        } else {
          next, error, e := Some(idx + 1), None, happened.(decision := Advance);
        }
        return;
      }
      if action.value.retryCurrent {
        var interrupted := Cancelled();
        if interrupted {
          next, error, e := None, Some(External), happened.(decision := Fail(External));
        } else {
          next, error, again, e := Some(idx), None, true, happened.(decision := Retry);
        }
        return;
      }
      if !action.value.endWorkflow && action.value.jumpTo.Some? {
        next, error, e := action.value.jumpTo, None, happened.(decision := Jump(action.value.jumpTo.value));
        return;
      }
      var failure := if result.error.Some? then result.error.value else StepFailure;
      next, error, e := None, Some(failure), happened.(decision := Fail(failure));
    }

    method IndexSteps(steps: seq<Step>) returns (m: map<string, nat>)
      ensures Indexes(m, steps)
    {
      m := map[];
      for i := 0 to |steps|
        invariant Indexes(m, steps[..i])
      {
        assert steps[..i + 1][..i] == steps[..i];
        m := m[steps[i].stepId := i];
      }
      assert steps[..|steps|] == steps;
    }

    // Every turn of the trace went on to another one.
    ghost predicate Going(trace: seq<Event>) {
      trace != [] ==> Goes(trace[|trace| - 1])
    }

    // How a run stops: cut short, it was cancelled or stopped by the transition cap at the cap; a
    // trace that fails gives its error; and after the last step or an end action only outputs can fail.
    ghost predicate Stops(wf: Workflow, trace: seq<Event>, error: Option<Error>) {
      if Going(trace) && Position(trace) < |wf.steps| then
        || (cancellable && error == Some(External))
        || (error == Some(CircularDependency) && |trace| == MAX_STEP_TRANSITIONS)
      else if !Going(trace) && trace[|trace| - 1].decision.Fail? then
        error == Some(trace[|trace| - 1].decision.error)
      else
        error == None || (wf.outputs && error == Some(External))
    }

    // What a finished run reports.
    ghost predicate Concludes(wf: Workflow, trace: seq<Event>, steps: seq<StepResult>, error: Option<Error>) {
      && ValidTrace(components, wf, trace) && |trace| <= MAX_STEP_TRANSITIONS
      && Reports(wf, trace, steps)
      && Stops(wf, trace, error)
      && (cancellable || Patient(wf, trace))
    }

    // The states of a run: each step is executed in the state that the one before it left.
    ghost predicate Heard(active: set<string>, wf: Workflow, start: Snapshot, trace: seq<Event>, end: Snapshot)
      decreases |trace|
    {
      if trace == [] then end == start
      else
        var before, e := trace[..|trace| - 1], trace[|trace| - 1];
        && e.idx < |wf.steps|
        && Heard(active, wf, start, before, e.before)
        && Executes(wf.steps[e.idx], active, e.before, e.after, e.error)
        && Closes(active, e, end)
    }

    lemma OneMoreHeard(active: set<string>, wf: Workflow, start: Snapshot, trace: seq<Event>, e: Event, end: Snapshot)
      requires Heard(active, wf, start, trace, e.before) && e.idx < |wf.steps|
      requires Executes(wf.steps[e.idx], active, e.before, e.after, e.error) && Closes(active, e, end)
      ensures Heard(active, wf, start, trace + [e], end)
    {
      assert (trace + [e])[..|trace|] == trace;
    }

    // The trace ends after the last step, or with an end action.
    ghost predicate Finishes(wf: Workflow, trace: seq<Event>) {
      if Going(trace) then Position(trace) >= |wf.steps| else trace[|trace| - 1].decision.End?
    }

    // What the step loop keeps while it goes on.
    ghost predicate Midway(wf: Workflow, stepIdx: nat, counts: map<string, nat>, trace: seq<Event>,
                           steps: seq<StepResult>) {
      && ValidTrace(components, wf, trace) && Reports(wf, trace, steps) && Counted(counts, wf, trace)
      && (cancellable || Patient(wf, trace)) && Going(trace) && stepIdx == Position(trace)
    }

    // A turn leads on, or ends the run.
    lemma AfterTurn(wf: Workflow, idx: nat, counts0: map<string, nat>, counts: map<string, nat>, trace: seq<Event>,
                    steps: seq<StepResult>, e: Event, step: StepResult, next: Option<nat>, error: Option<Error>)
      requires Midway(wf, idx, counts0, trace, steps) && idx < |wf.steps| && |trace| < MAX_STEP_TRANSITIONS
      requires step.stepId == wf.steps[idx].stepId && step.retries == CountOf(counts0, step.stepId)
      requires e.idx == idx && e.error == step.error && (step.success <==> step.error.None?)
      requires Follows(wf, step.retries, e, next, error)
      requires Recounted(counts0, counts, step.stepId, e)
      ensures next.Some? ==> error == None && Midway(wf, next.value, counts, trace + [e], steps + [step])
      ensures next.None? ==> Concludes(wf, trace + [e], steps + [step], error)
    {
      CountsFollow(counts0, counts, wf, trace, steps, e, step);
      if !cancellable { OneMorePatient(wf, trace, e); }
    }

    // One transition of the step loop: a turn, its report and its event.
    method Transit(wf: Workflow, stepIdx: nat, counts0: map<string, nat>, stepIndexById: map<string, nat>,
                   state: ExecutionState, steps0: seq<StepResult>, ghost trace0: seq<Event>, ghost start: Snapshot)
      returns (next: Option<nat>, error: Option<Error>, counts: map<string, nat>, steps: seq<StepResult>,
               ghost trace: seq<Event>)
      requires Valid() && Running(state) && stepIdx < |wf.steps| && |trace0| < MAX_STEP_TRANSITIONS
      requires Midway(wf, stepIdx, counts0, trace0, steps0) && Spent(start.calls, state.calls, |trace0|, Room(state))
      requires Heard(state.activeWorkflows, wf, start, trace0, Now(state))
      requires Indexes(stepIndexById, wf.steps)
      modifies state
      ensures Running(state) && Resumes(state)
      ensures if next.Some? then Spent(start.calls, state.calls, |trace0| + 1, old(Room(state)))
              else Fits(start.calls, state.calls, old(Room(state)))
      ensures |trace| == |trace0| + 1
      ensures Heard(state.activeWorkflows, wf, start, trace, Now(state))
      ensures next.Some? ==> error == None && Midway(wf, next.value, counts, trace, steps)
      ensures next.None? ==> Concludes(wf, trace, steps, error)
      decreases Room(state), 5
    {
      var step: StepResult;
      ghost var e: Event;
      step, counts, next, error, e := TakeTurn(wf, stepIdx, counts0, stepIndexById, state);
      AfterTurn(wf, stepIdx, counts0, counts, trace0, steps0, e, step, next, error);
      steps, trace := steps0 + [step], trace0 + [e];
      OneMoreHeard(state.activeWorkflows, wf, start, trace0, e, Now(state));
      SpendMore(start.calls, old(state.calls), state.calls, |trace0|, old(Room(state)), next.None?);
    }

    // The step loop.
    method RunSteps(wf: Workflow, state: ExecutionState)
      returns (error: Option<Error>, steps: seq<StepResult>, ghost trace: seq<Event>)
      requires Valid() && Running(state)
      modifies state
      ensures Running(state) && Resumes(state)
      ensures Fits(old(state.calls), state.calls, old(Room(state)))
      ensures Heard(state.activeWorkflows, wf, old(Now(state)), trace, Now(state))
      ensures Concludes(wf, trace, steps, error)
      decreases Room(state), 6
    {
      ghost var room, start := Room(state), Now(state);
      error, steps, trace := None, [], [];
      var stepIndexById := IndexSteps(wf.steps);
      var stepIdx: nat, stepTransitions: nat, counts: map<string, nat> := 0, 0, map[];
      while stepIdx < |wf.steps|
        invariant Running(state) && Resumes(state)
        invariant Spent(start.calls, state.calls, stepTransitions, room)
        invariant Heard(state.activeWorkflows, wf, start, trace, Now(state))
        invariant stepTransitions == |trace| <= MAX_STEP_TRANSITIONS
        invariant Midway(wf, stepIdx, counts, trace, steps)
        invariant error == None
        decreases MAX_STEP_TRANSITIONS - stepTransitions
      {
        SpentFits(start.calls, state.calls, stepTransitions, room);
        var cancelled := Cancelled();
        if cancelled { return Some(External), steps, trace; }
        if stepTransitions + 1 > MAX_STEP_TRANSITIONS { return Some(CircularDependency), steps, trace; }
        stepTransitions := stepTransitions + 1;
        var next;
        next, error, counts, steps, trace := Transit(wf, stepIdx, counts, stepIndexById, state, steps, trace, start);
        if next.None? { return; }
        stepIdx := next.value;
      }
      SpentFits(start.calls, state.calls, stepTransitions, room);
    }

    // A workflow becomes active, one level deeper.
    method Enter(workflowId: string, state: ExecutionState)
      requires Running(state) && workflowId in workflows
      requires workflowId !in state.activeWorkflows && state.depth < MAX_WORKFLOW_DEPTH
      modifies state
      ensures state.workflowResults == old(state.workflowResults) && state.calls == old(state.calls)
      ensures state.activeWorkflows == old(state.activeWorkflows) + {workflowId}
      ensures state.depth == old(state.depth) + 1
      ensures Running(state) && Room(state) == old(Room(state)) - 1
    {
      SubsetSize(state.activeWorkflows + {workflowId}, workflows.Keys);
      state.activeWorkflows := state.activeWorkflows + {workflowId};
      state.depth := state.depth + 1;
    }

    // The result is recorded, and the workflow no longer active.
    method Leave(result: WorkflowResult, state: ExecutionState)
      requires Running(state) && result.workflowId in state.activeWorkflows
      requires result.success <==> result.error.None?
      modifies state
      ensures state.workflowResults == old(state.workflowResults)[result.workflowId := result]
      ensures state.activeWorkflows == old(state.activeWorkflows) - {result.workflowId}
      ensures state.depth == old(state.depth) - 1 && state.calls == old(state.calls)
      ensures Running(state)
    {
      state.workflowResults := state.workflowResults[result.workflowId := result];
      state.activeWorkflows := state.activeWorkflows - {result.workflowId};
      state.depth := state.depth - 1;
    }

    // A successful executor step is one executor call more.
    lemma {:induction false} AnsweredIsCalled(active: set<string>, wf: Workflow, start: Snapshot, trace: seq<Event>,
                                              end: Snapshot)
      requires Heard(active, wf, start, trace, end)
      ensures end.calls >= start.calls + Answered(wf, trace)
      decreases |trace|
    {
      if trace != [] {
        var before, e := trace[..|trace| - 1], trace[|trace| - 1];
        AnsweredIsCalled(active, wf, start, before, e.before);
      }
    }

    /** Fails, changing nothing, exactly for an active id, at the depth limit or for an unknown
        id; otherwise leaves a legal trace of executed steps, records its result, and always restores
        the active set and the depth. The executor calls are bounded by the room below. */
    method RunWorkflow(workflowId: string, state: ExecutionState)
      returns (r: Result<WorkflowResult, Error>, ghost run: Run)
      requires Valid() && Running(state)
      modifies state
      ensures Running(state) && Resumes(state)
      ensures state.calls <= old(state.calls) + CallBound(old(Room(state)))
      ensures NestedRun(old(state.activeWorkflows), workflowId, old(Now(state)), Now(state), r)
      ensures r.Ok? ==> RanTo(old(state.activeWorkflows), r.value, old(Now(state)), run, Now(state))
      decreases Room(state), 0
    {
      run := Run([], Now(state));
      if workflowId in state.activeWorkflows { return Err(CircularDependency), run; }
      if state.depth >= MAX_WORKFLOW_DEPTH { return Err(DepthExceeded), run; }
      if workflowId !in workflows { return Err(UnresolvedWorkflow), run; }

      Enter(workflowId, state);
      assert CallBound(old(Room(state))) == Pow(Room(state) + 1);
      ghost var entered := Now(state);
      var result;
      result, run := RunBody(workflowId, state);
      RanIsNested(old(state.activeWorkflows), result, entered, run);
      Leave(result, state);
      return Ok(result), run;
    }

    // The steps and the outputs of an active workflow, whose result is not recorded yet.
    method RunBody(workflowId: string, state: ExecutionState) returns (result: WorkflowResult, ghost run: Run)
      requires Valid() && Running(state) && workflowId in workflows
      modifies state
      ensures Running(state) && Resumes(state)
      ensures Fits(old(state.calls), state.calls, old(Room(state)))
      ensures result.workflowId == workflowId && run.end == Now(state)
      ensures Finished(old(state.activeWorkflows), result, old(Now(state)), run)
      decreases Room(state), 7
    {
      var error, steps;
      ghost var trace;
      error, steps, trace := RunSteps(workflows[workflowId], state);
      run := Run(trace, Now(state));
      if error.None? && workflows[workflowId].outputs {
        var outputsFail := Unknown();
        if outputsFail { error := Some(External); }
      }
      result := WorkflowResult(workflowId, error.None?, error, steps);
    }

    // A run among these active workflows, of which the result tells.
    ghost predicate Finished(active: set<string>, result: WorkflowResult, before: Snapshot, run: Run) {
      && result.workflowId in workflows && (result.success <==> result.error.None?)
      && var wf := workflows[result.workflowId];
         && Concludes(wf, run.trace, result.steps, result.error)
         && (result.success ==> Finishes(wf, run.trace))
         && Heard(active, wf, before, run.trace, run.end)
    }

    lemma RanIsNested(active: set<string>, result: WorkflowResult, before: Snapshot, run: Run)
      requires Finished(active + {result.workflowId}, result, before, run) && Honest(before.results, run.end.results)
      requires Refusal(result.workflowId, active).None?
      ensures
        var after := Snapshot(run.end.results[result.workflowId := result], run.end.calls);
        && NestedRun(active, result.workflowId, before, after, Ok(result))
        && RanTo(active, result, before, run, after)
    {
      HonestRecord(before.results, run.end.results, result, run.trace);
      AnsweredIsCalled(active + {result.workflowId}, workflows[result.workflowId], before, run.trace, run.end);
      assert Earned(result, run.end.calls - before.calls);
    }

    // A run from one state to another, of which the result tells, and its recording.
    ghost predicate RanTo(active: set<string>, result: WorkflowResult, before: Snapshot, run: Run, after: Snapshot) {
      && Finished(active + {result.workflowId}, result, before, run)
      && Honest(before.results, after.results)
      && after == Snapshot(run.end.results[result.workflowId := result], run.end.calls)
    }

    // How deep runs can be nested.
    ghost function Levels(): nat {
      if |workflows| < MAX_WORKFLOW_DEPTH then |workflows| else MAX_WORKFLOW_DEPTH
    }

    /** A single workflow, run on a fresh state: only an unknown id is refused, and the executor
        is called at most 1025^n times, n being the number of workflows or 32 if that is less. */
    method RunWorkflowById(workflowId: string)
      returns (r: Result<WorkflowResult, Error>, ghost run: Run, ghost end: Snapshot)
      requires Valid()
      ensures r.Err? <==> workflowId !in workflows
      ensures r.Err? ==> r.error == UnresolvedWorkflow && end == Snapshot(map[], 0)
      ensures r.Ok? ==> r.value.workflowId == workflowId && RanTo({}, r.value, Snapshot(map[], 0), run, end)
      ensures end.calls <= Pow(Levels())
    {
      var state := new ExecutionState();
      ghost var room := Room(state);
      assert room == Levels();
      r, run := RunWorkflow(workflowId, state);
      end := Now(state);
      assert end.calls <= Pow(room);
    }

    // ----- what the executor says -----

    // All steps call the executor, and nothing has to be evaluated.
    ghost predicate OnlyCalls(wf: Workflow) {
      && executor.Some? && !wf.outputs && NoActions(wf)
      && forall i | 0 <= i < |wf.steps| ::
           wf.steps[i].workflowId == "" && !wf.steps[i].inputs && !wf.steps[i].criteria && !wf.steps[i].outputs
    }

    // Event k of a run of such steps: step k, with the executor's answer to call k.
    ghost predicate IsCall(trace: seq<Event>, first: nat, k: nat)
      requires executor.Some? && k < |trace|
    {
      && trace[k].idx == k && trace[k].error == executor.value(first + k)
      && trace[k].decision == if trace[k].error.None? then Advance else Fail(trace[k].error.value)
    }

    lemma {:induction false} StepsAreCalls(active: set<string>, wf: Workflow, start: Snapshot, trace: seq<Event>,
                                           end: Snapshot)
      requires OnlyCalls(wf) && ValidTrace(components, wf, trace) && Heard(active, wf, start, trace, end)
      ensures end == Snapshot(start.results, start.calls + |trace|)
      ensures forall k: nat | k < |trace| :: IsCall(trace, start.calls, k)
      decreases |trace|
    {
      WithoutActions(components, wf, trace);
      if trace != [] {
        var n := |trace| - 1;
        StepsAreCalls(active, wf, start, trace[..n], trace[n].before);
        forall k: nat | k < |trace| ensures IsCall(trace, start.calls, k) {
          if k < n { assert IsCall(trace[..n], start.calls, k); }
        }
      }
    }

    // What the result says of step k: its id, and the executor's answer to call k.
    ghost predicate TellsAnswer(wf: Workflow, steps: seq<StepResult>, first: nat, k: nat)
      requires executor.Some?
    {
      && k < |steps| && k < |wf.steps|
      && steps[k].stepId == wf.steps[k].stepId && steps[k].error == executor.value(first + k)
    }

    /** A workflow of plain executor steps, with at most 1024 of them and a context that is not cancelled,
        does what the executor says: it takes the steps in order, each with one call, up to the first
        answer that is an error, and that is the error of the workflow. */
    lemma CallsDecide(active: set<string>, result: WorkflowResult, before: Snapshot, run: Run, after: Snapshot)
      requires RanTo(active, result, before, run, after) && !cancellable
      requires OnlyCalls(workflows[result.workflowId]) && |workflows[result.workflowId].steps| <= 1024
      ensures
        var n, wf := |result.steps|, workflows[result.workflowId];
        && n <= |wf.steps| && after.calls == before.calls + n
        && (forall k: nat | k < n :: TellsAnswer(wf, result.steps, before.calls, k))
        && (forall k: nat | k < n - 1 :: result.steps[k].error == None)
        && (if n == 0 || result.steps[n - 1].error == None then n == |wf.steps| && result.error == None
            else result.error == result.steps[n - 1].error)
    {
      var wf, trace := workflows[result.workflowId], run.trace;
      StepsAreCalls(active + {result.workflowId}, wf, before, trace, run.end);
      CallsAreTold(wf, trace, result.steps, before.calls);
      LastCall(wf, trace, before.calls, result.error);
      if trace != [] { assert TellsAnswer(wf, result.steps, before.calls, |trace| - 1); }
    }

    lemma CallsAreTold(wf: Workflow, trace: seq<Event>, steps: seq<StepResult>, first: nat)
      requires executor.Some? && ValidTrace(components, wf, trace) && Reports(wf, trace, steps)
      requires forall k: nat | k < |trace| :: IsCall(trace, first, k)
      ensures |trace| <= |wf.steps| && forall k: nat | k < |trace| :: TellsAnswer(wf, steps, first, k)
      ensures forall k: nat | k < |trace| - 1 :: steps[k].error == None
    {
      GoingBefore(wf, trace);
      forall k: nat | k < |trace| ensures TellsAnswer(wf, steps, first, k) {
        assert ReportsAt(wf, trace, steps[k], k) && IsCall(trace, first, k);
      }
      forall k: nat | k < |trace| - 1 ensures steps[k].error == None {
        assert Goes(trace[k]) && IsCall(trace, first, k) && TellsAnswer(wf, steps, first, k);
      }
      if trace != [] { assert IsCall(trace, first, |trace| - 1); }
    }

    // How a run of such steps stops.
    lemma LastCall(wf: Workflow, trace: seq<Event>, first: nat, error: Option<Error>)
      requires OnlyCalls(wf) && !cancellable && Stops(wf, trace, error) && |trace| <= |wf.steps| <= MAX_STEP_TRANSITIONS
      requires forall k: nat | k < |trace| :: IsCall(trace, first, k)
      ensures var n := |trace|;
              if n == 0 || executor.value(first + (n - 1)) == None then n == |wf.steps| && error == None
              else error == executor.value(first + (n - 1))
    {
      if trace != [] { assert IsCall(trace, first, |trace| - 1); }
    }

    // All events but the last go on.
    lemma {:induction false} GoingBefore(wf: Workflow, trace: seq<Event>)
      requires ValidTrace(components, wf, trace)
      ensures forall k | 0 <= k < |trace| - 1 :: Goes(trace[k])
      decreases |trace|
    {
      if trace != [] {
        var n := |trace| - 1;
        GoingBefore(wf, trace[..n]);
        assert forall k | 0 <= k < n :: trace[..n][k] == trace[k];
      }
    }

    // ----- all workflows -----

    // The first dependency that has not succeeded is missing, or has failed.
    ghost predicate Blames(ids: seq<string>, results: map<string, WorkflowResult>, error: Error) {
      exists k ::
        && 0 <= k < |ids| && !Passes(ids[k], results)
        && (forall j | 0 <= j < k :: Passes(ids[j], results))
        && error == if ids[k] in results then DependencyFailed else UnresolvedWorkflow
    }

    ghost predicate Passes(id: string, results: map<string, WorkflowResult>) {
      id in results && results[id].success
    }

    method DependencyError(wf: Workflow, results: map<string, WorkflowResult>) returns (error: Option<Error>)
      ensures error.None? <==> forall d | d in wf.dependsOn :: d in results && results[d].success
      ensures error.Some? ==> Blames(wf.dependsOn, results, error.value)
    {
      for i := 0 to |wf.dependsOn|
        invariant forall j | 0 <= j < i :: Passes(wf.dependsOn[j], results)
      {
        var dep := wf.dependsOn[i];
        if dep !in results { return Some(UnresolvedWorkflow); }
        if !results[dep].success { return Some(DependencyFailed); }
      }
      return None;
    }

    // The graph of the document and the engine's own table agree on unique ids.
    lemma TableIsGraph(id: string)
      requires Valid() && UniqueIds(document)
      ensures id in workflows <==> id in GraphOf(document)
      ensures id in workflows ==> GraphOf(document)[id] == workflows[id].dependsOn
    {
      GraphOfKeys(document, id);
      if id in workflows {
        var i :| 0 <= i < |document| && document[i] == workflows[id];
        GraphOfUnique(document, i);
      }
    }

    // Every id reported so far has a recorded result, so no known dependency of the next id is missing.
    lemma KnownDependenciesRecorded(order: seq<string>, k: nat, results: map<string, WorkflowResult>)
      requires Valid() && UniqueIds(document) && k < |order| && order[k] in workflows
      requires DependenciesFirst(GraphOf(document), order)
      requires forall j | 0 <= j < k :: order[j] in results
      ensures forall d | d in workflows[order[k]].dependsOn && d in workflows :: d in results
    {
      forall d | d in workflows[order[k]].dependsOn && d in workflows ensures d in results {
        TableIsGraph(order[k]);
        TableIsGraph(d);
        assert Edge(GraphOf(document), order[k], d);
      }
    }

    // No dependency that is known is missing when a workflow's turn comes.
    ghost predicate GateInv(id: string, gate: Gate) {
      id in workflows && forall d | d in workflows[id].dependsOn && d in workflows :: d in gate.before.results
    }

    // What a turn is: a body is started exactly when the latest recorded results of all dependencies
    // are successes. A started body leaves a legal trace, which the reported result concludes. One
    // that is not started reports no step, its error names the dependency's failure, and nothing else
    // happens. The reported result is the one recorded, and all others are as before or genuine.
    ghost predicate GateTells(result: WorkflowResult, gate: Gate) {
      && (result.success <==> result.error.None?)
      && result.workflowId in gate.after.results && gate.after.results[result.workflowId] == result
      && if result.workflowId !in workflows then
           result.error == Some(UnresolvedWorkflow) && result.steps == [] && OnlyRecords(result, gate)
         else
           var wf := workflows[result.workflowId];
           && (gate.started <==> AllSucceeded(wf.dependsOn, gate.before.results))
           && if gate.started then RanTo({}, result, gate.before, gate.run, gate.after)
              else NotStarted(wf, result, gate)
    }

    ghost predicate AllSucceeded(ids: seq<string>, results: map<string, WorkflowResult>) {
      forall d | d in ids :: d in results && results[d].success
    }

    ghost predicate OnlyRecords(result: WorkflowResult, gate: Gate) {
      gate.after == Snapshot(gate.before.results[result.workflowId := result], gate.before.calls)
    }

    ghost predicate NotStarted(wf: Workflow, result: WorkflowResult, gate: Gate) {
      && OnlyRecords(result, gate) && result.steps == []
      && result.error.Some? && Blames(wf.dependsOn, gate.before.results, result.error.value)
    }

    // The turns follow one another, from the first state to the last.
    ghost predicate Chained(start: Snapshot, gates: seq<Gate>, end: Snapshot) {
      if gates == [] then start == end
      else
        && gates[0].before == start && gates[|gates| - 1].after == end
        && forall k | 0 <= k < |gates| - 1 :: gates[k + 1].before == gates[k].after
    }

    lemma OneMoreChained(start: Snapshot, gates: seq<Gate>, now: Snapshot, gate: Gate)
      requires Chained(start, gates, now) && gate.before == now
      ensures Chained(start, gates + [gate], gate.after)
    {
    }

    ghost predicate AllTell(results: seq<WorkflowResult>, gates: seq<Gate>) {
      && |gates| == |results|
      && forall k | 0 <= k < |gates| :: GateTells(results[k], gates[k])
    }

    ghost predicate AllGated(ids: seq<string>, gates: seq<Gate>) {
      && |gates| == |ids|
      && forall k | 0 <= k < |gates| :: GateInv(ids[k], gates[k])
    }

    ghost predicate AllSucceed(results: seq<WorkflowResult>) {
      forall k | 0 <= k < |results| :: results[k].success
    }

    lemma OneMoreTells(results: seq<WorkflowResult>, gates: seq<Gate>, result: WorkflowResult, gate: Gate)
      requires AllTell(results, gates) && GateTells(result, gate)
      ensures AllTell(results + [result], gates + [gate])
      ensures AllSucceed(results + [result]) <==> AllSucceed(results) && result.success
    {
      var all := results + [result];
      assert all[..|results|] == results && all[|results|] == result;
      assert forall k | 0 <= k < |results| :: results[k] == all[k];
    }

    lemma OneMoreGated(ids: seq<string>, gates: seq<Gate>, id: string, gate: Gate)
      requires AllGated(ids, gates) && GateInv(id, gate)
      ensures AllGated(ids + [id], gates + [gate])
    {
    }

    /** Gates the workflow, runs it, and records and reports a result, all as `GateTells` says. */
    method RunOne(id: string, state: ExecutionState) returns (result: WorkflowResult, ghost gate: Gate)
      requires Valid() && Running(state) && state.activeWorkflows == {}
      modifies state
      ensures Running(state) && state.activeWorkflows == {}
      ensures old(state.workflowResults.Keys) <= state.workflowResults.Keys
      ensures result.workflowId == id && GateTells(result, gate)
      ensures gate.before == old(Now(state)) && gate.after == Now(state)
      ensures state.calls <= old(state.calls) + CallBound(old(Room(state)))
    {
      ghost var before, done := Now(state), Run([], Now(state));
      if id in workflows {
        var depError := DependencyError(workflows[id], state.workflowResults);
        if depError.Some? {
          result := WorkflowResult(id, false, depError, []);
          state.workflowResults := state.workflowResults[id := result];
          gate := Gate(before, false, done, Now(state));
          return;
        }
      }
      var run;
      run, done := RunWorkflow(id, state);
      if run.Err? {
        result := WorkflowResult(id, false, Some(run.error), []);
        state.workflowResults := state.workflowResults[id := result];
      } else {
        result := run.value;
      }
      gate := Gate(before, true, done, Now(state));
    }

    // The order can be trusted when the ids are unique.
    ghost predicate Trusted(order: seq<string>) {
      UniqueIds(document) ==>
        Elements(order) == GraphOf(document).Keys && DependenciesFirst(GraphOf(document), order)
    }

    // The body of RunAll's loop.
    method TakeNext(order: seq<string>, k: nat, state: ExecutionState)
      returns (result: WorkflowResult, ghost gate: Gate)
      requires Valid() && Running(state) && state.activeWorkflows == {} && k < |order|
      requires forall j | 0 <= j < k :: order[j] in state.workflowResults
      requires Trusted(order)
      modifies state
      ensures Running(state) && state.activeWorkflows == {}
      ensures forall j | 0 <= j <= k :: order[j] in state.workflowResults
      ensures result.workflowId == order[k] && GateTells(result, gate)
      ensures gate.before == old(Now(state)) && gate.after == Now(state)
      ensures UniqueIds(document) ==> GateInv(order[k], gate)
    {
      if UniqueIds(document) {
        TableIsGraph(order[k]);
        assert order[k] in Elements(order);
        KnownDependenciesRecorded(order, k, state.workflowResults);
      }
      result, gate := RunOne(order[k], state);
    }

    // What the loop keeps after the first k workflows of the order.
    ghost predicate Told(order: seq<string>, k: nat, results: seq<WorkflowResult>, gates: seq<Gate>, success: bool)
      requires k <= |order|
    {
      && Reported(results) == order[..k]
      && (success <==> AllSucceed(results))
      && AllTell(results, gates)
      && (UniqueIds(document) ==> AllGated(order[..k], gates))
    }

    lemma OneMoreTold(order: seq<string>, k: nat, results: seq<WorkflowResult>, gates: seq<Gate>, success: bool,
                      result: WorkflowResult, gate: Gate)
      requires k < |order| && Told(order, k, results, gates, success)
      requires result.workflowId == order[k] && GateTells(result, gate)
      requires UniqueIds(document) ==> GateInv(order[k], gate)
      ensures Told(order, k + 1, results + [result], gates + [gate], success && result.success)
    {
      OneMoreTells(results, gates, result, gate);
      if UniqueIds(document) { OneMoreGated(order[..k], gates, order[k], gate); }
      OneMoreReported(order, k, results, result);
    }

    lemma OneMoreReported(order: seq<string>, k: nat, results: seq<WorkflowResult>, result: WorkflowResult)
      requires k < |order| && Reported(results) == order[..k] && result.workflowId == order[k]
      ensures order[..k + 1] == order[..k] + [order[k]] == Reported(results + [result])
    {
    }

    // RunAll's loop.
    method RunInOrder(order: seq<string>, state: ExecutionState)
      returns (r: Result<RunResult, Error>, ghost gates: seq<Gate>)
      requires Valid() && Running(state) && state.activeWorkflows == {} && Trusted(order)
      modifies state
      ensures Running(state) && state.activeWorkflows == {}
      ensures Chained(old(Now(state)), gates, Now(state))
      ensures r.Err? ==> cancellable && r.error == External
      ensures r.Ok? ==>
                && Reported(r.value.workflows) == order
                && (r.value.success <==> AllSucceed(r.value.workflows))
                && AllTell(r.value.workflows, gates)
                && (UniqueIds(document) ==> AllGated(order, gates))
    {
      var success := true;
      var results: seq<WorkflowResult> := [];
      gates := [];
      for k := 0 to |order|
        invariant Running(state) && state.activeWorkflows == {}
        invariant forall j | 0 <= j < k :: order[j] in state.workflowResults
        invariant Told(order, k, results, gates, success)
        invariant Chained(old(Now(state)), gates, Now(state))
      {
        var cancelled := Cancelled();
        if cancelled { return Err(External), gates; }
        ghost var now := Now(state);
        var result, gate := TakeNext(order, k, state);
        OneMoreTold(order, k, results, gates, success, result, gate);
        OneMoreChained(old(Now(state)), gates, now, gate);
        gates, results := gates + [gate], results + [result];
        success := success && result.success;
      }
      assert order[..|order|] == order;
      return Ok(RunResult(results, success)), gates;
    }

    /** Unless cancelled: the circular error exactly on a cycle, and otherwise one result per
        workflow, in an order that puts dependencies first; overall success exactly when all
        succeeded. The turns lead from the empty state to the final one, and each is as `GateTells`
        says: a body is started exactly when the results recorded by then of all its dependencies are
        successes. No known dependency is ever found missing. */
    method RunAll(state: ExecutionState)
      returns (r: Result<RunResult, Error>, ghost gates: seq<Gate>)
      requires Valid()
      requires state.workflowResults == map[] && state.activeWorkflows == {} && state.depth == 0
      modifies state
      ensures Running(state) && state.activeWorkflows == {}
      ensures UniqueIds(document) ==> (r.Err? && r.error != External <==> HasCycle(GraphOf(document)))
      ensures r.Err? ==> (cancellable && r.error == External) || r.error == CircularDependency
      ensures Chained(Snapshot(map[], old(state.calls)), gates, Now(state))
      ensures r.Ok? ==> (r.value.success <==> AllSucceed(r.value.workflows))
      ensures r.Ok? ==> AllTell(r.value.workflows, gates)
      ensures UniqueIds(document) && r.Ok? ==>
                && DependenciesFirst(GraphOf(document), Reported(r.value.workflows))
                && Distinct(Reported(r.value.workflows))
                && Elements(Reported(r.value.workflows)) == GraphOf(document).Keys
                && AllGated(Reported(r.value.workflows), gates)
    {
      gates := [];
      var sorted := TopologicalSort.TopologicalSort(document);
      if sorted.Err? { return Err(sorted.error), gates; }
      r, gates := RunInOrder(sorted.value, state);
    }
  }
}
