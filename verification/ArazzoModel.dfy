/** The parts of an Arazzo document that scheduling and control flow depend on. */
module ArazzoModel {
  import opened Common

  // A success or failure action; `kind` is its type field, and a non-empty reference
  // makes it reusable. A missing retryLimit is 0. Criteria are opaque conditions.
  datatype Action = Action(
    kind: string, workflowId: string, stepId: string, retryLimit: int, criteria: seq<string>, reference: string)

  // A step with a workflowId runs that workflow, any other step calls the executor. It may have inputs
  // (parameters or a request body), success criteria, and outputs, whose evaluation may fail.
  datatype Step = Step(
    stepId: string,
    workflowId: string,
    inputs: bool,
    criteria: bool,
    outputs: bool,
    onSuccess: seq<Action>,
    onFailure: seq<Action>)

  datatype Workflow = Workflow(
    workflowId: string,
    dependsOn: seq<string>,
    steps: seq<Step>,
    outputs: bool,
    successActions: seq<Action>,
    failureActions: seq<Action>)

  // Reusable actions, by the reference that names them.
  datatype Components = Components(successActions: map<string, Action>, failureActions: map<string, Action>)

  // The sentinel errors, and the errors that come from outside the engine.
  datatype Error = CircularDependency | DepthExceeded | UnresolvedWorkflow | UnresolvedComponent
                 | StepNotInWorkflow | DependencyFailed | StepFailure | External

  ghost predicate UniqueIds(doc: seq<Workflow>) {
    forall i, j | 0 <= i < j < |doc| :: doc[i].workflowId != doc[j].workflowId
  }
}
