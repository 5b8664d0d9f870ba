/**
 * The task execution service, as its unit test pins it down: parameters
 * are validated first and invalid ones reach no task method; valid ones go
 * through before, execute and after, in that order; a failing before skips
 * execute but not after; and a task failure is reported, not thrown out of
 * the service.
 */
module TaskExecutionService {

  /** The parameters as far as validation looks at them: the PDF version
      1.minorVersion, whether compression is asked for, and whether an
      output is set. */
  datatype TaskParameters = TaskParameters(minorVersion: nat, compress: bool, hasOutput: bool)

  /** Parameters are valid when an output is set and compression, which
      needs compressed object streams, asks for version 1.5 or later. */
  predicate Valid(p: TaskParameters)
  {
    p.hasOutput && (p.compress ==> p.minorVersion >= 5)
  }

  /** The calls the service makes on the task. */
  datatype Call = BeforeCall(p: TaskParameters) | ExecuteCall(p: TaskParameters) | AfterCall

  /** Which task methods throw a TaskException. */
  datatype Behaviour = Behaviour(beforeFails: bool, executeFails: bool)

  datatype Stage = InBefore | InExecute

  /** What the service reports to its listeners. */
  datatype Report = Rejected | Completed | Failed(stage: Stage)

  /** The task, a stand-in that records the calls it receives. */
  class Task {
    var calls: seq<Call>
    const behaviour: Behaviour

    constructor(behaviour: Behaviour)
      ensures calls == [] && this.behaviour == behaviour
    {
      calls := [];
      this.behaviour := behaviour;
    }

    method Before(p: TaskParameters) returns (failed: bool)
      modifies this
      ensures calls == old(calls) + [BeforeCall(p)] && failed == behaviour.beforeFails
    {
      calls := calls + [BeforeCall(p)];
      failed := behaviour.beforeFails;
    }

    method Execute(p: TaskParameters) returns (failed: bool)
      modifies this
      ensures calls == old(calls) + [ExecuteCall(p)] && failed == behaviour.executeFails
    {
      calls := calls + [ExecuteCall(p)];
      failed := behaviour.executeFails;
    }

    method After()
      modifies this
      ensures calls == old(calls) + [AfterCall]
    {
      calls := calls + [AfterCall];
    }
  }

  /** The calls one execution makes. */
  function ServiceCalls(p: TaskParameters, b: Behaviour): seq<Call>
  {
    if !Valid(p) then []
    else if b.beforeFails then [BeforeCall(p), AfterCall]
    else [BeforeCall(p), ExecuteCall(p), AfterCall]
  }

  /** What one execution reports. */
  function ServiceReport(p: TaskParameters, b: Behaviour): Report
  {
    if !Valid(p) then Rejected
    else if b.beforeFails then Failed(InBefore)
    else if b.executeFails then Failed(InExecute)
    else Completed
  }

  /** execute(parameters): validate, then before, execute unless before
      failed, and after in every case; failures end up in the report. */
  method ExecuteTask(task: Task, p: TaskParameters) returns (report: Report)
    modifies task
    ensures task.calls == old(task.calls) + ServiceCalls(p, task.behaviour)
    ensures report == ServiceReport(p, task.behaviour)
  {
    if !Valid(p) {
      return Rejected;
    }
    var beforeFailed := task.Before(p);
    if beforeFailed {
      report := Failed(InBefore);
    } else {
      var executeFailed := task.Execute(p);
      report := if executeFailed then Failed(InExecute) else Completed;
    }
    task.After();
  }

  /** Invalid parameters, such as version 1.4 with compression or no
      output, reach no task method at all; valid ones always reach before. */
  lemma ValidationGate(p: TaskParameters, b: Behaviour)
    ensures ServiceCalls(p, b) == [] <==> !Valid(p)
    ensures ServiceReport(p, b) == Rejected <==> !Valid(p)
    ensures !Valid(TaskParameters(4, true, p.hasOutput))
    ensures !Valid(TaskParameters(p.minorVersion, p.compress, false))
  {
  }

  /** A failing before is followed by after and never by execute, and the
      failure is reported, not raised. */
  lemma BeforeFailure(p: TaskParameters, b: Behaviour)
    requires Valid(p) && b.beforeFails
    ensures ServiceCalls(p, b) == [BeforeCall(p), AfterCall]
    ensures ExecuteCall(p) !in ServiceCalls(p, b)
    ensures ServiceReport(p, b) == Failed(InBefore)
  {
  }

  /** For valid parameters the calls come in the order before, execute,
      after: before first, after last and once, execute only after a
      before that succeeded. */
  lemma CallOrder(p: TaskParameters, b: Behaviour)
    requires Valid(p)
    ensures var calls := ServiceCalls(p, b);
      && calls[0] == BeforeCall(p)
      && calls[|calls| - 1] == AfterCall
      && (forall k :: 0 <= k < |calls| - 1 ==> calls[k] != AfterCall)
      && (ExecuteCall(p) in calls <==> !b.beforeFails)
      && (forall k :: 0 <= k < |calls| && calls[k] == ExecuteCall(p) ==> k == 1)
  {
  }
}
