/**
 * RepairTask: for each source PDF, in order, check for cancellation, open
 * it, rebuild its page tree, warn (lenient) or fail (strict) when no page
 * could be recovered, save it to a temporary file and register that file
 * with the output writer under a generated name; close the document in a
 * finally block and report the step.  After the loop the writer is flushed
 * once to the task output.
 *
 * The PDF work is left uninterpreted: each source says whether it opens,
 * how many pages survive the rebuild and whether saving works.  What the
 * task does is recorded as a trace of events.
 */
module RepairTask {
  import opened Wrappers
  import opened FileSystem
  import opened NameGenerator
  import opened OutputWriterHelper
  import opened MultipleOutputWriter

  /** What happens to a source: it cannot be opened, or it opens and its
      rebuilt page tree has pages; saved is false when saving it throws. */
  datatype Recovery = Unopenable | Recovered(pages: nat, saved: bool)

  datatype Source = Source(name: string, recovery: Recovery)

  /** RepairParameters: the sources, the output prefix (a name template),
      the task output and whether existing files may be overwritten. */
  datatype RepairParameters = RepairParameters(
    sources: seq<Source>,
    prefix: string,
    output: TaskOutput,
    overwrite: bool)

  /** What the task runs in: where cancellation is first seen (the index of
      the iteration whose check throws), whether the task is lenient, the
      temporary files createTemporaryPdfBuffer hands out, one per source,
      and the name generator, nameGenerator(prefix).generate(request)
      (whose model is NameGenerator.GenerateName; see GeneratedNames). */
  datatype Context = Context(
    cancelAt: Option<nat>,
    lenient: bool,
    temps: seq<Path>,
    generate: (string, NameRequest) -> string)

  /** Observable effects: a task warning, the close of a document handler
      (None when the handler is still null), a stepsCompleted(step).outOf(total)
      notification, and the flush of the writer with its outcome. */
  datatype Event =
    | Warning(message: string)
    | Closed(handler: Option<nat>)
    | StepsCompleted(step: nat, total: nat)
    | Flushed(outcome: Outcome)

  datatype TaskError =
    | Cancelled
    | OpenFailed(source: string)
    | NothingRecovered(message: string)
    | SaveFailed(source: string)
    | FlushFailed(error: IoError)

  /** What a run of the loop (or part of it) did: its events, the outputs it
      registered in order, the handler it holds at the end, and its failure. */
  datatype Run = Run(trace: seq<Event>, added: seq<Entry>, handler: Option<nat>, error: Option<TaskError>)

  /** The TaskExecutionException message for a source with no page left. */
  function NothingRecoveredMessage(source: string): string
  {
    "Unable to repair and recover any page from " + source
  }

  /** nameRequest().originalName(source).fileNumber(step). */
  function OutputRequest(source: string, step: nat): NameRequest
  {
    NameRequest("pdf", source, None, Some(step), None)
  }

  /** The generated name of the output of a source: the prefix applied to
      the source's name with fileNumber set to the step. */
  function OutputName(p: RepairParameters, ctx: Context, source: string, step: nat): string
  {
    ctx.generate(p.prefix, OutputRequest(source, step))
  }

  /** One iteration of the loop, past the cancellation check, on source i. */
  function Visit(p: RepairParameters, ctx: Context, total: nat, i: nat, handler: Option<nat>): Run
    requires i < |p.sources| <= |ctx.temps|
  {
    var s := p.sources[i];
    match s.recovery
    case Unopenable => Run([Closed(handler)], [], handler, Some(OpenFailed(s.name)))
    case Recovered(pages, saved) =>
      var held := Some(i);
      var failure := NothingRecoveredMessage(s.name);
      if pages == 0 && !ctx.lenient then Run([Closed(held)], [], held, Some(NothingRecovered(failure)))
      else
        var warnings := if pages == 0 then [Warning(failure)] else [];
        if !saved then Run(warnings + [Closed(held)], [], held, Some(SaveFailed(s.name)))
        else
          Run(warnings + [Closed(held), StepsCompleted(i + 1, total)],
              [Entry(OutputName(p, ctx, s.name, i + 1), ctx.temps[i])], held, None)
  }

  /** The loop from source i on, holding handler. */
  function Iterate(p: RepairParameters, ctx: Context, total: nat, i: nat, handler: Option<nat>): Run
    requires i <= |p.sources| <= |ctx.temps|
    decreases |p.sources| - i
  {
    if i == |p.sources| then Run([], [], handler, None)
    else if ctx.cancelAt == Some(i) then Run([], [], handler, Some(Cancelled))
    else
      var v := Visit(p, ctx, total, i, handler);
      if v.error.Some? then v
      else
        var r := Iterate(p, ctx, total, i + 1, v.handler);
        Run(v.trace + r.trace, v.added + r.added, r.handler, r.error)
  }

  /** Registering a then b is registering a, then b on the result. */
  lemma {:induction false} CollectedConcat(m: map<string, Path>, a: seq<Entry>, b: seq<Entry>)
    ensures Collected(m, a + b) == Collected(Collected(m, a), b)
    decreases |a|
  {
    if a == [] {
      assert a + b == b;
    } else {
      assert (a + b)[0] == a[0];
      assert (a + b)[1..] == a[1..] + b;
      CollectedConcat(m[a[0].name := a[0].temp], a[1..], b);
    }
  }

  /** A run with what came before it prepended. */
  function Then(trace: seq<Event>, added: seq<Entry>, r: Run): Run
  {
    Run(trace + r.trace, added + r.added, r.handler, r.error)
  }

  lemma ThenNothing(trace: seq<Event>, added: seq<Entry>, r: Run)
    requires r.trace == [] && r.added == []
    ensures Then(trace, added, r) == Run(trace, added, r.handler, r.error)
  {
    assert trace + [] == trace && added + [] == added;
  }

  lemma ThenFromStart(r: Run)
    ensures Then([], [], r) == r
  {
    assert [] + r.trace == r.trace && [] + r.added == r.added;
  }

  /** The loop seen from iteration i: a cancellation seen there ends it;
      otherwise the iteration's events and outputs move to the part already
      done, and the run ends with the iteration if the iteration failed. */
  lemma IterateStep(p: RepairParameters, ctx: Context, total: nat, i: nat, h: Option<nat>, doneTrace: seq<Event>, doneAdded: seq<Entry>)
    requires i < |p.sources| <= |ctx.temps|
    ensures ctx.cancelAt == Some(i) ==>
      Then(doneTrace, doneAdded, Iterate(p, ctx, total, i, h)) == Run(doneTrace, doneAdded, h, Some(Cancelled))
    ensures ctx.cancelAt != Some(i) ==>
      var v := Visit(p, ctx, total, i, h);
      var q := Then(doneTrace, doneAdded, Iterate(p, ctx, total, i, h));
      if v.error.Some? then q == Run(doneTrace + v.trace, doneAdded + v.added, v.handler, v.error)
      else q == Then(doneTrace + v.trace, doneAdded + v.added, Iterate(p, ctx, total, i + 1, v.handler))
  {
    assert doneTrace + [] == doneTrace && doneAdded + [] == doneAdded;
    if ctx.cancelAt != Some(i) {
      var v := Visit(p, ctx, total, i, h);
      if v.error.None? {
        var r := Iterate(p, ctx, total, i + 1, v.handler);
        assert (doneTrace + v.trace) + r.trace == doneTrace + (v.trace + r.trace);
        assert (doneAdded + v.added) + r.added == doneAdded + (v.added + r.added);
      }
    }
  }

  class RepairTask {
    var totalSteps: nat
    /** The documentHandler field: the source whose document it holds. */
    var handler: Option<nat>
    var writer: OutputWriter?
    /** Everything the task has done so far. */
    var trace: seq<Event>

    constructor()
      ensures totalSteps == 0 && handler == None && writer == null && trace == []
    {
      totalSteps := 0;
      handler := None;
      writer := null;
      trace := [];
    }

    /** before: one step per source, and a new, empty output writer. */
    method Before(p: RepairParameters)
      modifies this
      ensures totalSteps == |p.sources|
      ensures writer != null && fresh(writer) && writer.pending == map[]
      ensures handler == old(handler) && trace == old(trace)
    {
      totalSteps := |p.sources|;
      writer := new OutputWriter();
    }

    /** execute: the loop over the sources, then one flush through the
        writer, in an iteration order of its collection that order gives. */
    method Execute(p: RepairParameters, ctx: Context, disk: Disk, order: map<string, Path> -> seq<Entry>)
      returns (error: Option<TaskError>)
      requires writer != null
      requires |p.sources| <= |ctx.temps|
      requires forall m :: Enumerates(order(m), m)
      modifies this, writer, disk, SinkOf(Some(Destination(p.output, p.overwrite)))
      ensures writer == old(writer) && totalSteps == old(totalSteps)
      ensures var run := Iterate(p, ctx, old(totalSteps), 0, old(handler));
        var destination := Some(Destination(p.output, p.overwrite));
        var collected := Collected(old(writer.pending), run.added);
        && handler == run.handler
        && (run.error.Some? ==>
              && error == run.error
              && trace == old(trace) + run.trace
              && writer.pending == collected
              && disk.nodes == old(disk.nodes)
              && ArchiveOf(destination) == old(ArchiveOf(destination)))
        && (run.error.None? ==>
              var step := ExecuteOn(old(disk.nodes), disk.env, old(ArchiveOf(destination)), destination, order(collected));
              && trace == old(trace) + run.trace + [Flushed(step.outcome)]
              && writer.pending == map[]
              && disk.nodes == step.nodes
              && ArchiveOf(destination) == step.archive
              && error == if step.outcome.Failed? then Some(FlushFailed(step.outcome.error)) else None)
    {
      error := RepairSources(p, ctx);
      if error.Some? {
        return;
      }
      var outcome := writer.FlushOutputs(disk, p.output, p.overwrite, order(writer.pending));
      trace := trace + [Flushed(outcome)];
      error := if outcome.Failed? then Some(FlushFailed(outcome.error)) else None;
    }

    /** The loop of execute, up to the flush. */
    method RepairSources(p: RepairParameters, ctx: Context) returns (error: Option<TaskError>)
      requires writer != null
      requires |p.sources| <= |ctx.temps|
      modifies this, writer
      ensures writer == old(writer) && totalSteps == old(totalSteps)
      ensures var run := Iterate(p, ctx, old(totalSteps), 0, old(handler));
        && trace == old(trace) + run.trace
        && writer.pending == Collected(old(writer.pending), run.added)
        && handler == run.handler
        && error == run.error
    {
      ghost var total, h0, pending0 := totalSteps, handler, writer.pending;
      ghost var run0 := Iterate(p, ctx, total, 0, h0);
      ghost var doneTrace: seq<Event> := [];
      ghost var doneAdded: seq<Entry> := [];
      ThenFromStart(run0);
      var i := 0;
      error := None;
      while i < |p.sources| && error.None?
        invariant i <= |p.sources|
        invariant writer == old(writer) && totalSteps == total
        invariant trace == old(trace) + doneTrace
        invariant writer.pending == Collected(pending0, doneAdded)
        invariant error.None? ==> run0 == Then(doneTrace, doneAdded, Iterate(p, ctx, total, i, handler))
        invariant error.Some? ==> run0 == Run(doneTrace, doneAdded, handler, error)
      {
        error, doneTrace, doneAdded := RepairNext(p, ctx, i, total, pending0, run0, old(trace), doneTrace, doneAdded);
        i := i + 1;
      }
      if error.None? {
        ThenNothing(doneTrace, doneAdded, Iterate(p, ctx, total, i, handler));
      }
    }

    /** One pass of the loop body: the cancellation check, then source i.
        The ghost parameters account for the part of the run already done. */
    method RepairNext(p: RepairParameters, ctx: Context, i: nat, ghost total: nat, ghost pending0: map<string, Path>,
                      ghost run0: Run, ghost trace0: seq<Event>, ghost doneTrace: seq<Event>, ghost doneAdded: seq<Entry>)
      returns (error: Option<TaskError>, ghost doneTrace': seq<Event>, ghost doneAdded': seq<Entry>)
      requires writer != null
      requires i < |p.sources| <= |ctx.temps|
      requires totalSteps == total && trace == trace0 + doneTrace
      requires writer.pending == Collected(pending0, doneAdded)
      requires run0 == Then(doneTrace, doneAdded, Iterate(p, ctx, total, i, handler))
      modifies this, writer
      ensures writer == old(writer) && totalSteps == total && trace == trace0 + doneTrace'
      ensures writer.pending == Collected(pending0, doneAdded')
      ensures error.None? ==> run0 == Then(doneTrace', doneAdded', Iterate(p, ctx, total, i + 1, handler))
      ensures error.Some? ==> run0 == Run(doneTrace', doneAdded', handler, error)
    {
      IterateStep(p, ctx, total, i, handler, doneTrace, doneAdded);
      if ctx.cancelAt == Some(i) {
        return Some(Cancelled), doneTrace, doneAdded;
      }
      ghost var v := Visit(p, ctx, total, i, handler);
      error := RepairSource(p, ctx, i);
      CollectedConcat(pending0, doneAdded, v.added);
      doneTrace', doneAdded' := doneTrace + v.trace, doneAdded + v.added;
    }

    /** One iteration on source i, past the cancellation check: open,
        rebuild, check, save, register; the finally block closes the handler,
        and the step is reported when the iteration completes. */
    method RepairSource(p: RepairParameters, ctx: Context, i: nat) returns (error: Option<TaskError>)
      requires writer != null
      requires i < |p.sources| <= |ctx.temps|
      modifies this, writer
      ensures writer == old(writer) && totalSteps == old(totalSteps)
      ensures var v := Visit(p, ctx, old(totalSteps), i, old(handler));
        && trace == old(trace) + v.trace
        && writer.pending == Collected(old(writer.pending), v.added)
        && handler == v.handler
        && error == v.error
    {
      var s := p.sources[i];
      match s.recovery {
        case Unopenable =>
          trace := trace + [Closed(handler)];
          return Some(OpenFailed(s.name));
        case Recovered(pages, saved) =>
          handler := Some(i);
          var failure := NothingRecoveredMessage(s.name);
          if pages == 0 {
            if !ctx.lenient {
              trace := trace + [Closed(handler)];
              return Some(NothingRecovered(failure));
            }
            trace := trace + [Warning(failure)];
          }
          if !saved {
            trace := trace + [Closed(handler)];
            return Some(SaveFailed(s.name));
          }
          var name := OutputName(p, ctx, s.name, i + 1);
          writer.AddOutput(name, ctx.temps[i]);
          trace := trace + [Closed(handler), StepsCompleted(i + 1, totalSteps)];
          return None;
      }
    }

    /** after: close the last document handler again. */
    method After()
      modifies this
      ensures trace == old(trace) + [Closed(handler)]
      ensures handler == old(handler) && totalSteps == old(totalSteps) && writer == old(writer)
    {
      trace := trace + [Closed(handler)];
    }
  }
}
