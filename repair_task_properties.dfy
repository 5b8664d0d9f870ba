/**
 * What RepairTask's loop guarantees, proved over its specification
 * Iterate: outputs and steps follow the sources in order, a cancellation
 * stops the loop before the flush, strict and lenient handling of a source
 * with no page, the handler closed once per iteration, and the bounds the
 * generated names meet.
 */
module RepairTaskProperties {
  import opened Wrappers
  import opened Text
  import opened FileSystem
  import opened NameGenerator
  import opened OutputWriterHelper
  import opened RepairTask

  /** The steps of the stepsCompleted notifications in a trace, in order. */
  function Progress(trace: seq<Event>): seq<nat>
  {
    if trace == [] then []
    else (if trace[0].StepsCompleted? then [trace[0].step] else []) + Progress(trace[1..])
  }

  /** How many times a trace closes a document handler. */
  function Closes(trace: seq<Event>): nat
  {
    if trace == [] then 0
    else (if trace[0].Closed? then 1 else 0) + Closes(trace[1..])
  }

  /** from, from + 1, ..., from + n - 1. */
  function StepRange(from: nat, n: nat): seq<nat>
  {
    seq(n, k requires 0 <= k < n => from + k)
  }

  lemma StepRangeCons(from: nat, n: nat)
    ensures [from] + StepRange(from + 1, n) == StepRange(from, n + 1)
  {
  }

  lemma {:induction false} ProgressAppend(a: seq<Event>, b: seq<Event>)
    ensures Progress(a + b) == Progress(a) + Progress(b)
    decreases |a|
  {
    if a == [] {
      assert a + b == b;
    } else {
      assert (a + b)[0] == a[0];
      assert (a + b)[1..] == a[1..] + b;
      ProgressAppend(a[1..], b);
    }
  }

  lemma {:induction false} ClosesAppend(a: seq<Event>, b: seq<Event>)
    ensures Closes(a + b) == Closes(a) + Closes(b)
    decreases |a|
  {
    if a == [] {
      assert a + b == b;
    } else {
      assert (a + b)[0] == a[0];
      assert (a + b)[1..] == a[1..] + b;
      ClosesAppend(a[1..], b);
    }
  }

  // ---------------------------------------------------------------------
  // One iteration

  /** Each iteration closes exactly one handler (in the finally block, even
      when it fails), and reports its step, i + 1 of total, exactly when it
      completes; a completed iteration registers exactly one output. */
  lemma VisitEvents(p: RepairParameters, ctx: Context, total: nat, i: nat, h: Option<nat>)
    requires i < |p.sources| <= |ctx.temps|
    ensures var v := Visit(p, ctx, total, i, h);
      && Closes(v.trace) == 1
      && Progress(v.trace) == (if v.error.None? then [i + 1] else [])
      && (v.error.None? ==> v.trace[|v.trace| - 1] == StepsCompleted(i + 1, total))
      && |v.added| == (if v.error.None? then 1 else 0)
  {
    VisitCloses(p, ctx, total, i, h);
    VisitProgress(p, ctx, total, i, h);
    VisitAdded(p, ctx, total, i, h);
  }

  /** The events of an iteration that opened its source and kept going:
      an optional warning, the close of its handler and, once saved, its step. */
  function VisitTail(p: RepairParameters, ctx: Context, total: nat, i: nat): seq<Event>
    requires i < |p.sources| && p.sources[i].recovery.Recovered?
  {
    var s := p.sources[i];
    if s.recovery.saved then [Closed(Some(i)), StepsCompleted(i + 1, total)] else [Closed(Some(i))]
  }

  lemma VisitCloses(p: RepairParameters, ctx: Context, total: nat, i: nat, h: Option<nat>)
    requires i < |p.sources| <= |ctx.temps|
    ensures Closes(Visit(p, ctx, total, i, h).trace) == 1
  {
    var v := Visit(p, ctx, total, i, h);
    var s := p.sources[i];
    if s.recovery.Recovered? && (s.recovery.pages > 0 || ctx.lenient) {
      var warnings: seq<Event> := if s.recovery.pages == 0 then [Warning(NothingRecoveredMessage(s.name))] else [];
      var tail := VisitTail(p, ctx, total, i);
      assert Closes(warnings) == 0;
      assert Closes(tail) == 1 by {
        ClosesAppend([Closed(Some(i))], [StepsCompleted(i + 1, total)]);
        assert [Closed(Some(i)), StepsCompleted(i + 1, total)] == [Closed(Some(i))] + [StepsCompleted(i + 1, total)];
      }
      assert v.trace == warnings + tail;
      ClosesAppend(warnings, tail);
    }
  }

  lemma VisitProgress(p: RepairParameters, ctx: Context, total: nat, i: nat, h: Option<nat>)
    requires i < |p.sources| <= |ctx.temps|
    ensures var v := Visit(p, ctx, total, i, h);
      Progress(v.trace) == (if v.error.None? then [i + 1] else [])
  {
    var v := Visit(p, ctx, total, i, h);
    var s := p.sources[i];
    if s.recovery.Recovered? && (s.recovery.pages > 0 || ctx.lenient) {
      var warnings: seq<Event> := if s.recovery.pages == 0 then [Warning(NothingRecoveredMessage(s.name))] else [];
      var tail := VisitTail(p, ctx, total, i);
      assert Progress(warnings) == [];
      assert Progress(tail) == (if s.recovery.saved then [i + 1] else []) by {
        ProgressAppend([Closed(Some(i))], [StepsCompleted(i + 1, total)]);
        assert [Closed(Some(i)), StepsCompleted(i + 1, total)] == [Closed(Some(i))] + [StepsCompleted(i + 1, total)];
      }
      assert v.trace == warnings + tail;
      ProgressAppend(warnings, tail);
    }
  }

  /** What an iteration registers: its own output when it completes, nothing otherwise. */
  lemma VisitAdded(p: RepairParameters, ctx: Context, total: nat, i: nat, h: Option<nat>)
    requires i < |p.sources| <= |ctx.temps|
    ensures var v := Visit(p, ctx, total, i, h);
      v.added == if v.error.None? then [Entry(OutputName(p, ctx, p.sources[i].name, i + 1), ctx.temps[i])] else []
  {
  }

  /** An iteration never flushes, and in strict mode it never warns. */
  lemma VisitEventKinds(p: RepairParameters, ctx: Context, total: nat, i: nat, h: Option<nat>)
    requires i < |p.sources| <= |ctx.temps|
    ensures var v := Visit(p, ctx, total, i, h);
      && NoFlush(v.trace)
      && (!ctx.lenient ==> NoWarning(v.trace))
  {
  }

  /** A source with no page left: a strict task fails with the
      TaskExecutionException, closing the handler and registering nothing;
      a lenient one issues one warning with the same message and goes on,
      saving and registering the output as for any other source. */
  lemma NothingRecoveredHandling(p: RepairParameters, ctx: Context, total: nat, i: nat, h: Option<nat>)
    requires i < |p.sources| <= |ctx.temps|
    requires p.sources[i].recovery.Recovered? && p.sources[i].recovery.pages == 0
    ensures var v := Visit(p, ctx, total, i, h);
      var message := NothingRecoveredMessage(p.sources[i].name);
      && (!ctx.lenient ==> v == Run([Closed(Some(i))], [], Some(i), Some(NothingRecovered(message))))
      && (ctx.lenient ==>
            && v.trace[0] == Warning(message)
            && (p.sources[i].recovery.saved ==>
                  v.error.None? && v.added == [Entry(OutputName(p, ctx, p.sources[i].name, i + 1), ctx.temps[i])]))
  {
  }

  /** A source that cannot be opened fails the task; the finally block
      closes the handler left over from the previous source, if any. */
  lemma UnopenableHandling(p: RepairParameters, ctx: Context, total: nat, i: nat, h: Option<nat>)
    requires i < |p.sources| <= |ctx.temps|
    requires p.sources[i].recovery.Unopenable?
    ensures Visit(p, ctx, total, i, h) == Run([Closed(h)], [], h, Some(OpenFailed(p.sources[i].name)))
  {
  }

  // ---------------------------------------------------------------------
  // The loop

  /** Output j of the loop started at i comes from source i + j, in order:
      it is named by the generator from that source's name with fileNumber
      i + j + 1 and is the temporary file of that iteration.  A loop that
      completes registers one output per source. */
  lemma {:induction false} IterateOutputs(p: RepairParameters, ctx: Context, total: nat, i: nat, h: Option<nat>)
    requires i <= |p.sources| <= |ctx.temps|
    ensures var r := Iterate(p, ctx, total, i, h);
      && i + |r.added| <= |p.sources|
      && (r.error.None? ==> i + |r.added| == |p.sources|)
      && (forall j :: 0 <= j < |r.added| ==>
            r.added[j] == Entry(OutputName(p, ctx, p.sources[i + j].name, i + j + 1), ctx.temps[i + j]))
    decreases |p.sources| - i
  {
    if i < |p.sources| && ctx.cancelAt != Some(i) {
      var v := Visit(p, ctx, total, i, h);
      VisitAdded(p, ctx, total, i, h);
      if v.error.None? {
        IterateOutputs(p, ctx, total, i + 1, v.handler);
        var r := Iterate(p, ctx, total, i + 1, v.handler);
        forall j | 1 <= j < 1 + |r.added|
          ensures (v.added + r.added)[j] == Entry(OutputName(p, ctx, p.sources[i + j].name, i + j + 1), ctx.temps[i + j])
        {
          assert (v.added + r.added)[j] == r.added[j - 1];
        }
      }
    }
  }

  /** An iteration that completes is followed by the rest of the loop. */
  lemma IterateAfterVisit(p: RepairParameters, ctx: Context, total: nat, i: nat, h: Option<nat>)
    requires i < |p.sources| <= |ctx.temps| && ctx.cancelAt != Some(i)
    requires Visit(p, ctx, total, i, h).error.None?
    ensures var v := Visit(p, ctx, total, i, h);
      var r := Iterate(p, ctx, total, i + 1, v.handler);
      Iterate(p, ctx, total, i, h) == Run(v.trace + r.trace, v.added + r.added, r.handler, r.error)
  {
  }

  /** The loop started at i notifies steps i + 1, i + 2, ... in order, one
      per registered output. */
  lemma {:induction false} IterateProgress(p: RepairParameters, ctx: Context, total: nat, i: nat, h: Option<nat>)
    requires i <= |p.sources| <= |ctx.temps|
    ensures var r := Iterate(p, ctx, total, i, h);
      Progress(r.trace) == StepRange(i + 1, |r.added|)
    decreases |p.sources| - i
  {
    if i < |p.sources| && ctx.cancelAt != Some(i) {
      var v := Visit(p, ctx, total, i, h);
      VisitProgress(p, ctx, total, i, h);
      VisitAdded(p, ctx, total, i, h);
      if v.error.None? {
        IterateProgress(p, ctx, total, i + 1, v.handler);
        var r := Iterate(p, ctx, total, i + 1, v.handler);
        IterateAfterVisit(p, ctx, total, i, h);
        ProgressStep(v.trace, v.added, r.trace, r.added, i);
      }
    }
  }

  /** The inductive step of IterateProgress: a completed iteration puts its
      own step in front of those of the rest of the loop. */
  lemma ProgressStep(trace: seq<Event>, added: seq<Entry>, rest: seq<Event>, restAdded: seq<Entry>, i: nat)
    requires Progress(trace) == [i + 1] && |added| == 1
    requires Progress(rest) == StepRange(i + 2, |restAdded|)
    ensures Progress(trace + rest) == StepRange(i + 1, |added + restAdded|)
  {
    ProgressAppend(trace, rest);
    StepRangeCons(i + 1, |restAdded|);
  }

  /** The loop closes one handler per iteration it enters: one per
      registered output, plus the one of the iteration that failed. */
  lemma {:induction false} IterateCloses(p: RepairParameters, ctx: Context, total: nat, i: nat, h: Option<nat>)
    requires i <= |p.sources| <= |ctx.temps|
    ensures var r := Iterate(p, ctx, total, i, h);
      Closes(r.trace) == |r.added| + (if r.error.Some? && r.error != Some(Cancelled) then 1 else 0)
    decreases |p.sources| - i
  {
    if i < |p.sources| && ctx.cancelAt != Some(i) {
      var v := Visit(p, ctx, total, i, h);
      VisitCloses(p, ctx, total, i, h);
      VisitAdded(p, ctx, total, i, h);
      if v.error.None? {
        IterateCloses(p, ctx, total, i + 1, v.handler);
        IterateAfterVisit(p, ctx, total, i, h);
        ClosesAppend(v.trace, Iterate(p, ctx, total, i + 1, v.handler).trace);
      }
    }
  }

  /** Events of the loop itself (never a flush) and of a strict task
      (never a warning). */
  predicate NoFlush(trace: seq<Event>)
  {
    forall k :: 0 <= k < |trace| ==> !trace[k].Flushed?
  }

  predicate NoWarning(trace: seq<Event>)
  {
    forall k :: 0 <= k < |trace| ==> !trace[k].Warning?
  }

  lemma ConcatKeeps(a: seq<Event>, b: seq<Event>)
    ensures NoFlush(a) && NoFlush(b) ==> NoFlush(a + b)
    ensures NoWarning(a) && NoWarning(b) ==> NoWarning(a + b)
  {
    forall k | |a| <= k < |a + b|
      ensures (a + b)[k] == b[k - |a|]
    {
    }
  }

  /** The loop never flushes: the one flush comes after it. */
  lemma {:induction false} IterateNeverFlushes(p: RepairParameters, ctx: Context, total: nat, i: nat, h: Option<nat>)
    requires i <= |p.sources| <= |ctx.temps|
    ensures NoFlush(Iterate(p, ctx, total, i, h).trace)
    decreases |p.sources| - i
  {
    if i < |p.sources| && ctx.cancelAt != Some(i) {
      var v := Visit(p, ctx, total, i, h);
      VisitEventKinds(p, ctx, total, i, h);
      if v.error.None? {
        IterateNeverFlushes(p, ctx, total, i + 1, v.handler);
        ConcatKeeps(v.trace, Iterate(p, ctx, total, i + 1, v.handler).trace);
      }
    }
  }

  /** When a source can be repaired: it opens, keeps a page (or the task
      is lenient) and can be saved. */
  predicate Repairable(ctx: Context, s: Source)
  {
    s.recovery.Recovered? && s.recovery.saved && (s.recovery.pages > 0 || ctx.lenient)
  }

  /** A cancellation seen at iteration c stops the loop there: the run
      fails, so nothing is flushed, and no source from c on is processed.
      The failure is the cancellation exactly when every source before c
      could be repaired, and then each of them was registered. */
  lemma {:induction false} IterateCancelled(p: RepairParameters, ctx: Context, total: nat, i: nat, h: Option<nat>)
    requires i <= |p.sources| <= |ctx.temps|
    requires ctx.cancelAt.Some? && i <= ctx.cancelAt.value < |p.sources|
    ensures var r := Iterate(p, ctx, total, i, h);
      && r.error.Some? && i + |r.added| <= ctx.cancelAt.value
      && (r.error == Some(Cancelled) <==> forall j :: i <= j < ctx.cancelAt.value ==> Repairable(ctx, p.sources[j]))
      && (r.error == Some(Cancelled) ==> i + |r.added| == ctx.cancelAt.value)
    decreases |p.sources| - i
  {
    if ctx.cancelAt != Some(i) {
      var v := Visit(p, ctx, total, i, h);
      VisitAdded(p, ctx, total, i, h);
      if v.error.None? {
        assert Repairable(ctx, p.sources[i]);
        IterateCancelled(p, ctx, total, i + 1, v.handler);
      } else {
        assert !Repairable(ctx, p.sources[i]);
      }
    }
  }

  /** Without a cancellation, a loop over repairable sources completes. */
  lemma {:induction false} IterateCompletes(p: RepairParameters, ctx: Context, total: nat, i: nat, h: Option<nat>)
    requires i <= |p.sources| <= |ctx.temps|
    requires forall j :: i <= j < |p.sources| ==> Repairable(ctx, p.sources[j])
    requires ctx.cancelAt.None? || ctx.cancelAt.value < i || ctx.cancelAt.value >= |p.sources|
    ensures Iterate(p, ctx, total, i, h).error.None?
    decreases |p.sources| - i
  {
    if i < |p.sources| {
      var v := Visit(p, ctx, total, i, h);
      assert Repairable(ctx, p.sources[i]);
      IterateCompletes(p, ctx, total, i + 1, v.handler);
    }
  }

  /** A strict task never issues a warning. */
  lemma {:induction false} StrictNeverWarns(p: RepairParameters, ctx: Context, total: nat, i: nat, h: Option<nat>)
    requires i <= |p.sources| <= |ctx.temps|
    requires !ctx.lenient
    ensures NoWarning(Iterate(p, ctx, total, i, h).trace)
    decreases |p.sources| - i
  {
    if i < |p.sources| && ctx.cancelAt != Some(i) {
      var v := Visit(p, ctx, total, i, h);
      VisitEventKinds(p, ctx, total, i, h);
      if v.error.None? {
        StrictNeverWarns(p, ctx, total, i + 1, v.handler);
        ConcatKeeps(v.trace, Iterate(p, ctx, total, i + 1, v.handler).trace);
      }
    }
  }

  // ---------------------------------------------------------------------
  // Names

  /** With the name generator of NameGenerator, every output name fits the
      file system limits and ends with ".pdf" after the (possibly
      shortened) name the prefix gives for the source and its step. */
  lemma GeneratedNames(p: RepairParameters, ctx: Context, source: string, step: nat)
    requires forall t, r :: ctx.generate(t, r) == GenerateName(t, r)
    ensures var name := OutputName(p, ctx, source, step);
      && |name| <= MaxNameLength
      && Utf8Length(name) <= MaxNameLength
      && KeepsExtension(name, FullName(p.prefix, OutputRequest(source, step)), "pdf")
  {
    var req := OutputRequest(source, step);
    assert ValidExtension(req.extension) by {
      assert req.extension == "pdf";
      assert Utf8Length("pdf") == 3;
    }
    GenerateNameBounded(p.prefix, req);
  }
}
