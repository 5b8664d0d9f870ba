/**
 * MultipleOutputWriter: a task adds its temporary files one by one, each
 * under the name it should get, and flushes them all at the end to the
 * task's output.  The collection is a Map<String, File>, so a name added
 * twice keeps the last file, and the flush visits the entries in the map's
 * iteration order, which is unspecified: the order is an input here,
 * constrained only to enumerate the map.
 */
module MultipleOutputWriter {
  import opened Wrappers
  import opened FileSystem
  import opened OutputWriterHelper
  import opened OutputWriterProperties

  /** order visits each entry of m exactly once. */
  predicate Enumerates(order: seq<Entry>, m: map<string, Path>)
  {
    && DistinctNames(order)
    && (forall i :: 0 <= i < |order| ==> order[i].name in m && m[order[i].name] == order[i].temp)
    && (forall k :: k in m ==> exists i :: 0 <= i < |order| && order[i].name == k)
  }

  function Names(order: seq<Entry>): set<string>
  {
    set i | 0 <= i < |order| :: order[i].name
  }

  lemma {:induction false} DistinctNamesCount(order: seq<Entry>)
    requires DistinctNames(order)
    ensures |Names(order)| == |order|
    decreases |order|
  {
    if order != [] {
      var init := order[..|order| - 1];
      var last := order[|order| - 1];
      assert DistinctNames(init) by {
        forall i, j | 0 <= i < j < |init|
          ensures init[i].name != init[j].name
        {
          assert init[i] == order[i] && init[j] == order[j];
        }
      }
      DistinctNamesCount(init);
      assert Names(order) == Names(init) + {last.name} by {
        forall k | k in Names(order)
          ensures k in Names(init) + {last.name}
        {
          var i :| 0 <= i < |order| && order[i].name == k;
          if i < |order| - 1 {
            assert init[i] == order[i];
          }
        }
        forall k | k in Names(init)
          ensures k in Names(order)
        {
          var i :| 0 <= i < |init| && init[i].name == k;
          assert order[i] == init[i];
        }
      }
      assert last.name !in Names(init) by {
        forall i | 0 <= i < |init|
          ensures init[i].name != last.name
        {
          assert init[i] == order[i];
        }
      }
    }
  }

  /** An enumeration visits as many entries as the map holds. */
  lemma EnumerationSize(order: seq<Entry>, m: map<string, Path>)
    requires Enumerates(order, m)
    ensures |order| == |m|
  {
    DistinctNamesCount(order);
    assert Names(order) == m.Keys;
    assert |m.Keys| == |m|;
  }

  /** An entry of m followed by an enumeration of the rest enumerates m. */
  lemma EnumerationCons(k: string, m: map<string, Path>, tail: seq<Entry>)
    requires k in m && Enumerates(tail, m - {k})
    ensures Enumerates([Entry(k, m[k])] + tail, m)
  {
    var order := [Entry(k, m[k])] + tail;
    forall i, j | 0 <= i < j < |order|
      ensures order[i].name != order[j].name
    {
      assert order[j] == tail[j - 1];
      if i > 0 {
        assert order[i] == tail[i - 1];
      }
    }
    forall i | 0 <= i < |order|
      ensures order[i].name in m && m[order[i].name] == order[i].temp
    {
      if i > 0 {
        assert order[i] == tail[i - 1];
      }
    }
    forall q | q in m
      ensures exists i :: 0 <= i < |order| && order[i].name == q
    {
      if q == k {
        assert order[0].name == q;
      } else {
        assert q in m - {k};
        var i :| 0 <= i < |tail| && tail[i].name == q;
        assert order[i + 1] == tail[i];
      }
    }
  }

  /** Every map has an iteration order. */
  lemma {:induction false} EnumerationExists(m: map<string, Path>)
    ensures exists order :: Enumerates(order, m)
    decreases |m|
  {
    if m == map[] {
      assert Enumerates([], m);
    } else {
      var k :| k in m;
      var smaller := m - {k};
      assert |smaller| < |m| by {
        assert smaller.Keys + {k} == m.Keys;
      }
      EnumerationExists(smaller);
      var tail: seq<Entry> :| Enumerates(tail, smaller);
      EnumerationCons(k, m, tail);
    }
  }

  /** The collection after a series of addOutput calls: each adds its file
      under its name, replacing a file added earlier under the same name. */
  function Collected(m: map<string, Path>, outputs: seq<Entry>): map<string, Path>
    decreases |outputs|
  {
    if outputs == [] then m
    else Collected(m[outputs[0].name := outputs[0].temp], outputs[1..])
  }

  /** Outputs added under distinct names are all kept, and the order they
      were added in is one order the flush may visit them in. */
  lemma {:induction false} CollectedDistinct(m: map<string, Path>, outputs: seq<Entry>)
    requires DistinctNames(outputs)
    requires forall i :: 0 <= i < |outputs| ==> outputs[i].name !in m
    ensures var c := Collected(m, outputs);
      && (forall k :: k in m ==> k in c && c[k] == m[k])
      && (forall i :: 0 <= i < |outputs| ==> outputs[i].name in c && c[outputs[i].name] == outputs[i].temp)
      && (forall k :: k in c ==> k in m || exists i :: 0 <= i < |outputs| && outputs[i].name == k)
    decreases |outputs|
  {
    if outputs != [] {
      var e := outputs[0];
      var rest := outputs[1..];
      var next := m[e.name := e.temp];
      forall i | 0 <= i < |rest|
        ensures rest[i].name !in next
      {
        assert rest[i] == outputs[i + 1];
      }
      assert DistinctNames(rest) by {
        forall i, j | 0 <= i < j < |rest|
          ensures rest[i].name != rest[j].name
        {
          assert rest[i] == outputs[i + 1] && rest[j] == outputs[j + 1];
        }
      }
      CollectedDistinct(next, rest);
      var c := Collected(next, rest);
      forall i | 1 <= i < |outputs|
        ensures outputs[i].name in c && c[outputs[i].name] == outputs[i].temp
      {
        assert outputs[i] == rest[i - 1];
      }
      forall k | k in c && k !in m
        ensures exists i :: 0 <= i < |outputs| && outputs[i].name == k
      {
        if k != e.name {
          var i :| 0 <= i < |rest| && rest[i].name == k;
          assert outputs[i + 1] == rest[i];
        }
      }
    }
  }

  /** Outputs added under distinct names to an empty writer are flushed as
      an enumeration of the collection; in particular in the order added. */
  lemma AddedInOrder(outputs: seq<Entry>)
    requires DistinctNames(outputs)
    ensures Enumerates(outputs, Collected(map[], outputs))
  {
    CollectedDistinct(map[], outputs);
  }

  /** An accumulate-then-flush writer. */
  class OutputWriter {
    /** The outputs waiting to be flushed, by name. */
    var pending: map<string, Path>

    constructor()
      ensures pending == map[]
    {
      pending := map[];
    }

    /** addOutput: the file joins the collection under its name. */
    method AddOutput(name: string, temp: Path)
      modifies this
      ensures pending == old(pending)[name := temp]
    {
      pending := pending[name := temp];
    }

    /** flushOutputs: every pending file is moved to the output, in the
        given iteration order of the collection, overwriting existing files
        only when allowed; the collection is then empty.  A failure is the
        TaskIOException executeCopyAndDelete raised. */
    method FlushOutputs(disk: Disk, output: TaskOutput, overwrite: bool, order: seq<Entry>) returns (outcome: Outcome)
      requires Enumerates(order, pending)
      modifies this, disk, SinkOf(Some(Destination(output, overwrite)))
      ensures var destination := Some(Destination(output, overwrite));
        var step := ExecuteOn(old(disk.nodes), disk.env, old(ArchiveOf(destination)), destination, order);
        && disk.nodes == step.nodes
        && outcome == step.outcome
        && ArchiveOf(destination) == step.archive
      ensures pending == map[]
    {
      outcome := ExecuteCopyAndDelete(disk, Some(Destination(output, overwrite)), order);
      pending := map[];
    }
  }
}
