/**
 * What OutputWriterHelper guarantees, stated over its specification
 * functions and proved for every iteration order of the map of files.
 */
module OutputWriterProperties {
  import opened Wrappers
  import opened Text
  import opened FileSystem
  import opened OutputWriterHelper

  predicate DistinctNames(files: seq<Entry>)
  {
    forall i, j :: 0 <= i < j < |files| ==> files[i].name != files[j].name
  }

  predicate DistinctTemps(files: seq<Entry>)
  {
    forall i, j :: 0 <= i < j < |files| ==> files[i].temp != files[j].temp
  }

  /** p is a temporary file of one of the entries or the target of one of them in dir. */
  predicate Touched(files: seq<Entry>, dir: Path, p: Path)
  {
    exists i :: 0 <= i < |files| && (p == files[i].temp || p == Child(dir, files[i].name))
  }

  /** p holds the same thing (or nothing) in both file systems. */
  predicate SameAt(a: Nodes, b: Nodes, p: Path)
  {
    (p in a <==> p in b) && (p in a ==> a[p] == b[p])
  }

  /** p was missing from a and is a directory in b: made on the way to a target. */
  predicate Made(a: Nodes, b: Nodes, p: Path)
  {
    p !in a && p in b && b[p].Directory?
  }

  // ---------------------------------------------------------------------
  // copyFile

  /** copyFile refuses an existing output without overwrite and then leaves
      everything, the input included, in place; otherwise it deletes the
      input whether or not the copy worked, and on success the output holds
      the input's content.  No other path changes, except the missing
      directories on the way to the output, which FileUtils.copyFile makes
      before it can fail on the rights of the input or the output. */
  lemma CopyFileOutcome(nodes: Nodes, env: Env, input: Path, output: Path, overwrite: bool)
    ensures var r := CopyFileOn(nodes, env, input, output, overwrite);
      && (r.outcome.Done? <==> (overwrite || output !in nodes) && CopySucceeds(nodes, env, input, output))
      && (!overwrite && output in nodes ==> r.nodes == nodes)
      && (overwrite || output !in nodes ==>
            (input in r.nodes <==> input in nodes && (input in env.undeletable || !Removable(nodes, input))))
      && (r.outcome.Done? ==> output in r.nodes && r.nodes[output] == nodes[input])
      && (forall p :: p != input && p != output ==>
            SameAt(r.nodes, nodes, p) || (Ancestor(p, output) && Made(nodes, r.nodes, p)))
  {
    var r := CopyFileOn(nodes, env, input, output, overwrite);
    if overwrite || output !in nodes {
      var copied := Copied(nodes, env, input, output);
      assert r.nodes == Deleted(copied, env, input);
      if CopySucceeds(nodes, env, input, output) {
        assert input in copied && copied[input] == nodes[input];
      }
    }
  }

  /** The parent directories FileUtils.copyFile makes stay when the copy
      then throws: once the input is a file other than the output and the
      way to the output can be made, every directory on it is there
      afterwards, whether or not the input could be read or the output
      written. */
  lemma CopyMakesParents(nodes: Nodes, env: Env, input: Path, output: Path, overwrite: bool)
    requires overwrite || output !in nodes
    requires CopyStarts(nodes, input, output) && ParentsReady(nodes, env, output)
    ensures var r := CopyFileOn(nodes, env, input, output, overwrite);
      forall p :: Ancestor(p, output) ==> IsDirectory(r.nodes, p)
  {
  }

  // ---------------------------------------------------------------------
  // Rejections before any copy

  /** A missing destination, a file destination that is a directory or gets
      other than one file, and a directory destination that is not an
      existing directory all fail before any file is copied or deleted, so
      every temporary file survives. */
  lemma RejectedDestinationTouchesNothing(nodes: Nodes, env: Env, archive: Archive, destination: Option<Destination>, files: seq<Entry>)
    requires
      || destination.None?
      || (destination.value.output.FileOutput?
          && var f := destination.value.output.file; (f in nodes && !IsFile(nodes, f)) || |files| != 1)
      || (destination.value.output.DirectoryOutput? && !IsDirectory(nodes, destination.value.output.directory))
    ensures var r := ExecuteOn(nodes, env, archive, destination, files);
      r.nodes == nodes && r.archive == archive && r.outcome.Failed?
      && (destination.None? ==> r.outcome.error == DestinationNotSet)
  {
  }

  /** The mkdirs branch of copyToDirectory can never be taken: past the
      isDirectory check the directory exists, so copyToDirectory is the
      loop over the entries. */
  lemma MkdirsUnreachable(nodes: Nodes, env: Env, files: seq<Entry>, dir: Path, overwrite: bool)
    ensures CopyToDirectoryOn(nodes, env, files, dir, overwrite)
      == if IsDirectory(nodes, dir) then DirectoryLoop(nodes, env, files, dir, overwrite)
         else DiskStep(nodes, Failed(NotADirectory(dir)))
    ensures CopyToDirectoryOn(nodes, env, files, dir, overwrite).outcome != Failed(MkdirsFailed(dir))
  {
    DirectoryLoopErrors(nodes, env, files, dir, overwrite);
  }

  /** The failures the directory loop can report. */
  lemma {:induction false} DirectoryLoopErrors(nodes: Nodes, env: Env, files: seq<Entry>, dir: Path, overwrite: bool)
    ensures var o := DirectoryLoop(nodes, env, files, dir, overwrite).outcome;
      o.Done? || o.error.NoOutputName? || o.error.OverwriteRefused? || o.error.CopyFailed?
    decreases |files|
  {
    if files != [] && !IsBlank(files[0].name) {
      var step := CopyFileOn(nodes, env, files[0].temp, Child(dir, files[0].name), overwrite);
      if step.outcome.Done? {
        DirectoryLoopErrors(step.nodes, env, files[1..], dir, overwrite);
      }
    }
  }

  // ---------------------------------------------------------------------
  // The directory loop

  /** The loop over a + b is the loop over a followed, if that completed,
      by the loop over b: entries already processed stay processed. */
  lemma {:induction false} DirectoryLoopSplit(nodes: Nodes, env: Env, a: seq<Entry>, b: seq<Entry>, dir: Path, overwrite: bool)
    ensures DirectoryLoop(nodes, env, a + b, dir, overwrite)
      == var s := DirectoryLoop(nodes, env, a, dir, overwrite);
         if s.outcome.Failed? then s else DirectoryLoop(s.nodes, env, b, dir, overwrite)
    decreases |a|
  {
    if a == [] {
      assert a + b == b;
    } else {
      assert (a + b)[0] == a[0];
      assert (a + b)[1..] == a[1..] + b;
      if !IsBlank(a[0].name) {
        var step := CopyFileOn(nodes, env, a[0].temp, Child(dir, a[0].name), overwrite);
        if step.outcome.Done? {
          DirectoryLoopSplit(step.nodes, env, a[1..], b, dir, overwrite);
        }
      }
    }
  }

  /** An entry with a blank name stops the loop: the entries before it are
      copied and deleted, it and the entries after it are left alone. */
  lemma DirectoryBlankAborts(nodes: Nodes, env: Env, done: seq<Entry>, e: Entry, rest: seq<Entry>, dir: Path, overwrite: bool)
    requires IsBlank(e.name)
    ensures DirectoryLoop(nodes, env, done + [e] + rest, dir, overwrite)
      == var s := DirectoryLoop(nodes, env, done, dir, overwrite);
         if s.outcome.Failed? then s else DiskStep(s.nodes, Failed(NoOutputName(e.temp)))
  {
    assert done + [e] + rest == done + ([e] + rest);
    DirectoryLoopSplit(nodes, env, done, [e] + rest, dir, overwrite);
  }

  /** p is dir or a directory on the way to it. */
  predicate OnTheWay(p: Path, dir: Path)
  {
    0 < |p| <= |dir| && dir[..|p|] == p
  }

  /** The directories on the way to a target in dir are dir and those on the way to it. */
  lemma AncestorOfChild(dir: Path, name: string, p: Path)
    ensures Ancestor(p, Child(dir, name)) <==> OnTheWay(p, dir)
  {
    var c := Child(dir, name);
    if 0 < |p| <= |dir| {
      assert c[..|p|] == dir[..|p|];
    }
  }

  /** The loop changes nothing but the entries' temporary files and targets,
      and the directories on the way to dir that it has to make. */
  lemma {:induction false} DirectoryLoopFrame(nodes: Nodes, env: Env, files: seq<Entry>, dir: Path, overwrite: bool, p: Path)
    requires !Touched(files, dir, p)
    ensures var r := DirectoryLoop(nodes, env, files, dir, overwrite).nodes;
      SameAt(r, nodes, p) || (OnTheWay(p, dir) && Made(nodes, r, p))
    decreases |files|
  {
    if files != [] && !IsBlank(files[0].name) {
      var step := CopyFileOn(nodes, env, files[0].temp, Child(dir, files[0].name), overwrite);
      CopyFileOutcome(nodes, env, files[0].temp, Child(dir, files[0].name), overwrite);
      AncestorOfChild(dir, files[0].name, p);
      assert !Touched(files[1..], dir, p) by {
        forall i | 0 <= i < |files[1..]|
          ensures p != files[1..][i].temp && p != Child(dir, files[1..][i].name)
        {
          assert files[1..][i] == files[i + 1];
        }
      }
      if step.outcome.Done? {
        DirectoryLoopFrame(step.nodes, env, files[1..], dir, overwrite, p);
      }
    }
  }

  /** Every directory on the way to dir, dir included, is not a file, and
      the missing ones can be made. */
  predicate DirReady(nodes: Nodes, env: Env, dir: Path)
  {
    forall k :: 0 < k <= |dir| ==> !IsFile(nodes, dir[..k]) && (dir[..k] !in nodes ==> dir[..k] !in env.unmakeable)
  }

  /** A file is never on the way to a ready directory. */
  lemma ReadyNotFile(nodes: Nodes, env: Env, dir: Path, p: Path)
    requires DirReady(nodes, env, dir) && IsFile(nodes, p)
    ensures !OnTheWay(p, dir)
  {
    if 0 < |p| <= |dir| {
      assert !IsFile(nodes, dir[..|p|]);
    }
  }

  /** When one entry can be copied to dir. */
  predicate EntryDeliverable(nodes: Nodes, env: Env, e: Entry, dir: Path, overwrite: bool)
  {
    && !IsBlank(e.name)
    && IsFile(nodes, e.temp)
    && e.temp !in env.unreadable
    && Child(dir, e.name) !in env.unwritable
    && !IsDirectory(nodes, Child(dir, e.name))
    && (overwrite || Child(dir, e.name) !in nodes)
  }

  /** No temporary file is the target of an entry. */
  predicate TempsApart(files: seq<Entry>, dir: Path)
  {
    forall i, j :: 0 <= i < |files| && 0 <= j < |files| ==> files[i].temp != Child(dir, files[j].name)
  }

  /** When every entry can be delivered to dir. */
  predicate DirectoryDeliverable(nodes: Nodes, env: Env, files: seq<Entry>, dir: Path, overwrite: bool)
  {
    && DistinctNames(files)
    && DistinctTemps(files)
    && TempsApart(files, dir)
    && DirReady(nodes, env, dir)
    && (forall i :: 0 <= i < |files| ==> EntryDeliverable(nodes, env, files[i], dir, overwrite))
  }

  /** An entry that can be delivered to a ready directory is copied. */
  lemma EntryCopies(nodes: Nodes, env: Env, e: Entry, dir: Path, overwrite: bool)
    requires EntryDeliverable(nodes, env, e, dir, overwrite) && DirReady(nodes, env, dir)
    requires e.temp != Child(dir, e.name)
    ensures CopySucceeds(nodes, env, e.temp, Child(dir, e.name))
  {
    var c := Child(dir, e.name);
    forall k | 0 < k < |c|
      ensures !IsFile(nodes, c[..k]) && (c[..k] !in nodes ==> c[..k] !in env.unmakeable)
    {
      assert c[..k] == dir[..k];
    }
  }

  /** Copying an entry into dir keeps dir ready. */
  lemma ReadyKept(nodes: Nodes, env: Env, e: Entry, dir: Path, overwrite: bool)
    requires EntryDeliverable(nodes, env, e, dir, overwrite) && DirReady(nodes, env, dir)
    ensures DirReady(CopyFileOn(nodes, env, e.temp, Child(dir, e.name), overwrite).nodes, env, dir)
  {
    var c := Child(dir, e.name);
    var step := CopyFileOn(nodes, env, e.temp, c, overwrite);
    CopyFileOutcome(nodes, env, e.temp, c, overwrite);
    forall k | 0 < k <= |dir|
      ensures !IsFile(step.nodes, dir[..k]) && (dir[..k] !in step.nodes ==> dir[..k] !in env.unmakeable)
    {
      var a := dir[..k];
      assert OnTheWay(a, dir);
      ReadyNotFile(nodes, env, dir, e.temp);
      assert a != e.temp && a != c;
    }
  }

  /** An entry whose temporary file and target are as they were can still be delivered. */
  lemma EntryDeliverableKept(a: Nodes, b: Nodes, env: Env, e: Entry, dir: Path, overwrite: bool)
    requires EntryDeliverable(a, env, e, dir, overwrite)
    requires SameAt(b, a, e.temp) && SameAt(b, a, Child(dir, e.name))
    ensures EntryDeliverable(b, env, e, dir, overwrite)
  {
  }

  /** Dropping the first entry keeps the entries distinct and apart. */
  lemma DistinctTail(files: seq<Entry>, dir: Path)
    requires files != [] && DistinctNames(files) && DistinctTemps(files) && TempsApart(files, dir)
    ensures DistinctNames(files[1..]) && DistinctTemps(files[1..]) && TempsApart(files[1..], dir)
  {
    var rest := files[1..];
    forall i, j | 0 <= i < |rest| && 0 <= j < |rest|
      ensures rest[i].temp != Child(dir, rest[j].name)
      ensures i < j ==> rest[i].temp != rest[j].temp && rest[i].name != rest[j].name
    {
      assert rest[i] == files[i + 1] && rest[j] == files[j + 1];
    }
  }

  /** The first entry is delivered: its target holds its temporary file's
      content, the temporary file is gone unless it cannot be deleted, and
      the rest can still be delivered. */
  lemma DeliverableRest(nodes: Nodes, env: Env, files: seq<Entry>, dir: Path, overwrite: bool)
    requires files != [] && DirectoryDeliverable(nodes, env, files, dir, overwrite)
    ensures var step := CopyFileOn(nodes, env, files[0].temp, Child(dir, files[0].name), overwrite);
      && step.outcome.Done?
      && Child(dir, files[0].name) in step.nodes && step.nodes[Child(dir, files[0].name)] == nodes[files[0].temp]
      && (files[0].temp in step.nodes <==> files[0].temp in env.undeletable)
      && DirectoryDeliverable(step.nodes, env, files[1..], dir, overwrite)
  {
    var e := files[0];
    var c := Child(dir, e.name);
    var step := CopyFileOn(nodes, env, e.temp, c, overwrite);
    var rest := files[1..];
    assert EntryDeliverable(nodes, env, e, dir, overwrite);
    assert e.temp != c by {
      assert files[0].temp != Child(dir, files[0].name);
    }
    EntryCopies(nodes, env, e, dir, overwrite);
    CopyFileOutcome(nodes, env, e.temp, c, overwrite);
    ReadyKept(nodes, env, e, dir, overwrite);
    DistinctTail(files, dir);
    forall k | 0 <= k < |rest|
      ensures EntryDeliverable(step.nodes, env, rest[k], dir, overwrite)
    {
      assert rest[k] == files[k + 1];
      assert EntryDeliverable(nodes, env, rest[k], dir, overwrite);
      assert rest[k].temp != e.temp && rest[k].temp != c;
      assert e.temp != Child(dir, rest[k].name);
      ChildInjective(dir, e.name, rest[k].name);
      EntryDeliverableKept(nodes, step.nodes, env, rest[k], dir, overwrite);
    }
  }

  /** The entries after the first leave its target and its temporary file alone. */
  lemma FirstKept(nodes: Nodes, env: Env, files: seq<Entry>, dir: Path, overwrite: bool)
    requires files != [] && DistinctNames(files) && DistinctTemps(files) && TempsApart(files, dir)
    requires !OnTheWay(files[0].temp, dir)
    ensures var r := DirectoryLoop(nodes, env, files[1..], dir, overwrite).nodes;
      SameAt(r, nodes, Child(dir, files[0].name)) && SameAt(r, nodes, files[0].temp)
  {
    var e := files[0];
    var c := Child(dir, e.name);
    var rest := files[1..];
    assert !Touched(rest, dir, c) && !Touched(rest, dir, e.temp) by {
      forall k | 0 <= k < |rest|
        ensures c != rest[k].temp && c != Child(dir, rest[k].name)
        ensures e.temp != rest[k].temp && e.temp != Child(dir, rest[k].name)
      {
        assert rest[k] == files[k + 1];
        ChildInjective(dir, e.name, rest[k].name);
      }
    }
    DirectoryLoopFrame(nodes, env, rest, dir, overwrite, c);
    DirectoryLoopFrame(nodes, env, rest, dir, overwrite, e.temp);
  }

  /** When every entry can be delivered, the loop completes, each target
      holds its temporary file's content, and each temporary file is gone
      unless it cannot be deleted.  DirectoryFrame says what else may change. */
  lemma {:induction false} DirectoryDelivers(nodes: Nodes, env: Env, files: seq<Entry>, dir: Path, overwrite: bool)
    requires DirectoryDeliverable(nodes, env, files, dir, overwrite)
    ensures var r := DirectoryLoop(nodes, env, files, dir, overwrite);
      && r.outcome == Done
      && (forall i :: 0 <= i < |files| ==>
            Child(dir, files[i].name) in r.nodes && r.nodes[Child(dir, files[i].name)] == nodes[files[i].temp])
      && (forall i :: 0 <= i < |files| ==> (files[i].temp in r.nodes <==> files[i].temp in env.undeletable))
    decreases |files|
  {
    if files != [] {
      var e := files[0];
      var c := Child(dir, e.name);
      var step := CopyFileOn(nodes, env, e.temp, c, overwrite);
      var rest := files[1..];
      DeliverableRest(nodes, env, files, dir, overwrite);
      DirectoryDelivers(step.nodes, env, rest, dir, overwrite);
      var r := DirectoryLoop(step.nodes, env, rest, dir, overwrite);
      assert EntryDeliverable(nodes, env, e, dir, overwrite);
      DirectoryLoopCons(nodes, env, files, dir, overwrite);
      ReadyNotFile(nodes, env, dir, e.temp);
      FirstKept(step.nodes, env, files, dir, overwrite);
      forall i | 1 <= i < |files|
        ensures Child(dir, files[i].name) in r.nodes && r.nodes[Child(dir, files[i].name)] == nodes[files[i].temp]
        ensures files[i].temp in r.nodes <==> files[i].temp in env.undeletable
      {
        assert files[i] == rest[i - 1];
      }
    }
  }

  /** The same frame for everything outside the entries: the loop leaves
      every other path as it was, except the missing directories on the way
      to dir, which it makes. */
  lemma DirectoryFrame(nodes: Nodes, env: Env, files: seq<Entry>, dir: Path, overwrite: bool)
    ensures var r := DirectoryLoop(nodes, env, files, dir, overwrite);
      forall p :: !Touched(files, dir, p) ==> SameAt(r.nodes, nodes, p) || (OnTheWay(p, dir) && Made(nodes, r.nodes, p))
  {
    forall p | !Touched(files, dir, p)
      ensures var r := DirectoryLoop(nodes, env, files, dir, overwrite).nodes;
        SameAt(r, nodes, p) || (OnTheWay(p, dir) && Made(nodes, r, p))
    {
      DirectoryLoopFrame(nodes, env, files, dir, overwrite, p);
    }
  }

  // ---------------------------------------------------------------------
  // The zip stream

  /** The content of a file; empty when there is none. */
  function ContentOf(nodes: Nodes, p: Path): seq<bv8>
  {
    if IsFile(nodes, p) then nodes[p].content else []
  }

  /** The zip entries a sequence of entries becomes: its name and its file's content. */
  function ZipContents(nodes: Nodes, files: seq<Entry>): seq<ZipEntry>
  {
    seq(|files|, i requires 0 <= i < |files| => ZipEntry(files[i].name, ContentOf(nodes, files[i].temp)))
  }

  /** p is the temporary file of one of the entries. */
  predicate IsTemp(files: seq<Entry>, p: Path)
  {
    exists i :: 0 <= i < |files| && p == files[i].temp
  }

  /** The loop over a + b is the loop over a followed, if that completed,
      by the loop over b from the state a left. */
  lemma {:induction false} StreamLoopSplit(nodes: Nodes, env: Env, archive: Archive, a: seq<Entry>, b: seq<Entry>)
    ensures StreamLoop(nodes, env, archive, a + b)
      == var s := StreamLoop(nodes, env, archive, a);
         if s.outcome.Failed? then s else StreamLoop(s.nodes, env, s.archive, b)
    decreases |a|
  {
    if a == [] {
      assert a + b == b;
    } else {
      assert (a + b)[0] == a[0];
      assert (a + b)[1..] == a[1..] + b;
      var e := a[0];
      if !IsBlank(e.name) && ZipReadable(nodes, env, archive, e.temp) {
        var written := Archive(archive.entries + [ZipEntry(e.name, nodes[e.temp].content)], false);
        StreamLoopSplit(Deleted(nodes, env, e.temp), env, written, a[1..], b);
      }
    }
  }

  /** An entry with a blank name stops the loop before its temporary file is
      touched; the entries before it are already written and deleted. */
  lemma StreamBlankAborts(nodes: Nodes, env: Env, archive: Archive, done: seq<Entry>, e: Entry, rest: seq<Entry>)
    requires IsBlank(e.name)
    ensures StreamLoop(nodes, env, archive, done + [e] + rest)
      == var s := StreamLoop(nodes, env, archive, done);
         if s.outcome.Failed? then s else StreamStep(s.nodes, s.archive, Failed(NoOutputName(e.temp)))
  {
    assert done + [e] + rest == done + ([e] + rest);
    StreamLoopSplit(nodes, env, archive, done, [e] + rest);
  }

  /** The stream loop only deletes: every path left is as it was. */
  lemma {:induction false} StreamLoopOnlyDeletes(nodes: Nodes, env: Env, archive: Archive, files: seq<Entry>)
    ensures var r := StreamLoop(nodes, env, archive, files).nodes;
      forall p :: p in r ==> p in nodes && r[p] == nodes[p]
    decreases |files|
  {
    if files != [] && !IsBlank(files[0].name) && ZipReadable(nodes, env, archive, files[0].temp) {
      var e := files[0];
      var written := Archive(archive.entries + [ZipEntry(e.name, nodes[e.temp].content)], false);
      StreamLoopOnlyDeletes(Deleted(nodes, env, e.temp), env, written, files[1..]);
    }
  }

  /** Once the loop reaches an entry with a name, its temporary file is
      deleted whether or not it could be written to the zip (the finally
      block), unless the file system refuses; an empty directory in its
      place, which the FileInputStream refuses, is deleted as well. */
  lemma StreamTempDeleted(nodes: Nodes, env: Env, archive: Archive, done: seq<Entry>, e: Entry, rest: seq<Entry>)
    requires !IsBlank(e.name)
    requires var s := StreamLoop(nodes, env, archive, done);
      s.outcome.Done? && Removable(s.nodes, e.temp) && e.temp !in env.undeletable
    ensures e.temp !in StreamLoop(nodes, env, archive, done + [e] + rest).nodes
  {
    var s := StreamLoop(nodes, env, archive, done);
    assert done + [e] + rest == done + ([e] + rest);
    StreamLoopSplit(nodes, env, archive, done, [e] + rest);
    assert ([e] + rest)[0] == e && ([e] + rest)[1..] == rest;
    if ZipReadable(s.nodes, env, s.archive, e.temp) {
      var written := Archive(s.archive.entries + [ZipEntry(e.name, s.nodes[e.temp].content)], false);
      StreamLoopOnlyDeletes(Deleted(s.nodes, env, e.temp), env, written, rest);
    }
  }

  /** The loop keeps what was written: entries are only appended, a closed
      stream is never written to, and an open one stays open. */
  lemma {:induction false} StreamLoopArchive(nodes: Nodes, env: Env, archive: Archive, files: seq<Entry>)
    ensures var r := StreamLoop(nodes, env, archive, files).archive;
      && archive.entries <= r.entries
      && (archive.closed ==> r == archive)
      && (!archive.closed ==> !r.closed)
    decreases |files|
  {
    if files != [] && !IsBlank(files[0].name) && ZipReadable(nodes, env, archive, files[0].temp) {
      var e := files[0];
      var written := Archive(archive.entries + [ZipEntry(e.name, nodes[e.temp].content)], false);
      StreamLoopArchive(Deleted(nodes, env, e.temp), env, written, files[1..]);
    }
  }

  /** copyToStream closes the zip exactly when every entry was written (or
      it was closed already), and an aborted copy keeps the entries written
      before the failure. */
  lemma StreamClosedOnlyWhenDone(nodes: Nodes, env: Env, archive: Archive, files: seq<Entry>)
    ensures var r := CopyToStreamOn(nodes, env, archive, files);
      && (r.archive.closed <==> r.outcome.Done? || archive.closed)
      && archive.entries <= r.archive.entries
  {
    StreamLoopArchive(nodes, env, archive, files);
  }

  /** When every entry can be written to the zip. */
  predicate StreamDeliverable(nodes: Nodes, env: Env, archive: Archive, files: seq<Entry>)
  {
    && !archive.closed
    && DistinctTemps(files)
    && (forall i :: 0 <= i < |files| ==>
          !IsBlank(files[i].name) && IsFile(nodes, files[i].temp) && files[i].temp !in env.unreadable)
  }

  /** When every entry can be written, the loop appends one zip entry per
      entry, in order, with the entry's name and its file's content, and
      deletes every temporary file the file system lets go of. */
  lemma {:induction false} StreamLoopDelivers(nodes: Nodes, env: Env, archive: Archive, files: seq<Entry>)
    requires StreamDeliverable(nodes, env, archive, files)
    ensures var r := StreamLoop(nodes, env, archive, files);
      && r.outcome == Done
      && r.archive == Archive(archive.entries + ZipContents(nodes, files), false)
      && (forall i :: 0 <= i < |files| ==> (files[i].temp in r.nodes <==> files[i].temp in env.undeletable))
      && (forall p :: !IsTemp(files, p) ==> SameAt(r.nodes, nodes, p))
    decreases |files|
  {
    if files == [] {
      assert archive.entries + ZipContents(nodes, files) == archive.entries;
    } else {
      var e := files[0];
      var rest := files[1..];
      var next := Deleted(nodes, env, e.temp);
      var written := Archive(archive.entries + [ZipEntry(e.name, nodes[e.temp].content)], false);
      assert StreamDeliverable(next, env, written, rest) by {
        forall k | 0 <= k < |rest|
          ensures !IsBlank(rest[k].name) && IsFile(next, rest[k].temp) && rest[k].temp !in env.unreadable
        {
          assert rest[k] == files[k + 1];
        }
        forall i, j | 0 <= i < j < |rest|
          ensures rest[i].temp != rest[j].temp
        {
          assert rest[i] == files[i + 1] && rest[j] == files[j + 1];
        }
      }
      StreamLoopDelivers(next, env, written, rest);
      var r := StreamLoop(next, env, written, rest);
      assert StreamLoop(nodes, env, archive, files) == r;
      assert ZipContents(nodes, files) == [ZipEntry(e.name, nodes[e.temp].content)] + ZipContents(next, rest) by {
        forall k | 0 <= k < |rest|
          ensures ContentOf(next, rest[k].temp) == ContentOf(nodes, files[k + 1].temp)
        {
          assert rest[k] == files[k + 1];
        }
      }
      assert !IsTemp(rest, e.temp) by {
        forall k | 0 <= k < |rest|
          ensures e.temp != rest[k].temp
        {
          assert rest[k] == files[k + 1];
        }
      }
      forall i | 1 <= i < |files|
        ensures files[i].temp in r.nodes <==> files[i].temp in env.undeletable
      {
        assert files[i] == rest[i - 1];
      }
      forall p | !IsTemp(files, p)
        ensures SameAt(r.nodes, nodes, p)
      {
        assert p != files[0].temp;
        assert !IsTemp(rest, p) by {
          forall k | 0 <= k < |rest|
            ensures p != rest[k].temp
          {
            assert rest[k] == files[k + 1];
          }
        }
      }
    }
  }

  /** copyToStream then closes the zip. */
  lemma StreamDelivers(nodes: Nodes, env: Env, archive: Archive, files: seq<Entry>)
    requires StreamDeliverable(nodes, env, archive, files)
    ensures var r := CopyToStreamOn(nodes, env, archive, files);
      && r.outcome == Done
      && r.archive == Archive(archive.entries + ZipContents(nodes, files), true)
      && (forall i :: 0 <= i < |files| ==> (files[i].temp in r.nodes <==> files[i].temp in env.undeletable))
      && (forall p :: !IsTemp(files, p) ==> SameAt(r.nodes, nodes, p))
  {
    StreamLoopDelivers(nodes, env, archive, files);
  }
}
