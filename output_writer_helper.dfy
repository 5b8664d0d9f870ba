/**
 * OutputWriterHelper.executeCopyAndDelete: the temporary files a task
 * produced, keyed by their final names, are moved to the task's
 * destination -- one file, a directory, or a zip stream -- and deleted.
 *
 * Each operation is a function over the file system (and the zip stream)
 * that returns the new state and the outcome, and a method on the Disk and
 * ZipSink objects that is proved to do exactly that.  The map of files is
 * a sequence of entries in the map's iteration order; the lemmas below
 * hold for every order.
 */
module OutputWriterHelper {
  import opened Wrappers
  import opened Text
  import opened FileSystem

  /** One entry of the Map<String, File>: the output name and the temporary file. */
  datatype Entry = Entry(name: string, temp: Path)

  datatype ZipEntry = ZipEntry(name: string, content: seq<bv8>)

  /** The output stream the zip is written to. */
  class ZipSink {
    var entries: seq<ZipEntry>
    var closed: bool

    constructor()
      ensures entries == [] && !closed
    {
      entries := [];
      closed := false;
    }
  }

  datatype TaskOutput = FileOutput(file: Path) | DirectoryOutput(directory: Path) | StreamOutput(stream: ZipSink)

  datatype Destination = Destination(output: TaskOutput, overwrite: bool)

  /** The TaskIOException messages, one per throw site. */
  datatype IoError =
    | DestinationNotSet
    | NotAFile(file: Path)
    | WrongMapSize(size: nat, file: Path)
    | NotADirectory(directory: Path)
    | MkdirsFailed(directory: Path)
    | NoOutputName(temp: Path)
    | OverwriteRefused(output: Path, input: Path)
    | CopyFailed(input: Path, output: Path)
    | ZipCopyFailed(temp: Path)

  datatype Outcome = Done | Failed(error: IoError)

  /** The state of the zip stream: entries written so far, and whether it was closed. */
  datatype Archive = Archive(entries: seq<ZipEntry>, closed: bool)

  datatype DiskStep = DiskStep(nodes: Nodes, outcome: Outcome)

  datatype StreamStep = StreamStep(nodes: Nodes, archive: Archive, outcome: Outcome)

  // ---------------------------------------------------------------------
  // Specification

  /** copyFile: refuse to overwrite, then copy, then delete the input
      whether or not the copy threw. */
  function CopyFileOn(nodes: Nodes, env: Env, input: Path, output: Path, overwrite: bool): DiskStep
  {
    if !overwrite && output in nodes then DiskStep(nodes, Failed(OverwriteRefused(output, input)))
    else
      var outcome := if CopySucceeds(nodes, env, input, output) then Done else Failed(CopyFailed(input, output));
      DiskStep(Deleted(Copied(nodes, env, input, output), env, input), outcome)
  }

  /** copyToFile: the target must not be a directory and the map must hold one file. */
  function CopyToFileOn(nodes: Nodes, env: Env, files: seq<Entry>, file: Path, overwrite: bool): DiskStep
  {
    if file in nodes && !IsFile(nodes, file) then DiskStep(nodes, Failed(NotAFile(file)))
    else if |files| != 1 then DiskStep(nodes, Failed(WrongMapSize(|files|, file)))
    else CopyFileOn(nodes, env, files[0].temp, file, overwrite)
  }

  /** The loop of copyToDirectory: each entry to directory/name, stopping at
      the first failure. */
  function DirectoryLoop(nodes: Nodes, env: Env, files: seq<Entry>, dir: Path, overwrite: bool): DiskStep
    decreases |files|
  {
    if files == [] then DiskStep(nodes, Done)
    else if IsBlank(files[0].name) then DiskStep(nodes, Failed(NoOutputName(files[0].temp)))
    else
      var step := CopyFileOn(nodes, env, files[0].temp, Child(dir, files[0].name), overwrite);
      if step.outcome.Failed? then step
      else DirectoryLoop(step.nodes, env, files[1..], dir, overwrite)
  }

  /** One turn of the directory loop on a named entry. */
  lemma DirectoryLoopCons(nodes: Nodes, env: Env, files: seq<Entry>, dir: Path, overwrite: bool)
    requires files != [] && !IsBlank(files[0].name)
    ensures DirectoryLoop(nodes, env, files, dir, overwrite)
      == var step := CopyFileOn(nodes, env, files[0].temp, Child(dir, files[0].name), overwrite);
         if step.outcome.Failed? then step else DirectoryLoop(step.nodes, env, files[1..], dir, overwrite)
  {
  }

  /** copyToDirectory, with the mkdirs branch as written. */
  function CopyToDirectoryOn(nodes: Nodes, env: Env, files: seq<Entry>, dir: Path, overwrite: bool): DiskStep
  {
    if !IsDirectory(nodes, dir) then DiskStep(nodes, Failed(NotADirectory(dir)))
    else if dir !in nodes && dir in env.unmakeable then DiskStep(nodes, Failed(MkdirsFailed(dir)))
    else
      var made := if dir !in nodes then nodes[dir := Directory] else nodes;
      DirectoryLoop(made, env, files, dir, overwrite)
  }

  /** Whether a temporary file can be opened and its content written to the
      zip: a FileInputStream needs a readable file, and the stream must be open. */
  predicate ZipReadable(nodes: Nodes, env: Env, archive: Archive, temp: Path)
  {
    IsFile(nodes, temp) && temp !in env.unreadable && !archive.closed
  }

  /** The loop of copyToStream: each entry becomes a zip entry named by its
      key; the temporary file is deleted in the finally block. */
  function StreamLoop(nodes: Nodes, env: Env, archive: Archive, files: seq<Entry>): StreamStep
    decreases |files|
  {
    if files == [] then StreamStep(nodes, archive, Done)
    else
      var e := files[0];
      if IsBlank(e.name) then StreamStep(nodes, archive, Failed(NoOutputName(e.temp)))
      else if ZipReadable(nodes, env, archive, e.temp) then
        var written := Archive(archive.entries + [ZipEntry(e.name, nodes[e.temp].content)], false);
        StreamLoop(Deleted(nodes, env, e.temp), env, written, files[1..])
      else StreamStep(Deleted(nodes, env, e.temp), archive, Failed(ZipCopyFailed(e.temp)))
  }

  /** copyToStream: the zip is closed only when the loop completes. */
  function CopyToStreamOn(nodes: Nodes, env: Env, archive: Archive, files: seq<Entry>): StreamStep
  {
    var step := StreamLoop(nodes, env, archive, files);
    if step.outcome.Done? then StreamStep(step.nodes, Archive(step.archive.entries, true), Done)
    else step
  }

  /** executeCopyAndDelete: dispatch on the kind of destination.  archive is
      the state of the stream when the destination is a stream. */
  function ExecuteOn(nodes: Nodes, env: Env, archive: Archive, destination: Option<Destination>, files: seq<Entry>): StreamStep
  {
    match destination
    case None => StreamStep(nodes, archive, Failed(DestinationNotSet))
    case Some(Destination(output, overwrite)) =>
      match output
      case StreamOutput(_) => CopyToStreamOn(nodes, env, archive, files)
      case FileOutput(file) =>
        var step := CopyToFileOn(nodes, env, files, file, overwrite);
        StreamStep(step.nodes, archive, step.outcome)
      case DirectoryOutput(dir) =>
        var step := CopyToDirectoryOn(nodes, env, files, dir, overwrite);
        StreamStep(step.nodes, archive, step.outcome)
  }

  // ---------------------------------------------------------------------
  // The operations on the disk and the stream

  /** The objects a flush may change besides the disk. */
  function SinkOf(destination: Option<Destination>): set<object>
  {
    if destination.Some? && destination.value.output.StreamOutput? then {destination.value.output.stream} else {}
  }

  /** The state of the destination's stream; empty and open for other kinds. */
  function ArchiveOf(destination: Option<Destination>): Archive
    reads SinkOf(destination)
  {
    if destination.Some? && destination.value.output.StreamOutput? then
      var sink := destination.value.output.stream;
      Archive(sink.entries, sink.closed)
    else Archive([], false)
  }

  /** OutputWriterHelper.delete: a failed delete is only logged. */
  method DeleteQuietly(disk: Disk, file: Path)
    modifies disk
    ensures disk.nodes == Deleted(old(disk.nodes), disk.env, file)
  {
    var deleted := disk.Delete(file);
  }

  method CopyFile(disk: Disk, input: Path, output: Path, overwrite: bool) returns (outcome: Outcome)
    modifies disk
    ensures DiskStep(disk.nodes, outcome) == CopyFileOn(old(disk.nodes), disk.env, input, output, overwrite)
  {
    if !overwrite && output in disk.nodes {
      return Failed(OverwriteRefused(output, input));
    }
    var ok := disk.Copy(input, output);
    outcome := if ok then Done else Failed(CopyFailed(input, output));
    DeleteQuietly(disk, input);
  }

  method CopyToFile(disk: Disk, files: seq<Entry>, file: Path, overwrite: bool) returns (outcome: Outcome)
    modifies disk
    ensures DiskStep(disk.nodes, outcome) == CopyToFileOn(old(disk.nodes), disk.env, files, file, overwrite)
  {
    if file in disk.nodes && !IsFile(disk.nodes, file) {
      return Failed(NotAFile(file));
    }
    if |files| != 1 {
      return Failed(WrongMapSize(|files|, file));
    }
    // the loop over the map runs once: it holds exactly one entry
    outcome := CopyFile(disk, files[0].temp, file, overwrite);
  }

  method CopyToDirectory(disk: Disk, files: seq<Entry>, dir: Path, overwrite: bool) returns (outcome: Outcome)
    modifies disk
    ensures DiskStep(disk.nodes, outcome) == CopyToDirectoryOn(old(disk.nodes), disk.env, files, dir, overwrite)
  {
    if !IsDirectory(disk.nodes, dir) {
      return Failed(NotADirectory(dir));
    }
    if dir !in disk.nodes {
      // mkdirs: a directory that passed the check above exists
      assert false;
    }
    outcome := CopyEntries(disk, files, dir, overwrite);
  }

  /** The loop of copyToDirectory. */
  method CopyEntries(disk: Disk, files: seq<Entry>, dir: Path, overwrite: bool) returns (outcome: Outcome)
    modifies disk
    ensures DiskStep(disk.nodes, outcome) == DirectoryLoop(old(disk.nodes), disk.env, files, dir, overwrite)
  {
    var i := 0;
    while i < |files|
      invariant 0 <= i <= |files|
      invariant DirectoryLoop(old(disk.nodes), disk.env, files, dir, overwrite)
        == DirectoryLoop(disk.nodes, disk.env, files[i..], dir, overwrite)
      decreases |files| - i
    {
      assert files[i..][1..] == files[i + 1..];
      if IsBlank(files[i].name) {
        return Failed(NoOutputName(files[i].temp));
      }
      DirectoryLoopCons(disk.nodes, disk.env, files[i..], dir, overwrite);
      outcome := CopyFile(disk, files[i].temp, Child(dir, files[i].name), overwrite);
      if outcome.Failed? {
        return;
      }
      i := i + 1;
    }
    outcome := Done;
  }

  method CopyToStream(disk: Disk, files: seq<Entry>, sink: ZipSink) returns (outcome: Outcome)
    modifies disk, sink
    ensures StreamStep(disk.nodes, Archive(sink.entries, sink.closed), outcome)
      == CopyToStreamOn(old(disk.nodes), disk.env, old(Archive(sink.entries, sink.closed)), files)
  {
    ghost var start := disk.nodes;
    ghost var startArchive := Archive(sink.entries, sink.closed);
    var i := 0;
    while i < |files|
      invariant 0 <= i <= |files|
      invariant StreamLoop(start, disk.env, startArchive, files)
        == StreamLoop(disk.nodes, disk.env, Archive(sink.entries, sink.closed), files[i..])
      decreases |files| - i
    {
      assert files[i..][1..] == files[i + 1..];
      var e := files[i];
      if IsBlank(e.name) {
        return Failed(NoOutputName(e.temp));
      }
      if ZipReadable(disk.nodes, disk.env, Archive(sink.entries, sink.closed), e.temp) {
        sink.entries := sink.entries + [ZipEntry(e.name, disk.nodes[e.temp].content)];
        DeleteQuietly(disk, e.temp);
      } else {
        DeleteQuietly(disk, e.temp);
        return Failed(ZipCopyFailed(e.temp));
      }
      i := i + 1;
    }
    sink.closed := true;
    outcome := Done;
  }

  method ExecuteCopyAndDelete(disk: Disk, destination: Option<Destination>, files: seq<Entry>) returns (outcome: Outcome)
    modifies disk, SinkOf(destination)
    ensures var step := ExecuteOn(old(disk.nodes), disk.env, old(ArchiveOf(destination)), destination, files);
      && disk.nodes == step.nodes
      && outcome == step.outcome
      && ArchiveOf(destination) == step.archive
  {
    if destination.None? {
      return Failed(DestinationNotSet);
    }
    var Destination(output, overwrite) := destination.value;
    match output
    case StreamOutput(sink) =>
      outcome := CopyToStream(disk, files, sink);
    case FileOutput(file) =>
      outcome := CopyToFile(disk, files, file, overwrite);
    case DirectoryOutput(dir) =>
      outcome := CopyToDirectory(disk, files, dir, overwrite);
  }
}
