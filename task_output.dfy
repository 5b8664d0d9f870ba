/**
 * FileOrDirectoryTaskOutput: a task output naming a file or a directory on
 * disk.  It refuses a null file, hands its file back as its destination,
 * dispatches itself to an output writer (double dispatch), turning the
 * writer's IOException into a TaskOutputVisitException, and is equal to
 * another instance, of this class or a subclass, exactly when the files
 * are.
 */
module FileOrDirectoryTaskOutput {
  import opened Wrappers
  import opened FileSystem
  import opened JavaInt

  const ClassName: string := "org.sejda.model.output.FileOrDirectoryTaskOutput"

  datatype FileOrDirectoryTaskOutput = FileOrDirectoryTaskOutput(file: Path)

  /** The exceptions these members throw. */
  datatype Exception =
    | IllegalArgument(message: string)
    | TaskOutputVisit(message: string, cause: string)

  const NullFileMessage: string := "A not null file or directory instance is expected. Path: null"
  const DispatchMessage: string := "Exception dispatching the file task output."

  /** The constructor: a null file is refused, any other is kept. */
  function New(file: Option<Path>): (r: Result<FileOrDirectoryTaskOutput, Exception>)
    ensures r.Success? <==> file.Some?
    ensures r.Failure? ==> r.error == IllegalArgument(NullFileMessage)
  {
    if file.None? then Failure(IllegalArgument(NullFileMessage))
    else Success(FileOrDirectoryTaskOutput(file.value))
  }

  /** getDestination. */
  function GetDestination(self: FileOrDirectoryTaskOutput): Path
  {
    self.file
  }

  /** What the constructor is given getDestination hands back. */
  lemma DestinationRoundTrip(file: Option<Path>)
    requires file.Some?
    ensures New(file).Success? && GetDestination(New(file).value) == file.value
  {
  }

  /** A TaskOutputDispatcher (the output writer), seen from the output: it
      records what it is asked to dispatch and fails, with the message of
      the IOException it throws, where failure says so. */
  class Dispatcher {
    var dispatched: seq<FileOrDirectoryTaskOutput>
    const failure: FileOrDirectoryTaskOutput -> Option<string>

    constructor(failure: FileOrDirectoryTaskOutput -> Option<string>)
      ensures dispatched == [] && this.failure == failure
    {
      dispatched := [];
      this.failure := failure;
    }

    method Dispatch(output: FileOrDirectoryTaskOutput) returns (ioError: Option<string>)
      modifies this
      ensures dispatched == old(dispatched) + [output]
      ensures ioError == failure(output)
    {
      dispatched := dispatched + [output];
      ioError := failure(output);
    }
  }

  /** accept: the writer dispatches this output exactly once; its
      IOException comes out as a TaskOutputVisitException with a fixed
      message and the IOException as the cause. */
  method Accept(self: FileOrDirectoryTaskOutput, writer: Dispatcher) returns (r: Result<(), Exception>)
    modifies writer
    ensures writer.dispatched == old(writer.dispatched) + [self]
    ensures r.Success? <==> writer.failure(self).None?
    ensures r.Failure? ==> r.error == TaskOutputVisit(DispatchMessage, writer.failure(self).value)
  {
    var ioError := writer.Dispatch(self);
    if ioError.Some? {
      r := Failure(TaskOutputVisit(DispatchMessage, ioError.value));
    } else {
      r := Success(());
    }
  }

  /** The argument of equals(Object): null, an object that is a
      FileOrDirectoryTaskOutput (of this class or, when runtimeClass says
      otherwise, of a subclass), or an object of an unrelated class. */
  datatype Obj =
    | Null
    | Output(runtimeClass: string, output: FileOrDirectoryTaskOutput)
    | Unrelated(runtimeClass: string)

  function AsObject(self: FileOrDirectoryTaskOutput): Obj
  {
    Output(ClassName, self)
  }

  /** equals: identity first, then the instanceof test, then the files. */
  predicate Equals(self: FileOrDirectoryTaskOutput, other: Obj)
  {
    if other == AsObject(self) then true
    else if !other.Output? then false
    else self.file == other.output.file
  }

  /** hashCode: new HashCodeBuilder().append(file), that is
      17 * 37 + file.hashCode() in int arithmetic; File.hashCode is the
      platform's and is given as fileHash. */
  function HashCode(self: FileOrDirectoryTaskOutput, fileHash: Path -> int32): (h: int32)
    ensures (h as int - 629 - fileHash(self.file) as int) % TwoTo32 == 0
  {
    Wrap(17 * 37 + fileHash(self.file) as int)
  }

  /** equals holds exactly for instances, subclasses included, with the
      same file: never for null or an unrelated class. */
  lemma EqualsMeansSameFile(self: FileOrDirectoryTaskOutput, other: Obj)
    ensures Equals(self, other) <==> other.Output? && other.output.file == self.file
  {
  }

  /** equals is reflexive, symmetric and transitive on outputs. */
  lemma EqualsIsEquivalence(a: FileOrDirectoryTaskOutput, b: FileOrDirectoryTaskOutput, c: FileOrDirectoryTaskOutput)
    ensures Equals(a, AsObject(a))
    ensures Equals(a, AsObject(b)) <==> Equals(b, AsObject(a))
    ensures Equals(a, AsObject(b)) && Equals(b, AsObject(c)) ==> Equals(a, AsObject(c))
  {
  }

  /** Equal outputs hash alike, whatever the platform's File.hashCode; and
      the hash code differs exactly where the file hashes differ. */
  lemma HashCodeConsistent(a: FileOrDirectoryTaskOutput, b: FileOrDirectoryTaskOutput, fileHash: Path -> int32)
    ensures Equals(a, AsObject(b)) ==> HashCode(a, fileHash) == HashCode(b, fileHash)
    ensures HashCode(a, fileHash) == HashCode(b, fileHash) <==> fileHash(a.file) == fileHash(b.file)
  {
    if HashCode(a, fileHash) == HashCode(b, fileHash) {
      WrapInjective(629 + fileHash(a.file) as int, 629 + fileHash(b.file) as int);
    }
  }
}
