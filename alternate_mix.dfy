/**
 * The command line transformer of the alternate mix task: the file
 * arguments (each of which may stand for several PDF sources) are
 * flattened in order; there must be exactly two sources, the first mixed
 * with the reverseFirst/firstStep options and the second with
 * reverseSecond/secondStep.
 */
module AlternateMixCliArgumentsTransformer {
  import opened Wrappers
  import opened Text

  /** A PDF source, known by its file name. */
  datatype PdfFileSource = PdfFileSource(name: string)

  /** One --files argument and the sources it resolves to. */
  datatype FileArgument = FileArgument(sources: seq<PdfFileSource>)

  datatype AlternateMixTaskCliArguments = AlternateMixTaskCliArguments(
    files: seq<FileArgument>,
    reverseFirst: bool,
    firstStep: int,
    reverseSecond: bool,
    secondStep: int)

  datatype PdfMixInput = PdfMixInput(source: PdfFileSource, reverse: bool, step: int)

  datatype AlternateMixParameters = AlternateMixParameters(first: PdfMixInput, second: PdfMixInput)

  /** The ArgumentValidationException. */
  datatype ArgumentValidation = ArgumentValidation(message: string)

  /** The sources of all the arguments, argument by argument. */
  function Flatten(files: seq<FileArgument>): (sources: seq<PdfFileSource>)
    decreases |files|
  {
    if files == [] then [] else files[0].sources + Flatten(files[1..])
  }

  /** Flattening follows the arguments in order: the sources of a + b are
      those of a followed by those of b. */
  lemma {:induction false} FlattenAppend(a: seq<FileArgument>, b: seq<FileArgument>)
    ensures Flatten(a + b) == Flatten(a) + Flatten(b)
    decreases |a|
  {
    if a == [] {
      assert a + b == b;
    } else {
      assert (a + b)[1..] == a[1..] + b;
      FlattenAppend(a[1..], b);
    }
  }

  /** Each argument contributes its own sources, unchanged. */
  lemma FlattenOne(f: FileArgument)
    ensures Flatten([f]) == f.sources
  {
    assert [f][1..] == [];
  }

  function WrongCountMessage(arguments: nat): string
  {
    "Please specify two files as input parameters, found " + Decimal(arguments)
  }

  /** toTaskParameters, up to the output and common options, which the base
      transformer fills in. */
  function ToTaskParameters(args: AlternateMixTaskCliArguments): (r: Result<AlternateMixParameters, ArgumentValidation>)
    ensures r.Success? <==> |Flatten(args.files)| == 2
    ensures r.Failure? ==> r.error.message == WrongCountMessage(|args.files|)
    ensures r.Success? ==>
      var sources := Flatten(args.files);
      && r.value.first == PdfMixInput(sources[0], args.reverseFirst, args.firstStep)
      && r.value.second == PdfMixInput(sources[1], args.reverseSecond, args.secondStep)
  {
    var sources := Flatten(args.files);
    if |sources| != 2 then
      Failure(ArgumentValidation(WrongCountMessage(|args.files|)))
    else
      var input1 := PdfMixInput(sources[0], args.reverseFirst, args.firstStep);
      var input2 := PdfMixInput(sources[1], args.reverseSecond, args.secondStep);
      Success(AlternateMixParameters(input1, input2))
  }

  /** Two arguments of one source each give the first and the second
      input, in the order given, each with its own options. */
  lemma TwoFilesInOrder(a: PdfFileSource, b: PdfFileSource, args: AlternateMixTaskCliArguments)
    requires args.files == [FileArgument([a]), FileArgument([b])]
    ensures ToTaskParameters(args) == Success(AlternateMixParameters(
      PdfMixInput(a, args.reverseFirst, args.firstStep),
      PdfMixInput(b, args.reverseSecond, args.secondStep)))
  {
    FlattenAppend([FileArgument([a])], [FileArgument([b])]);
    FlattenOne(FileArgument([a]));
    FlattenOne(FileArgument([b]));
  }

  /** The count in the message is the number of arguments, not of sources:
      one argument standing for three sources is refused with "found 1". */
  lemma MessageCountsArguments(a: PdfFileSource, b: PdfFileSource, c: PdfFileSource, args: AlternateMixTaskCliArguments)
    requires args.files == [FileArgument([a, b, c])]
    ensures ToTaskParameters(args) == Failure(ArgumentValidation(
      "Please specify two files as input parameters, found 1"))
  {
    FlattenOne(FileArgument([a, b, c]));
    assert Decimal(1) == [DigitChar(1)] == "1";
    assert WrongCountMessage(|args.files|) == "Please specify two files as input parameters, found 1";
  }

  /** And one argument standing for exactly two sources is accepted. */
  lemma OneArgumentTwoSources(a: PdfFileSource, b: PdfFileSource, args: AlternateMixTaskCliArguments)
    requires args.files == [FileArgument([a, b])]
    ensures ToTaskParameters(args).Success?
    ensures ToTaskParameters(args).value.first.source == a
    ensures ToTaskParameters(args).value.second.source == b
  {
    FlattenOne(FileArgument([a, b]));
  }
}
