/** Option and Result, for absent values and for the program's exits. */
module Wrappers {
  datatype Option<T> = None | Some(value: T)

  datatype Result<T, E> = Success(value: T) | Failure(error: E)
}

/** Command-line validation (`validate_args`). Each `sys.exit` becomes a
    `Failure` carrying the kind of message printed. `os.path.isfile` and
    Python's `int()` are parameters: `isFile` says whether a path names an
    existing file, and `parseInt` gives `Some(n)` when `int()` returns `n`
    and `None` when it raises `ValueError`. */
module Cli {
  import opened Wrappers
  import opened Text

  /** `ACCEPTED_FILE_FORMATS`. */
  const AcceptedFileFormats: seq<string> := [".csv", ".txt", ".docx", ".pdf", ".md", ".json", ".text"]

  /** `name.endswith(ACCEPTED_FILE_FORMATS)`: a tuple argument accepts a name
      that ends with any one of the suffixes. */
  predicate HasAcceptedExtension(name: string) {
    exists f :: f in AcceptedFileFormats && EndsWith(name, f)
  }

  datatype CliError =
    | UsageError                 // wrong number of arguments
    | InputNotFound(name: string) // "Input file does not exist"
    | UnsupportedExtension       // either name lacks an accepted extension
    | LineLengthNotPositive      // parsed, but <= 0
    | LineLengthNotInteger       // int() raised ValueError
    | SentencesNotPositive
    | SentencesNotInteger

  /** The validated command line; an absent number is asked for later. */
  datatype Args = Args(
    inputFile: string,
    outputFile: string,
    lineLength: Option<int>,
    sentencesPerParagraph: Option<int>)

  /** The `try: n = int(arg); if n <= 0: sys.exit(...) except ValueError:
      sys.exit(...)` block for one optional number. */
  function ParsePositive(arg: string, parseInt: string -> Option<int>, notPositive: CliError, notInteger: CliError): (r: Result<int, CliError>)
    ensures r.Success? <==> parseInt(arg).Some? && parseInt(arg).value > 0
    ensures r.Success? ==> r.value == parseInt(arg).value
    ensures r.Failure? ==> r.error == (if parseInt(arg).None? then notInteger else notPositive)
  {
    match parseInt(arg)
    case None => Failure(notInteger)
    case Some(n) => if n <= 0 then Failure(notPositive) else Success(n)
  }

  /** The argument `argv[i]` is present and parses to a positive integer. */
  predicate PositiveArg(argv: seq<string>, i: nat, parseInt: string -> Option<int>) {
    i < |argv| && parseInt(argv[i]).Some? && parseInt(argv[i]).value > 0
  }

  /** The checks shared by every version, in their order: the argument count
      lies in `3..maxArgs`, the input file exists, both names carry an
      accepted extension. */
  function CheckFiles(argv: seq<string>, maxArgs: nat, isFile: string -> bool): (r: Result<(string, string), CliError>)
    ensures r == Failure(UsageError) <==> !(3 <= |argv| <= maxArgs)
    ensures r.Success? <==>
      3 <= |argv| <= maxArgs && isFile(argv[1])
      && HasAcceptedExtension(argv[1]) && HasAcceptedExtension(argv[2])
    ensures r.Success? ==> r.value == (argv[1], argv[2])
    ensures r.Failure? && 3 <= |argv| <= maxArgs ==>
      r.error == (if !isFile(argv[1]) then InputNotFound(argv[1]) else UnsupportedExtension)
  {
    if |argv| < 3 || |argv| > maxArgs then Failure(UsageError)
    else if !isFile(argv[1]) then Failure(InputNotFound(argv[1]))
    else if !HasAcceptedExtension(argv[1]) || !HasAcceptedExtension(argv[2]) then Failure(UnsupportedExtension)
    else Success((argv[1], argv[2]))
  }

  /** `validate_args` of the final version: `program in out [line_length
      [sentences_per_paragraph]]`. The first failing check decides the error;
      on success each number is absent or positive. */
  function ValidateArgs(argv: seq<string>, isFile: string -> bool, parseInt: string -> Option<int>): (r: Result<Args, CliError>)
    ensures r.Success? <==>
      && 3 <= |argv| <= 5 && isFile(argv[1])
      && HasAcceptedExtension(argv[1]) && HasAcceptedExtension(argv[2])
      && (|argv| >= 4 ==> PositiveArg(argv, 3, parseInt))
      && (|argv| == 5 ==> PositiveArg(argv, 4, parseInt))
    ensures r.Success? ==>
      && r.value.inputFile == argv[1] && r.value.outputFile == argv[2]
      && r.value.lineLength == (if |argv| >= 4 then Some(parseInt(argv[3]).value) else None)
      && r.value.sentencesPerParagraph == (if |argv| == 5 then Some(parseInt(argv[4]).value) else None)
    ensures r == Failure(UsageError) <==> !(3 <= |argv| <= 5)
    ensures r.Failure? && r.error.InputNotFound? <==> 3 <= |argv| <= 5 && !isFile(argv[1])
    ensures r == Failure(UnsupportedExtension) <==>
      3 <= |argv| <= 5 && isFile(argv[1])
      && !(HasAcceptedExtension(argv[1]) && HasAcceptedExtension(argv[2]))
    ensures r.Failure? && r.error.InputNotFound? ==> r.error.name == argv[1]
    ensures r == Failure(LineLengthNotInteger) <==>
      CheckFiles(argv, 5, isFile).Success? && |argv| >= 4 && parseInt(argv[3]).None?
    ensures r == Failure(LineLengthNotPositive) <==>
      CheckFiles(argv, 5, isFile).Success? && |argv| >= 4 && parseInt(argv[3]).Some? && parseInt(argv[3]).value <= 0
    ensures r == Failure(SentencesNotInteger) <==>
      CheckFiles(argv, 5, isFile).Success? && PositiveArg(argv, 3, parseInt) && |argv| == 5 && parseInt(argv[4]).None?
    ensures r == Failure(SentencesNotPositive) <==>
      CheckFiles(argv, 5, isFile).Success? && PositiveArg(argv, 3, parseInt)
      && |argv| == 5 && parseInt(argv[4]).Some? && parseInt(argv[4]).value <= 0
  {
    match CheckFiles(argv, 5, isFile)
    case Failure(e) => Failure(e)
    case Success((input, output)) =>
      var lineLength :=
        if |argv| >= 4 then ParsePositive(argv[3], parseInt, LineLengthNotPositive, LineLengthNotInteger)
        else Success(0);
      if lineLength.Failure? then Failure(lineLength.error)
      else
        var sentences :=
          if |argv| == 5 then ParsePositive(argv[4], parseInt, SentencesNotPositive, SentencesNotInteger)
          else Success(0);
        if sentences.Failure? then Failure(sentences.error)
        else
          Success(Args(input, output,
            if |argv| >= 4 then Some(lineLength.value) else None,
            if |argv| == 5 then Some(sentences.value) else None))
  }

  /** `validate_args` of the earlier versions: `program in out [line_length]`.
      Success never carries a sentences-per-paragraph count. */
  function ValidateArgsWidthOnly(argv: seq<string>, isFile: string -> bool, parseInt: string -> Option<int>): (r: Result<Args, CliError>)
    ensures r.Success? <==>
      && 3 <= |argv| <= 4 && isFile(argv[1])
      && HasAcceptedExtension(argv[1]) && HasAcceptedExtension(argv[2])
      && (|argv| == 4 ==> PositiveArg(argv, 3, parseInt))
    ensures r.Success? ==>
      && r.value.inputFile == argv[1] && r.value.outputFile == argv[2]
      && r.value.lineLength == (if |argv| == 4 then Some(parseInt(argv[3]).value) else None)
      && r.value.sentencesPerParagraph.None?
    ensures r == Failure(UsageError) <==> !(3 <= |argv| <= 4)
    ensures r.Failure? ==> !r.error.SentencesNotInteger? && !r.error.SentencesNotPositive?
  {
    match CheckFiles(argv, 4, isFile)
    case Failure(e) => Failure(e)
    case Success((input, output)) =>
      if |argv| == 4 then
        match ParsePositive(argv[3], parseInt, LineLengthNotPositive, LineLengthNotInteger)
        case Failure(e) => Failure(e)
        case Success(n) => Success(Args(input, output, Some(n), None))
      else Success(Args(input, output, None, None))
  }

  /** The final version accepts everything the earlier ones accept, in the
      same way, and differs only by also accepting a fifth argument. */
  lemma ValidateArgsExtendsWidthOnly(argv: seq<string>, isFile: string -> bool, parseInt: string -> Option<int>)
    ensures |argv| != 5 ==> ValidateArgs(argv, isFile, parseInt) == ValidateArgsWidthOnly(argv, isFile, parseInt)
    ensures |argv| == 5 ==> ValidateArgsWidthOnly(argv, isFile, parseInt) == Failure(UsageError)
  {
  }

  /** `.txt` names are accepted; `data.xyz` is not. */
  lemma ExtensionExamples()
    ensures HasAcceptedExtension("in.txt") && HasAcceptedExtension("out.txt")
    ensures !HasAcceptedExtension("data.xyz")
  {
    assert EndsWith("in.txt", ".txt") && EndsWith("out.txt", ".txt");
    assert ".txt" in AcceptedFileFormats;
    forall f | f in AcceptedFileFormats ensures !EndsWith("data.xyz", f) {
    }
  }

  /** A file name such as `data.xyz` is refused before any numeric argument
      is looked at, even a bad one. */
  lemma ExtensionCheckedBeforeNumbers(isFile: string -> bool, parseInt: string -> Option<int>)
    requires isFile("data.xyz")
    ensures ValidateArgs(["prog", "data.xyz", "out.txt", "-5"], isFile, parseInt) == Failure(UnsupportedExtension)
  {
    ExtensionExamples();
  }

  /** A width or group size of `-5` is refused as not positive, and an
      omitted group size is left for the prompt. */
  lemma NumericScenarios(isFile: string -> bool, parseInt: string -> Option<int>)
    requires isFile("in.txt")
    requires parseInt("-5") == Some(-5) && parseInt("20") == Some(20)
    ensures ValidateArgs(["prog", "in.txt", "out.txt", "-5"], isFile, parseInt) == Failure(LineLengthNotPositive)
    ensures ValidateArgs(["prog", "in.txt", "out.txt", "20", "-5"], isFile, parseInt) == Failure(SentencesNotPositive)
    ensures ValidateArgs(["prog", "in.txt", "out.txt", "20"], isFile, parseInt)
      == Success(Args("in.txt", "out.txt", Some(20), None))
  {
    ExtensionExamples();
  }
}
