/** The final version: whitespace collapse, sentence splitting, grouping
    into paragraphs of `k` sentences, wrapping each paragraph, and blank
    lines between paragraphs. `wrap` stands for `textwrap.fill`. */
module ShortLines31 {
  import opened Wrappers
  import opened Text
  import opened Chunking
  import opened Sentences
  import opened Grouping
  import opened Cli
  import opened Prompt

  /** `get_line_length(default=70)` as `main` calls it. */
  const DefaultLineLength: int := 70
  /** `get_sentences_per_paragraph(default=3)` as `main` calls it. */
  const DefaultSentencesPerParagraph: int := 3

  /** The separator between wrapped paragraphs: one blank line. */
  const ParagraphSeparator: string := "\n\n"

  /** The wrapped block of each paragraph, in paragraph order. */
  function WrapEach(paragraphs: seq<string>, lineLength: int, wrap: (string, int) -> string): seq<string> {
    seq(|paragraphs|, i requires 0 <= i < |paragraphs| => wrap(paragraphs[i], lineLength))
  }

  /** `reformat_text(content, line_length, sentences_per_paragraph)`. */
  function ReformatText(content: string, lineLength: int, k: nat, wrap: (string, int) -> string): string
    requires lineLength > 0 && k > 0
  {
    var text := Collapse(content);
    var sentences := SplitIntoSentences(text);
    var paragraphs := Paragraphs(sentences, k);
    Join(ParagraphSeparator, WrapEach(paragraphs, lineLength, wrap))
  }

  /** The output is the blank-line join of one wrapped block per paragraph:
      there are `ceil(n/k)` blocks for `n` sentences, and block `p` wraps the
      single-space join of sentences `p*k` up to `min((p+1)*k, n)`. */
  lemma ReformatBlocks(content: string, lineLength: int, k: nat, wrap: (string, int) -> string, p: nat)
    requires lineLength > 0 && k > 0
    ensures var sentences := SplitIntoSentences(Collapse(content));
      var blocks := WrapEach(Paragraphs(sentences, k), lineLength, wrap);
      && ReformatText(content, lineLength, k, wrap) == Join(ParagraphSeparator, blocks)
      && |blocks| == CeilDiv(|sentences|, k)
      && (p < |blocks| ==>
            p * k < |sentences|
            && blocks[p] == wrap(Join(" ", sentences[p * k .. Min((p + 1) * k, |sentences|)]), lineLength))
  {
    var sentences := SplitIntoSentences(Collapse(content));
    ParagraphsJoinChunks(sentences, k);
    ChunkCount(sentences, k);
    if p < |Paragraphs(sentences, k)| {
      ParagraphAt(sentences, k, p);
    }
  }

  /** No text is lost on the way to the wrapper: the paragraphs, joined by
      single spaces, are the collapsed input, so their words are the input's
      words in the input's order. */
  lemma ParagraphsKeepText(content: string, k: nat)
    requires k > 0
    ensures var paragraphs := Paragraphs(SplitIntoSentences(Collapse(content)), k);
      && Join(" ", paragraphs) == Collapse(content)
      && Words(Join(" ", paragraphs)) == Words(content)
  {
    var sentences := SplitIntoSentences(Collapse(content));
    SentencesKeepWords(content);
    ParagraphsJoinBack(sentences, k);
  }

  /** Input without words gives empty output. */
  lemma NoWordsNoOutput(content: string, lineLength: int, k: nat, wrap: (string, int) -> string)
    requires lineLength > 0 && k > 0 && Words(content) == []
    ensures ReformatText(content, lineLength, k, wrap) == ""
  {
    SentencesKeepWords(content);
    assert Collapse(content) == "";
  }

  /** The decision `read_input_file` takes once the file is read (the same
      in every version): the stripped text, or `None` for the "Input file is
      empty" exit when nothing but whitespace was read. */
  function InputContent(fileText: string): (r: Option<string>)
    ensures r.None? <==> Words(fileText) == []
    ensures r.Some? ==> r.value == Strip(fileText) && Words(r.value) == Words(fileText)
  {
    StripEmptyIffNoWords(fileText);
    StripKeepsWords(fileText);
    if Strip(fileText) == [] then None else Some(Strip(fileText))
  }

  /** Reformatting the stripped content that `read_input_file` hands over
      gives the same output as reformatting the file text itself. */
  lemma StrippedInputSameOutput(fileText: string, lineLength: int, k: nat, wrap: (string, int) -> string)
    requires lineLength > 0 && k > 0
    ensures InputContent(fileText).Some? ==>
      ReformatText(InputContent(fileText).value, lineLength, k, wrap) == ReformatText(fileText, lineLength, k, wrap)
  {
    StripKeepsWords(fileText);
  }

  /** `get_line_length(default=70)` over the lines typed at the prompt: the
      first line that is blank (70) or a positive number decides the answer,
      every earlier line having been refused. */
  method GetLineLength(stdin: seq<string>, parseInt: string -> Option<int>) returns (answer: Option<int>, used: nat)
    ensures Reply(answer, used) == Ask(stdin, DefaultLineLength, parseInt)
    ensures answer.Some? ==> answer.value > 0 && 0 < used && answer == Interpret(stdin[used - 1], DefaultLineLength, parseInt)
    ensures answer.Some? ==> forall j :: 0 <= j < used - 1 ==> Interpret(stdin[j], DefaultLineLength, parseInt).None?
    ensures answer.None? ==> used == |stdin| && forall j :: 0 <= j < |stdin| ==> Interpret(stdin[j], DefaultLineLength, parseInt).None?
  {
    answer, used := AskPositive(stdin, DefaultLineLength, parseInt);
  }

  /** `get_sentences_per_paragraph(default=3)` over the lines typed at the
      prompt: the first line that is blank (3) or a positive number decides
      the answer, every earlier line having been refused. */
  method GetSentencesPerParagraph(stdin: seq<string>, parseInt: string -> Option<int>) returns (answer: Option<int>, used: nat)
    ensures Reply(answer, used) == Ask(stdin, DefaultSentencesPerParagraph, parseInt)
    ensures answer.Some? ==> answer.value > 0 && 0 < used && answer == Interpret(stdin[used - 1], DefaultSentencesPerParagraph, parseInt)
    ensures answer.Some? ==> forall j :: 0 <= j < used - 1 ==> Interpret(stdin[j], DefaultSentencesPerParagraph, parseInt).None?
    ensures answer.None? ==> used == |stdin| && forall j :: 0 <= j < |stdin| ==> Interpret(stdin[j], DefaultSentencesPerParagraph, parseInt).None?
  {
    answer, used := AskPositive(stdin, DefaultSentencesPerParagraph, parseInt);
  }

  /** The values `main` settles on before reading the input file. */
  datatype Settings = Settings(lineLength: int, sentencesPerParagraph: int)

  /** The line length `main` settles on and the lines it reads for it:
      the command-line number without reading, or the prompt's reply. */
  function LengthPrompt(args: Args, stdin: seq<string>, parseInt: string -> Option<int>): (r: Reply)
    ensures r.used <= |stdin|
  {
    if args.lineLength.Some? then Reply(args.lineLength, 0)
    else Ask(stdin, DefaultLineLength, parseInt)
  }

  /** The group size `main` settles on and the lines it reads for it, from
      the lines the line-length prompt left. */
  function SentencesPrompt(args: Args, stdin: seq<string>, parseInt: string -> Option<int>): (r: Reply)
    ensures r.used <= |stdin| - LengthPrompt(args, stdin, parseInt).used
  {
    var rest := stdin[LengthPrompt(args, stdin, parseInt).used..];
    if args.sentencesPerParagraph.Some? then Reply(args.sentencesPerParagraph, 0)
    else Ask(rest, DefaultSentencesPerParagraph, parseInt)
  }

  /** Lines 175-181 of `main`: a number missing from the command line is
      asked for, the line length first, then the group size, both from the
      same standard input. It returns the settings (or `None` when the input
      runs out) and how many lines were read. */
  method ResolveSettings(args: Args, stdin: seq<string>, parseInt: string -> Option<int>)
    returns (settings: Option<Settings>, used: nat)
    requires args.lineLength.Some? ==> args.lineLength.value > 0
    requires args.sentencesPerParagraph.Some? ==> args.sentencesPerParagraph.value > 0
    ensures used <= |stdin|
    ensures settings.Some? <==>
      LengthPrompt(args, stdin, parseInt).answer.Some? && SentencesPrompt(args, stdin, parseInt).answer.Some?
    ensures settings.Some? ==> settings.value == Settings(
      LengthPrompt(args, stdin, parseInt).answer.value, SentencesPrompt(args, stdin, parseInt).answer.value)
    ensures settings.Some? ==>
      used == LengthPrompt(args, stdin, parseInt).used + SentencesPrompt(args, stdin, parseInt).used
    ensures settings.None? ==> used == |stdin|
    ensures settings.Some? ==> settings.value.lineLength > 0 && settings.value.sentencesPerParagraph > 0
    ensures args.lineLength.Some? && args.sentencesPerParagraph.Some? ==>
      used == 0 && settings == Some(Settings(args.lineLength.value, args.sentencesPerParagraph.value))
  {
    used := 0;
    var lineLength: int;
    if args.lineLength.Some? {
      lineLength := args.lineLength.value;
    } else {
      var answer, n := GetLineLength(stdin, parseInt);
      used := n;
      if answer.None? {
        settings := None;
        return;
      }
      lineLength := answer.value;
    }
    var sentencesPerParagraph: int;
    if args.sentencesPerParagraph.Some? {
      sentencesPerParagraph := args.sentencesPerParagraph.value;
    } else {
      var answer, n := GetSentencesPerParagraph(stdin[used..], parseInt);
      used := used + n;
      if answer.None? {
        settings := None;
        return;
      }
      sentencesPerParagraph := answer.value;
    }
    settings := Some(Settings(lineLength, sentencesPerParagraph));
  }
}
