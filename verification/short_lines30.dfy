/** Version 3.0: the same collapse, sentence splitting and grouping as the
    final version, but the group size is always the default 3 and the
    wrapped paragraphs are collected by an explicit loop. `wrap` stands for
    `textwrap.fill`. */
module ShortLines30 {
  import opened Wrappers
  import opened Text
  import opened Sentences
  import opened Grouping
  import opened Prompt
  import ShortLines31

  /** `get_line_length(default=70)` as `main` calls it. */
  const DefaultLineLength: int := 70
  /** The default of `max_sentences_per_paragraph`, the only size used. */
  const SentencesPerParagraph: nat := 3

  /** `get_line_length(default=70)` over the lines typed at the prompt: the
      first line that is blank (70) or a positive number decides the answer,
      every earlier line having been refused. */
  method GetLineLength(stdin: seq<string>, parseInt: string -> Option<int>) returns (answer: Option<int>, used: nat)
    ensures Reply(answer, used) == Ask(stdin, DefaultLineLength, parseInt)
    ensures answer.Some? ==> answer.value > 0 && 0 < used && answer == Interpret(stdin[used - 1], DefaultLineLength, parseInt)
    ensures answer.Some? ==> forall j :: 0 <= j < used - 1 ==> Interpret(stdin[j], DefaultLineLength, parseInt).None?
    ensures answer.None? ==> used == |stdin| && forall j :: 0 <= j < |stdin| ==> Interpret(stdin[j], DefaultLineLength, parseInt).None?
  {
    answer, used := AskPositive(stdin, DefaultLineLength, parseInt);
  }

  /** `reformat_text(content, line_length)`: it groups with the default size
      and appends one wrapped block per paragraph, in order. It behaves as
      the final version's `reformat_text` with three sentences per paragraph. */
  method ReformatText(content: string, lineLength: int, wrap: (string, int) -> string) returns (r: string)
    requires lineLength > 0
    ensures r == ShortLines31.ReformatText(content, lineLength, 3, wrap)
  {
    var text := Collapse(content);
    var sentences := SplitIntoSentences(text);
    var paragraphs := GroupSentencesIntoParagraphs(sentences, SentencesPerParagraph);
    var wrappedParagraphs: seq<string> := [];
    for i := 0 to |paragraphs|
      invariant |wrappedParagraphs| == i
      invariant forall j :: 0 <= j < i ==> wrappedParagraphs[j] == wrap(paragraphs[j], lineLength)
    {
      var wrapped := wrap(paragraphs[i], lineLength);
      wrappedParagraphs := wrappedParagraphs + [wrapped];
    }
    assert wrappedParagraphs == ShortLines31.WrapEach(paragraphs, lineLength, wrap);
    r := Join(ShortLines31.ParagraphSeparator, wrappedParagraphs);
  }
}
