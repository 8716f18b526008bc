# short_lines — a verified model of the text reformatter

`short_lines` is a command-line text reformatter that exists in several
successive versions. Each version reads an input file and collapses its
whitespace. The later versions then split the text into sentences, group the
sentences into paragraphs, wrap each paragraph to a line width, and write the
paragraphs separated by blank lines. Version 2.0 instead cuts the collapsed
text into lines of a fixed number of characters. Every version first validates
its command line, and it asks interactively for any number that was not given
there.

The model is written in Dafny and follows the program's own structure:

- `Text` (`text.dfy`) holds the Python string operations the program relies
  on:
  - `str.isspace`, following CPython's whitespace table;
  - `str.split()`, `str.join` and `str.strip()`;
  - the whitespace collapse `" ".join(content.split())`.
- `Chunking` (`chunking.dfy`) cuts a sequence into consecutive pieces of `k`.
  Version 2.0 cuts lines this way, and the paragraph grouping cuts sentences
  this way.
- `Sentences` (`sentences.dfy`) holds `split_into_sentences`. The regular
  expression `(?<=[.!?]) +` is stated directly over characters: a split point
  is a run of plain spaces right after `.`, `!` or `?`.
- `Grouping` (`grouping.dfy`) holds `group_sentences_into_paragraphs`. It is
  a loop (a method), proved against the function `Paragraphs`.
- `Cli` (`cli.dfy`) holds `validate_args`. There are two forms: the final
  one, with up to two numbers, and the earlier one, with at most a line
  length. Each `sys.exit` becomes a `Failure` with the kind of message.
- `Prompt` (`prompt.dfy`) holds the `while True` prompt loop. It runs over a
  finite sequence of typed lines.
- `ShortLines31`, `ShortLines30` and `ShortLines20` hold what is particular
  to each version:
  - the composition in `reformat_text`;
  - the defaults;
  - `main`'s choice between command-line numbers and prompts.

Several operations are identical in more than one version. They are modelled
once, and every version uses that one model:

- `split_into_sentences` and `group_sentences_into_paragraphs` (3.0 and 3.1);
- `validate_args` (2.0 and 3.0);
- the prompt loop (all three versions);
- `read_input_file` (all three versions).

Three external pieces are parameters of the model rather than code:

- `textwrap.fill` is the function `wrap(paragraph, width)`, left
  uninterpreted.
- `os.path.isfile` is the predicate `isFile`.
- Python's `int()` is `parseInt`. It returns `Some(n)` when `int()` returns
  `n`, and `None` when `int()` raises `ValueError`.

Three behaviours of the code are easy to misread, and the model states them
as the code has them:

- Sentence boundaries are runs of plain spaces (` +`), not arbitrary
  whitespace. After the collapse the text holds no other whitespace, so the
  result is the same.
- `textwrap.fill` is called with its default settings, so a word longer than
  the width is broken rather than kept whole on a line of its own. The model
  therefore promises nothing about the lines inside a wrapped paragraph, and
  words are kept whole (versions 3.0 and 3.1) only up to the wrapping step.
  Version 2.0 cuts through words (`CutsDependOnLengthOnly`).
- The default line length is 77 in version 2.0 and 70 in versions 3.0 and 3.1.

## Model

| member | source | states |
|---|---|---|
| Text.Words | short_lines3.1.py:149 | `content.split()` yields non-empty words that contain no whitespace |
| Text.WordsOfWord | short_lines3.1.py:149 | a non-empty string without whitespace splits into itself as the only word |
| Text.WordsAroundSpace | short_lines3.1.py:149 | `split()` cuts at every whitespace character: the words of `a + c + b` for a whitespace `c` are the words of `a` followed by the words of `b`; with `WordsOfWord` this fixes `split()` on any text |
| Text.Strip | short_lines3.1.py:134 | `s.strip()` is a slice `s[lo..hi]` with only whitespace before `lo` and after `hi`, and no whitespace at either of its own ends; it is empty exactly when `s` is all whitespace; text that is already trimmed is returned unchanged |
| Text.Collapse | short_lines3.1.py:149 | the collapse `" ".join(content.split())`; its properties are stated by `CollapseNormalizes` and `CollapseIdempotent` |
| Text.CollapseNormalizes | short_lines3.1.py:149 | the collapsed text contains no whitespace other than single spaces, none at either end and no two in a row; its words are exactly the input's words, in order |
| Text.CollapseIdempotent | short_lines3.1.py:149 | collapsing text that is already in collapsed form gives it back unchanged, so collapsing twice is the same as collapsing once |
| Text.JoinWords | short_lines3.1.py:149 | joining whitespace-free words with single spaces gives collapsed text whose `split()` returns exactly those words |
| Text.StripEmptyIffNoWords | short_lines3.1.py:121-126 | the stripped file text is empty (the "Input file is empty" exit) exactly when `split()` finds no words |
| Text.StripKeepsWords | short_lines3.1.py:121 | stripping before splitting changes none of the words |
| Chunking.Chunks | short_lines2.0.py:97 | each piece holds 1 to `k` elements, every piece but the last holds exactly `k`, and there are no pieces exactly when the input is empty |
| Chunking.ChunkCount | short_lines2.0.py:97 | there are `ceil(n/k)` pieces |
| Chunking.ChunkAt | short_lines2.0.py:97 | piece `i` is the slice `xs[i*k .. min((i+1)*k, n)]` |
| Chunking.ChunkSize | short_lines2.0.py:97 | every piece but the last is a full slice of `k` elements; the last holds the remaining 1 to `k` |
| Chunking.ChunksFlatten | short_lines2.0.py:96-98 | concatenating the pieces gives back the input exactly |
| Chunking.ChunkSizesByLength | short_lines2.0.py:97 | the number and sizes of the pieces depend only on the length of the input |
| Sentences.FirstBoundary | short_lines3.1.py:133 | finds the leftmost position where the pattern matches: a mark before it and a space at it |
| Sentences.SpaceRunEnd | short_lines3.1.py:133 | the greedy ` +` match covers the whole run of spaces |
| Sentences.RegexSplit | short_lines3.1.py:133 | `re.split` returns at least one piece; every piece but the last ends in `.`, `!` or `?`; no piece contains a mark followed by a space; no piece after a cut starts with a space, because the greedy ` +` takes the whole run |
| Sentences.RegexMatches | short_lines3.1.py:133 | the text the pattern matched: one non-empty run of plain spaces between each two pieces; with `RegexSplit`'s contract and `RegexSplitRebuilds`, each match is the whole run of spaces at its cut |
| Sentences.RegexSplitRebuilds | short_lines3.1.py:133 | for any text, the pieces with the matched space runs put back between them are the text: `re.split` drops the matches and nothing else |
| Sentences.RegexSplitJoin | short_lines3.1.py:133 | for collapsed text every match is one space, so joining the pieces with single spaces gives the text back |
| Sentences.StripNonEmpty | short_lines3.1.py:134 | the comprehension `[s.strip() for s in pieces if s.strip()]`; its properties are stated by `StripNonEmptyTrimmed` and `StripNonEmptyMarks` |
| Sentences.StripNonEmptyTrimmed | short_lines3.1.py:134 | the comprehension keeps only non-empty, stripped pieces, and stripping never creates a mark-then-space |
| Sentences.StripNonEmptyMarks | short_lines3.1.py:133-134 | after stripping and dropping empty pieces, every sentence but the last still ends in a mark |
| Sentences.SplitIntoSentences | short_lines3.1.py:131-134 | every sentence is non-empty with no whitespace at either end; every sentence but the last ends in a mark; no sentence contains a mark followed by a space |
| Sentences.SentencesJoinBack | short_lines3.1.py:133-134 | for collapsed text, joining the sentences with single spaces gives the text back: nothing is lost, duplicated or reordered |
| Sentences.SentencesKeepWords | short_lines3.1.py:149-150 | the sentences of the collapsed input, joined with single spaces, are the collapsed input, and their words are the input's words |
| Sentences.SplitTwoSentences | short_lines3.1.py:131-134 | `"Hi. Wow."` splits into `"Hi."` and `"Wow."` |
| Sentences.SplitAbbreviation | short_lines3.1.py:133 | an abbreviation is not treated specially: `"Mr. Smith!"` splits into `"Mr."` and `"Smith!"` |
| Grouping.Paragraphs | short_lines3.1.py:137-143 | the paragraphs as a value: the single-space join of each consecutive group of `k` sentences; its properties are stated by `ParagraphAt`, `ParagraphCount`, `ParagraphSize` and `ParagraphsJoinBack` |
| Grouping.ParagraphCount | short_lines3.1.py:139-143 | there are `ceil(n/k)` paragraphs, so an empty sentence list gives none |
| Grouping.ParagraphAt | short_lines3.1.py:140-141 | paragraph `p` is the single-space join of `sentences[p*k .. min((p+1)*k, n)]` |
| Grouping.ParagraphSize | short_lines3.1.py:139-142 | every paragraph but the last joins exactly `k` sentences; the last joins the remaining 1 to `k`, in order |
| Grouping.ParagraphsJoinBack | short_lines3.1.py:140-141 | joining the paragraphs with single spaces is joining the sentences with single spaces: grouping loses, duplicates and reorders nothing |
| Grouping.GroupSentencesIntoParagraphs | short_lines3.1.py:137-143 | the loop over `range(0, n, k)` returns `ceil(n/k)` paragraphs, exactly those of `Paragraphs` (also short_lines3.0.py:102-111) |
| Cli.ParsePositive | short_lines3.1.py:60-66 | a numeric argument is accepted exactly when `int()` parses it to a positive value, which is then returned; otherwise the error says whether it was not an integer or not positive |
| Cli.CheckFiles | short_lines3.1.py:39-54 | usage error exactly when the argument count is out of range; otherwise a missing input file is reported before a bad extension; success exactly when all checks pass |
| Cli.HasAcceptedExtension | short_lines3.1.py:50 | `name.endswith(ACCEPTED_FILE_FORMATS)`: the name ends with one of the seven suffixes (examples in `ExtensionExamples`) |
| Cli.ValidateArgs | short_lines3.1.py:37-76 | success exactly when: there are 3 to 5 arguments, the input file exists, both names carry an accepted extension, and each given number is positive. Each of the seven errors has an exact condition, in check order: the line length is "not an integer" exactly when `int()` fails on it and "not positive" exactly when it parses to a value `<= 0`, likewise for the group size once the line length passed; a missing input file is reported with its name. On success the numbers are absent or the parsed values |
| Cli.ValidateArgsWidthOnly | short_lines3.0.py:33-63 | the 3-or-4-argument form: success exactly when the checks pass; the line length is absent with 3 arguments and the positive parsed value with 4; there is never a sentences count (identical in short_lines2.0.py:30-60); its errors and their order are those of the final version, by `ValidateArgsExtendsWidthOnly` |
| Cli.ValidateArgsExtendsWidthOnly | short_lines3.0.py:33-63 | for every argument list that does not have exactly five entries, the earlier versions' validation gives the same result as the final version's, so the same errors in the same order; five entries are a usage error there |
| Cli.ExtensionExamples | short_lines3.1.py:31 | `.txt` names are accepted and `data.xyz` is not |
| Cli.ExtensionCheckedBeforeNumbers | short_lines3.1.py:46-66 | a bad extension is reported even when the line length is also bad |
| Cli.NumericScenarios | short_lines3.1.py:56-76 | `-5` as the width or as the group size is refused as not positive; a width of `20` alone is accepted, with the group size left for the prompt |
| Prompt.Interpret | short_lines3.1.py:86-95 | one typed line ends the loop exactly when it is blank after stripping (giving the default) or parses to a positive number (giving that number) |
| Prompt.Ask | short_lines3.1.py:84-95 | the reply of the prompt loop: the value of the first line that ends the loop and the number of lines read up to it, every earlier line having been refused; `None` after reading every line when no line ends it |
| Prompt.AskIsFirst | short_lines3.1.py:84-95 | whatever comes after it, the first line that is blank or a positive number decides the reply |
| Prompt.BlankGivesDefault | short_lines3.1.py:86-88 | a blank line after only refused lines gives the default |
| Prompt.AskPositive | short_lines3.1.py:84-95 | the `while True` loop reads exactly what `Ask` says; the value is positive when the default is |
| ShortLines31.ReformatText | short_lines3.1.py:146-159 | `reformat_text` as the composition collapse, sentence split, grouping, wrapping and `"\n\n"` join; its properties are stated by `ReformatBlocks`, `ParagraphsKeepText` and `NoWordsNoOutput` |
| ShortLines31.WrapEach | short_lines3.1.py:153-155 | the list comprehension calling `textwrap.fill` on each paragraph, in order |
| ShortLines31.ReformatBlocks | short_lines3.1.py:146-157 | the output is the `"\n\n"` join of one wrapped block per paragraph, in order; there are `ceil(n/k)` blocks; block `p` wraps the single-space join of sentences `p*k` up to `min((p+1)*k, n)` |
| ShortLines31.ParagraphsKeepText | short_lines3.1.py:149-151 | the paragraphs handed to the wrapper, joined by single spaces, are the collapsed input, with the input's words in order |
| ShortLines31.NoWordsNoOutput | short_lines3.1.py:146-157 | input without words gives empty output |
| ShortLines31.InputContent | short_lines3.1.py:117-128 | the content is the stripped file text, with the same words; the "Input file is empty" exit happens exactly when the file has no words |
| ShortLines31.StrippedInputSameOutput | short_lines3.1.py:183-184 | reformatting the stripped content gives the same output as reformatting the raw file text |
| ShortLines31.GetLineLength | short_lines3.1.py:82-95 | the reply is `Ask` with default 70: the answer is the first typed line that is blank (70) or parses to a positive number, every earlier line refused, and it is positive |
| ShortLines31.GetSentencesPerParagraph | short_lines3.1.py:98-111 | the reply is `Ask` with default 3: the answer is the first typed line that is blank (3) or parses to a positive number, every earlier line refused, and it is positive |
| ShortLines31.LengthPrompt | short_lines3.1.py:178-179 | the line length `main` uses: the command-line number with no line read, or the line-length prompt's reply |
| ShortLines31.SentencesPrompt | short_lines3.1.py:180-181 | the group size `main` uses: the command-line number with no line read, or the group-size prompt's reply over the lines the first prompt left |
| ShortLines31.ResolveSettings | short_lines3.1.py:174-181 | the settings exist exactly when both numbers were given or answered; each is the command-line number or, when missing, the prompt's answer, asked in order from one input; the lines read are those of the two prompts; all settings are positive, and no line is read when both numbers are given |
| ShortLines30.GetLineLength | short_lines3.0.py:66-79 | the reply is `Ask` with default 70: the answer is the first typed line that is blank (70) or parses to a positive number, every earlier line refused, and it is positive |
| ShortLines30.ReformatText | short_lines3.0.py:114-132 | the loop appends one wrapped block per paragraph, in order, and the result is exactly the final version's output with 3 sentences per paragraph |
| ShortLines20.GetLineLength | short_lines2.0.py:63-76 | the reply is `Ask` with default 77: the answer is the first typed line that is blank (77) or parses to a positive number, every earlier line refused, and it is positive |
| ShortLines20.ReformatText | short_lines2.0.py:93-100 | `reformat_text` as the collapse cut into `line_length`-character pieces joined by newlines; its properties are stated by `RemovingNewlinesGivesText`, `OutputLines`, `OutputLineAt` and `CutsDependOnLengthOnly` |
| ShortLines20.RemovingNewlinesGivesText | short_lines2.0.py:96-98 | removing the newlines from the output gives back the collapsed text exactly |
| ShortLines20.OutputLines | short_lines2.0.py:97-98 | the output lines are the `L`-character pieces of the collapsed text, and there are `ceil(len/L)` of them |
| ShortLines20.OutputLineAt | short_lines2.0.py:97 | line `i` is `text[i*L .. min((i+1)*L, len)]`; every line but the last has exactly `L` characters, and the last has 1 to `L` |
| ShortLines20.CutsDependOnLengthOnly | short_lines2.0.py:97 | the cuts ignore word boundaries: inputs whose collapsed texts have the same length are cut at the same positions |

## Left out

- File reading and writing (`open`, `read`, `write` in `read_input_file` and `write_output_file`) are I/O and are not modelled. Only the decision taken on the text that was read is modelled (`InputContent`). Errors while reading or writing are not modelled.
- `textwrap.fill` is the uninterpreted parameter `wrap`. The lengths of wrapped lines and the breaking of long words or hyphens are therefore not modelled.
- `os.path.isfile` and `int()` are the parameters `isFile` and `parseInt`. Python's rules for integer literals (signs, underscores, Unicode digits) are not modelled.
- The `except Exception` path of `reformat_text` ("Error reformatting text") is not modelled. The reformat members require a positive line length and group size, and every caller supplies one: `validate_args` and the prompts only accept positive numbers.
- Prompt.AskPositive: the program blocks on standard input until it gets a valid line. The model reads a finite list of lines and returns `None` when the list runs out. End of input, which makes `input()` raise `EOFError`, is not modelled.
- Console messages (`print`, the text passed to `sys.exit`) are not modelled. Each exit is represented by its kind in `CliError` or by `None`.
- `main` of versions 2.0 and 3.0 is covered by `ValidateArgsWidthOnly`, the version's own `GetLineLength` (`ShortLines20.GetLineLength`, `ShortLines30.GetLineLength`) and `ReformatText`. Only version 3.1 has a settings method (`ResolveSettings`), because it is the only version that resolves two numbers.
- `short_lines.py`, the earliest version, is not part of this model.
- Text is a sequence of Unicode code points. UTF-8 decoding of the file is not modelled.
