/** Version 2.0: the collapsed text is cut into lines of exactly
    `line_length` characters, whatever the word boundaries, and the lines
    are joined with newlines. */
module ShortLines20 {
  import opened Wrappers
  import opened Text
  import opened Chunking
  import opened Prompt

  /** `get_line_length(default=77)` as `main` calls it. */
  const DefaultLineLength: int := 77

  /** `get_line_length(default=77)` over the lines typed at the prompt: the
      first line that is blank (77) or a positive number decides the answer,
      every earlier line having been refused. */
  method GetLineLength(stdin: seq<string>, parseInt: string -> Option<int>) returns (answer: Option<int>, used: nat)
    ensures Reply(answer, used) == Ask(stdin, DefaultLineLength, parseInt)
    ensures answer.Some? ==> answer.value > 0 && 0 < used && answer == Interpret(stdin[used - 1], DefaultLineLength, parseInt)
    ensures answer.Some? ==> forall j :: 0 <= j < used - 1 ==> Interpret(stdin[j], DefaultLineLength, parseInt).None?
    ensures answer.None? ==> used == |stdin| && forall j :: 0 <= j < |stdin| ==> Interpret(stdin[j], DefaultLineLength, parseInt).None?
  {
    answer, used := AskPositive(stdin, DefaultLineLength, parseInt);
  }

  /** `reformat_text(content, line_length)`. */
  function ReformatText(content: string, lineLength: nat): string
    requires lineLength > 0
  {
    var text := Collapse(content);
    Join("\n", Chunks(text, lineLength))
  }

  /** Position of the first `c` in `s`, or `|s|`. */
  function IndexOf(s: string, c: char): (i: nat)
    ensures i <= |s|
    ensures forall j :: 0 <= j < i ==> s[j] != c
    ensures i < |s| ==> s[i] == c
    decreases |s|
  {
    if s == [] then 0 else if s[0] == c then 0 else 1 + IndexOf(s[1..], c)
  }

  /** `s.split(c)` for one separator character. */
  function SplitOn(s: string, c: char): seq<string>
    decreases |s|
  {
    var i := IndexOf(s, c);
    if i == |s| then [s] else [s[..i]] + SplitOn(s[i + 1..], c)
  }

  /** `s.replace(c, "")`. */
  function Remove(s: string, c: char): (r: string)
    ensures c !in r
    decreases |s|
  {
    if s == [] then [] else (if s[0] == c then [] else [s[0]]) + Remove(s[1..], c)
  }

  /** Splitting a join on its separator gives the pieces back, when no
      piece holds the separator. */
  lemma {:induction false} SplitJoin(xs: seq<string>, c: char)
    requires xs != []
    requires forall i :: 0 <= i < |xs| ==> c !in xs[i]
    ensures SplitOn(Join([c], xs), c) == xs
    decreases |xs|
  {
    var x := xs[0];
    assert IndexOf(x, c) == |x|;
    if |xs| == 1 {
    } else {
      var rest := Join([c], xs[1..]);
      var s := x + [c] + rest;
      assert Join([c], xs) == s;
      IndexOfPrefix(x, c, rest);
      assert s[..|x|] == x && s[|x| + 1..] == rest;
      SplitJoin(xs[1..], c);
    }
  }

  lemma {:induction false} IndexOfPrefix(x: string, c: char, rest: string)
    requires c !in x
    ensures IndexOf(x + [c] + rest, c) == |x|
    decreases |x|
  {
    if x != [] {
      assert (x + [c] + rest)[1..] == x[1..] + [c] + rest;
      IndexOfPrefix(x[1..], c, rest);
    }
  }

  /** Removing the separators from a join concatenates the pieces, when no
      piece holds the separator. */
  lemma {:induction false} RemoveJoin(xs: seq<string>, c: char)
    requires forall i :: 0 <= i < |xs| ==> c !in xs[i]
    ensures Remove(Join([c], xs), c) == Flatten(xs)
    decreases |xs|
  {
    if |xs| == 1 {
      RemoveAbsent(xs[0], c);
      assert Flatten(xs) == xs[0] + Flatten([]);
    } else if |xs| > 1 {
      RemoveJoin(xs[1..], c);
      RemoveConcat(xs[0], [c], c);
      RemoveConcat(xs[0] + [c], Join([c], xs[1..]), c);
      RemoveAbsent(xs[0], c);
      assert Remove([c], c) == [] by { assert [c][1..] == []; }
    }
  }

  lemma {:induction false} RemoveAbsent(s: string, c: char)
    requires c !in s
    ensures Remove(s, c) == s
    decreases |s|
  {
    if s != [] {
      RemoveAbsent(s[1..], c);
    }
  }

  lemma {:induction false} RemoveConcat(a: string, b: string, c: char)
    ensures Remove(a + b, c) == Remove(a, c) + Remove(b, c)
    decreases |a|
  {
    if a == [] {
      assert a + b == b;
    } else {
      assert (a + b)[1..] == a[1..] + b;
      RemoveConcat(a[1..], b, c);
    }
  }

  /** Normalized text holds no newline, and neither does any slice of it. */
  lemma NoNewlineInChunks(text: string, lineLength: nat)
    requires lineLength > 0 && Normalized(text)
    ensures forall i :: 0 <= i < |Chunks(text, lineLength)| ==> '\n' !in Chunks(text, lineLength)[i]
  {
    assert IsSpace('\n');
    forall i | 0 <= i < |Chunks(text, lineLength)| ensures '\n' !in Chunks(text, lineLength)[i] {
      ChunkAt(text, lineLength, i);
    }
  }

  /** Removing the newlines from the output gives back the collapsed text:
      nothing is dropped, duplicated or reordered. */
  lemma RemovingNewlinesGivesText(content: string, lineLength: nat)
    requires lineLength > 0
    ensures Remove(ReformatText(content, lineLength), '\n') == Collapse(content)
  {
    var text := Collapse(content);
    CollapseNormalizes(content);
    NoNewlineInChunks(text, lineLength);
    RemoveJoin(Chunks(text, lineLength), '\n');
    ChunksFlatten(text, lineLength);
  }

  /** The output lines, as `split("\n")` finds them, are the pieces of the
      collapsed text cut every `L` characters, and there are `ceil(|text|/L)`
      of them. */
  lemma OutputLines(content: string, lineLength: nat)
    requires lineLength > 0 && Words(content) != []
    ensures var text := Collapse(content);
      var lines := SplitOn(ReformatText(content, lineLength), '\n');
      lines == Chunks(text, lineLength) && |lines| == CeilDiv(|text|, lineLength)
  {
    var text := Collapse(content);
    JoinWords(Words(content));
    CollapseNormalizes(content);
    NoNewlineInChunks(text, lineLength);
    SplitJoin(Chunks(text, lineLength), '\n');
    ChunkCount(text, lineLength);
  }

  /** Output line `i` is `text[i*L .. min((i+1)*L, |text|)]`: every line but
      the last holds exactly `L` characters and the last holds 1 to `L`. */
  lemma OutputLineAt(content: string, lineLength: nat, i: nat)
    requires lineLength > 0 && Words(content) != []
    requires i < |SplitOn(ReformatText(content, lineLength), '\n')|
    ensures var text := Collapse(content);
      var lines := SplitOn(ReformatText(content, lineLength), '\n');
      && i * lineLength < |text|
      && lines[i] == text[i * lineLength .. Min((i + 1) * lineLength, |text|)]
      && (i < |lines| - 1 ==> |lines[i]| == lineLength)
      && (i == |lines| - 1 ==> 0 < |lines[i]| <= lineLength)
  {
    OutputLines(content, lineLength);
    ChunkAt(Collapse(content), lineLength, i);
  }

  /** The cut ignores word boundaries: inputs whose collapsed texts have the
      same length are cut at the same positions. */
  lemma CutsDependOnLengthOnly(content1: string, content2: string, lineLength: nat)
    requires lineLength > 0 && |Collapse(content1)| == |Collapse(content2)|
    ensures var lines1 := Chunks(Collapse(content1), lineLength);
      var lines2 := Chunks(Collapse(content2), lineLength);
      |lines1| == |lines2| && forall i :: 0 <= i < |lines1| ==> |lines1[i]| == |lines2[i]|
  {
    ChunkSizesByLength(Collapse(content1), Collapse(content2), lineLength);
  }
}
