/** Sentence splitting: `re.split(r'(?<=[.!?]) +', text)` followed by
    `[s.strip() for s in pieces if s.strip()]`. The regular expression is
    stated over characters: a split point is a run of plain spaces that
    starts right after `.`, `!` or `?`; the run itself is dropped. */
module Sentences {
  import opened Text

  /** A sentence-terminal punctuation mark. */
  predicate IsMark(c: char) {
    c == '.' || c == '!' || c == '?'
  }

  /** Position `i` starts a match of the pattern: the lookbehind sees a mark
      and the character at `i` is a space. */
  predicate IsBoundary(t: string, i: int) {
    0 < i < |t| && IsMark(t[i - 1]) && t[i] == ' '
  }

  /** No mark in `s` is immediately followed by a space. */
  predicate NoBoundary(s: string) {
    forall i :: 0 < i < |s| ==> !IsBoundary(s, i)
  }

  /** The leftmost match position at or after `from`, or `|t|` if none. */
  function FirstBoundary(t: string, from: nat): (i: nat)
    requires from >= 1
    ensures i <= |t|
    ensures i < |t| ==> from <= i && IsBoundary(t, i)
    ensures forall j :: from <= j < i ==> !IsBoundary(t, j)
    decreases |t| - from
  {
    if from >= |t| then |t|
    else if IsBoundary(t, from) then from
    else FirstBoundary(t, from + 1)
  }

  /** End of the run of plain spaces that starts at `i` (the greedy ` +`). */
  function SpaceRunEnd(t: string, i: nat): (j: nat)
    requires i <= |t|
    ensures i <= j <= |t|
    ensures forall k :: i <= k < j ==> t[k] == ' '
    ensures j < |t| ==> t[j] != ' '
    decreases |t| - i
  {
    if i == |t| || t[i] != ' ' then i else SpaceRunEnd(t, i + 1)
  }

  /** The pieces `re.split` returns: every piece but the last ends in a mark,
      and no piece contains a mark followed by a space. */
  function RegexSplit(t: string): (ps: seq<string>)
    ensures |ps| >= 1
    ensures forall p :: 0 <= p < |ps| - 1 ==> ps[p] != [] && IsMark(ps[p][|ps[p]| - 1])
    ensures forall p :: 0 <= p < |ps| ==> NoBoundary(ps[p])
    ensures forall p :: 1 <= p < |ps| ==> ps[p] == [] || ps[p][0] != ' '
    decreases |t|
  {
    var i := FirstBoundary(t, 1);
    if i == |t| then
      assert forall j :: 0 < j < |t| ==> !IsBoundary(t, j);
      [t]
    else
      var head := t[..i];
      assert NoBoundary(head) by {
        forall j | 0 < j < |head| ensures !IsBoundary(head, j) {
          if IsBoundary(head, j) { assert IsBoundary(t, j); }
        }
      }
      [head] + RegexSplit(t[SpaceRunEnd(t, i)..])
  }

  /** Every character of `s` is a plain space. */
  predicate AllSpaces(s: string) {
    forall k :: 0 <= k < |s| ==> s[k] == ' '
  }

  /** The text the pattern matched, in order: one non-empty run of plain
      spaces per cut. */
  function RegexMatches(t: string): (ms: seq<string>)
    ensures |ms| == |RegexSplit(t)| - 1
    ensures forall m :: 0 <= m < |ms| ==> ms[m] != [] && AllSpaces(ms[m])
    decreases |t|
  {
    var i := FirstBoundary(t, 1);
    if i == |t| then []
    else
      var e := SpaceRunEnd(t, i);
      [t[i..e]] + RegexMatches(t[e..])
  }

  /** `pieces[0] + seps[0] + pieces[1] + ... + pieces[n]`. */
  function Interleave(pieces: seq<string>, seps: seq<string>): string
    requires |pieces| == |seps| + 1
    decreases |seps|
  {
    if seps == [] then pieces[0] else pieces[0] + seps[0] + Interleave(pieces[1..], seps[1..])
  }

  /** `re.split` loses nothing but the matches: the pieces, with the
      matched space runs put back between them, are the text. */
  lemma {:induction false} RegexSplitRebuilds(t: string)
    ensures Interleave(RegexSplit(t), RegexMatches(t)) == t
    decreases |t|
  {
    var i := FirstBoundary(t, 1);
    if i < |t| {
      var e := SpaceRunEnd(t, i);
      RegexSplitRebuilds(t[e..]);
      var ps, ms := RegexSplit(t), RegexMatches(t);
      assert ps[1..] == RegexSplit(t[e..]);
      assert ms[1..] == RegexMatches(t[e..]);
      assert t == t[..i] + t[i..e] + t[e..];
    }
  }

  /** On normalized text every match is a single space, so joining the
      pieces with single spaces gives the text back. */
  lemma {:induction false} RegexSplitJoin(t: string)
    requires Normalized(t)
    ensures Join(" ", RegexSplit(t)) == t
    decreases |t|
  {
    var i := FirstBoundary(t, 1);
    if i == |t| {
      SplitWhole(t);
    } else {
      RegexStep(t);
      var rest := t[i + 1..];
      RegexSplitJoin(rest);
      JoinAppend(" ", [t[..i]], RegexSplit(rest));
      SplitAroundSpace(t, i);
    }
  }

  /** The comprehension: strip every piece and keep the non-empty ones. */
  function StripNonEmpty(pieces: seq<string>): seq<string>
    decreases |pieces|
  {
    if pieces == [] then []
    else if Strip(pieces[0]) == [] then StripNonEmpty(pieces[1..])
    else [Strip(pieces[0])] + StripNonEmpty(pieces[1..])
  }

  /** `split_into_sentences(text)`: every sentence is non-empty and has no
      leading or trailing whitespace, every sentence but the last ends in a
      mark, and no sentence holds a mark followed by a space. */
  function SplitIntoSentences(text: string): (ss: seq<string>)
    ensures forall i :: 0 <= i < |ss| ==> ss[i] != [] && !IsSpace(ss[i][0]) && !IsSpace(ss[i][|ss[i]| - 1])
    ensures forall i :: 0 <= i < |ss| - 1 ==> IsMark(ss[i][|ss[i]| - 1])
    ensures forall i :: 0 <= i < |ss| ==> NoBoundary(ss[i])
  {
    StripNonEmptyTrimmed(RegexSplit(text));
    StripNonEmptyMarks(RegexSplit(text));
    StripNonEmpty(RegexSplit(text))
  }

  /** Stripping keeps a string's boundary-freeness. */
  lemma StripKeepsNoBoundary(s: string)
    requires NoBoundary(s)
    ensures NoBoundary(Strip(s))
  {
    var lo := SkipSpace(s, 0);
    var hi := SkipSpaceBack(s, lo, |s|);
    assert Strip(s) == s[lo..hi];
    forall j | 0 < j < hi - lo ensures !IsBoundary(s[lo..hi], j) {
      assert !IsBoundary(s, lo + j);
      assert s[lo..hi][j] == s[lo + j] && s[lo..hi][j - 1] == s[lo + j - 1];
    }
  }

  /** Stripping a string that ends in a mark keeps that last character. */
  lemma StripKeepsMark(s: string)
    requires s != [] && IsMark(s[|s| - 1])
    ensures Strip(s) != [] && Strip(s)[|Strip(s)| - 1] == s[|s| - 1]
  {
    var lo := SkipSpace(s, 0);
    var hi := SkipSpaceBack(s, lo, |s|);
    assert Strip(s) == s[lo..hi];
    assert !IsSpace(s[|s| - 1]);
    assert hi == |s|;
  }

  /** Every kept piece is non-empty and trimmed, and stays boundary-free. */
  lemma {:induction false} StripNonEmptyTrimmed(pieces: seq<string>)
    requires forall p :: 0 <= p < |pieces| ==> NoBoundary(pieces[p])
    ensures forall i :: 0 <= i < |StripNonEmpty(pieces)| ==> StripNonEmpty(pieces)[i] != []
    ensures forall i :: 0 <= i < |StripNonEmpty(pieces)| ==>
      !IsSpace(StripNonEmpty(pieces)[i][0]) && !IsSpace(StripNonEmpty(pieces)[i][|StripNonEmpty(pieces)[i]| - 1])
    ensures forall i :: 0 <= i < |StripNonEmpty(pieces)| ==> NoBoundary(StripNonEmpty(pieces)[i])
    decreases |pieces|
  {
    if pieces != [] {
      var rest, x := pieces[1..], Strip(pieces[0]);
      StripNonEmptyTrimmed(rest);
      StripKeepsNoBoundary(pieces[0]);
      if x != [] {
        assert StripNonEmpty(pieces) == [x] + StripNonEmpty(rest);
      } else {
        assert StripNonEmpty(pieces) == StripNonEmpty(rest);
      }
    }
  }

  /** Every string but the last is non-empty and ends in a mark. */
  predicate MarkedButLast(ss: seq<string>) {
    forall i :: 0 <= i < |ss| - 1 ==> ss[i] != [] && IsMark(ss[i][|ss[i]| - 1])
  }

  /** A marked string in front keeps the property. */
  lemma MarkedCons(x: string, ss: seq<string>)
    requires x != [] && IsMark(x[|x| - 1]) && MarkedButLast(ss)
    ensures MarkedButLast([x] + ss)
  {
    var xs := [x] + ss;
    forall i | 0 <= i < |xs| - 1 ensures xs[i] != [] && IsMark(xs[i][|xs[i]| - 1]) {
      if i > 0 { assert xs[i] == ss[i - 1]; }
    }
  }

  /** Every kept piece but the last ends in a mark. */
  lemma {:induction false} StripNonEmptyMarks(pieces: seq<string>)
    requires MarkedButLast(pieces)
    ensures MarkedButLast(StripNonEmpty(pieces))
    ensures |pieces| > 1 ==> StripNonEmpty(pieces) != []
    decreases |pieces|
  {
    if pieces != [] {
      var rest := pieces[1..];
      assert MarkedButLast(rest) by {
        forall i | 0 <= i < |rest| - 1 ensures rest[i] != [] && IsMark(rest[i][|rest[i]| - 1]) {
          assert rest[i] == pieces[i + 1];
        }
      }
      StripNonEmptyMarks(rest);
      if |pieces| > 1 {
        StripKeepsMark(pieces[0]);
        MarkedCons(Strip(pieces[0]), StripNonEmpty(rest));
        assert StripNonEmpty(pieces) == [Strip(pieces[0])] + StripNonEmpty(rest);
      } else {
        assert rest == [];
      }
    }
  }

  /** A piece that is already trimmed and non-empty is kept as it is. */
  lemma StripNonEmptyCons(head: string, pieces: seq<string>)
    requires head != [] && !IsSpace(head[0]) && !IsSpace(head[|head| - 1])
    ensures StripNonEmpty([head] + pieces) == [head] + StripNonEmpty(pieces)
  {
    assert ([head] + pieces)[1..] == pieces;
  }

  /** Trimmed text without a boundary is one sentence, or none when empty. */
  lemma SentencesOfUnbroken(t: string)
    requires t == [] || (!IsSpace(t[0]) && !IsSpace(t[|t| - 1]))
    requires forall j :: 1 <= j < |t| ==> !IsBoundary(t, j)
    ensures SplitIntoSentences(t) == if t == [] then [] else [t]
  {
    SplitWhole(t);
    if t != [] {
      StripNonEmptyCons(t, []);
    } else {
      assert Strip(t) == [] && [t][1..] == [];
      assert StripNonEmpty([t]) == StripNonEmpty([]);
    }
  }

  /** One step of `re.split` on normalized text: the first piece is the
      text up to the first boundary, which is followed by a single space. */
  lemma RegexStep(t: string)
    requires Normalized(t) && FirstBoundary(t, 1) < |t|
    ensures var i := FirstBoundary(t, 1);
      && 0 < i && i + 1 < |t| && Normalized(t[i + 1..]) && t[i] == ' '
      && !IsSpace(t[0]) && !IsSpace(t[i - 1])
      && RegexSplit(t) == [t[..i]] + RegexSplit(t[i + 1..])
  {
    var i := FirstBoundary(t, 1);
    NormalizedAfterSpace(t, i);
    assert NoDoubleSpaceAt(t, i);
    SplitAt(t, i);
  }

  /** One step of the split on normalized text: the first sentence is the
      text up to the first boundary, and the rest starts one space later. */
  lemma SplitStep(t: string)
    requires Normalized(t) && FirstBoundary(t, 1) < |t|
    ensures var i := FirstBoundary(t, 1);
      && i + 1 < |t| && Normalized(t[i + 1..]) && t[i] == ' '
      && SplitIntoSentences(t) == [t[..i]] + SplitIntoSentences(t[i + 1..])
  {
    var i := FirstBoundary(t, 1);
    RegexStep(t);
    StripNonEmptyCons(t[..i], RegexSplit(t[i + 1..]));
  }

  /** For normalized text the split loses, duplicates and reorders nothing:
      joining the sentences with single spaces gives the text back. */
  lemma {:induction false} SentencesJoinBack(t: string)
    requires Normalized(t)
    ensures Join(" ", SplitIntoSentences(t)) == t
    decreases |t|
  {
    var i := FirstBoundary(t, 1);
    if i == |t| {
      assert t != [] ==> !IsSpace(t[0]) && !IsSpace(t[|t| - 1]);
      SentencesOfUnbroken(t);
    } else {
      SplitStep(t);
      var head, rest := t[..i], t[i + 1..];
      SentencesJoinBack(rest);
      JoinAppend(" ", [head], SplitIntoSentences(rest));
      SplitAroundSpace(t, i);
    }
  }

  /** Sentence boundaries never fall inside a word: the words of the
      sentences, read in order, are the words of the collapsed input. */
  lemma SentencesKeepWords(content: string)
    ensures Join(" ", SplitIntoSentences(Collapse(content))) == Collapse(content)
    ensures Words(Join(" ", SplitIntoSentences(Collapse(content)))) == Words(content)
  {
    CollapseNormalizes(content);
    SentencesJoinBack(Collapse(content));
  }

  /** Text without a boundary is one piece. */
  lemma SplitWhole(t: string)
    requires forall j :: 1 <= j < |t| ==> !IsBoundary(t, j)
    ensures RegexSplit(t) == [t]
  {
    assert FirstBoundary(t, 1) == |t|;
  }

  /** A first boundary at `i` with a single space cuts off `t[..i]`. */
  lemma SplitAt(t: string, i: nat)
    requires 1 <= i < |t| - 1 && IsBoundary(t, i) && t[i + 1] != ' '
    requires forall j :: 1 <= j < i ==> !IsBoundary(t, j)
    ensures RegexSplit(t) == [t[..i]] + RegexSplit(t[i + 1..])
  {
    assert FirstBoundary(t, 1) == i;
    assert SpaceRunEnd(t, i) == i + 1 by { assert SpaceRunEnd(t, i + 1) == i + 1; }
  }

  /** Two trimmed pieces are the two sentences. */
  lemma SentencesOfTwoPieces(t: string, a: string, b: string)
    requires RegexSplit(t) == [a, b]
    requires a != [] && !IsSpace(a[0]) && !IsSpace(a[|a| - 1])
    requires b != [] && !IsSpace(b[0]) && !IsSpace(b[|b| - 1])
    ensures SplitIntoSentences(t) == [a, b]
  {
    StripNonEmptyCons(a, [b]);
    StripNonEmptyCons(b, []);
    assert [a] + [b] == [a, b];
  }

  /** The pieces of `"Hi. Wow."`. */
  lemma RegexSplitTwo()
    ensures RegexSplit("Hi. Wow.") == ["Hi.", "Wow."]
  {
    var t := "Hi. Wow.";
    assert t[..3] == "Hi." && t[4..] == "Wow.";
    SplitWhole("Wow.");
    assert !IsBoundary(t, 1) && !IsBoundary(t, 2);
    SplitAt(t, 3);
  }

  /** Two sentences in a row. */
  lemma SplitTwoSentences()
    ensures SplitIntoSentences("Hi. Wow.") == ["Hi.", "Wow."]
  {
    RegexSplitTwo();
    SentencesOfTwoPieces("Hi. Wow.", "Hi.", "Wow.");
  }

  /** The pieces of `"Mr. Smith!"`. */
  lemma RegexSplitMr()
    ensures RegexSplit("Mr. Smith!") == ["Mr.", "Smith!"]
  {
    var u := "Mr. Smith!";
    assert u[..3] == "Mr." && u[4..] == "Smith!";
    SplitWhole("Smith!");
    assert !IsBoundary(u, 1) && !IsBoundary(u, 2);
    SplitAt(u, 3);
  }

  /** An abbreviation is cut like any other sentence end:
      `"Mr. Smith!"` gives `"Mr."` and `"Smith!"`. */
  lemma SplitAbbreviation()
    ensures SplitIntoSentences("Mr. Smith!") == ["Mr.", "Smith!"]
  {
    RegexSplitMr();
    SentencesOfTwoPieces("Mr. Smith!", "Mr.", "Smith!");
  }
}
