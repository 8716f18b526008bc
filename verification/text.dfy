/** The Python string operations the reformatter is built from: `str.isspace`,
    `str.split()` with no separator, `str.join`, `str.strip()` and
    `str.endswith`, and the whitespace collapse `" ".join(content.split())`. */
module Text {

  /** Python's `str.isspace` on one character (CPython's whitespace table). */
  predicate IsSpace(c: char) {
    || c == ' '
    || ('\t' <= c <= '\r')
    || ('\U{1C}' <= c <= '\U{1F}')
    || c == '\U{85}' || c == '\U{A0}' || c == '\U{1680}'
    || ('\U{2000}' <= c <= '\U{200A}')
    || c == '\U{2028}' || c == '\U{2029}' || c == '\U{202F}'
    || c == '\U{205F}' || c == '\U{3000}'
  }

  predicate NoSpace(s: string) {
    forall k :: 0 <= k < |s| ==> !IsSpace(s[k])
  }

  /** End of the run of non-whitespace characters that starts at `i`. */
  function WordEnd(s: string, i: nat): (k: nat)
    requires i <= |s|
    ensures i <= k <= |s|
    ensures forall j :: i <= j < k ==> !IsSpace(s[j])
    ensures k < |s| ==> IsSpace(s[k])
    decreases |s| - i
  {
    if i == |s| || IsSpace(s[i]) then i else WordEnd(s, i + 1)
  }

  /** `s.split()`: the maximal runs of non-whitespace characters, in order. */
  function Words(s: string): (ws: seq<string>)
    ensures forall i :: 0 <= i < |ws| ==> ws[i] != [] && NoSpace(ws[i])
    decreases |s|
  {
    if s == [] then []
    else if IsSpace(s[0]) then Words(s[1..])
    else
      var k := WordEnd(s, 0);
      [s[..k]] + Words(s[k..])
  }

  /** `sep.join(xs)`. */
  function Join(sep: string, xs: seq<string>): string
    decreases |xs|
  {
    if |xs| == 0 then ""
    else if |xs| == 1 then xs[0]
    else xs[0] + sep + Join(sep, xs[1..])
  }

  /** First non-whitespace position at or after `i`. */
  function SkipSpace(s: string, i: nat): (k: nat)
    requires i <= |s|
    ensures i <= k <= |s|
    ensures forall j :: i <= j < k ==> IsSpace(s[j])
    ensures k < |s| ==> !IsSpace(s[k])
    decreases |s| - i
  {
    if i == |s| || !IsSpace(s[i]) then i else SkipSpace(s, i + 1)
  }

  /** End of `s[lo..hi]` once its trailing whitespace is dropped. */
  function SkipSpaceBack(s: string, lo: nat, hi: nat): (k: nat)
    requires lo <= hi <= |s|
    ensures lo <= k <= hi
    ensures forall j :: k <= j < hi ==> IsSpace(s[j])
    ensures k > lo ==> !IsSpace(s[k - 1])
    decreases hi - lo
  {
    if hi == lo || !IsSpace(s[hi - 1]) then hi else SkipSpaceBack(s, lo, hi - 1)
  }

  /** `s.strip()`: `s` without its leading and trailing whitespace. */
  function Strip(s: string): (r: string)
    ensures r == [] || (!IsSpace(r[0]) && !IsSpace(r[|r| - 1]))
    ensures r == [] <==> forall k :: 0 <= k < |s| ==> IsSpace(s[k])
    ensures s == [] || (!IsSpace(s[0]) && !IsSpace(s[|s| - 1])) ==> r == s
    ensures exists lo, hi ::
      && 0 <= lo <= hi <= |s| && r == s[lo..hi]
      && (forall j :: 0 <= j < lo ==> IsSpace(s[j]))
      && (forall j :: hi <= j < |s| ==> IsSpace(s[j]))
  {
    var lo := SkipSpace(s, 0);
    var hi := SkipSpaceBack(s, lo, |s|);
    assert forall j :: hi <= j < |s| ==> IsSpace(s[j]);
    s[lo..hi]
  }

  /** `s.endswith(suffix)`. */
  predicate EndsWith(s: string, suffix: string) {
    |suffix| <= |s| && s[|s| - |suffix|..] == suffix
  }

  /** `" ".join(content.split())`: every run of whitespace becomes one space,
      and leading and trailing whitespace disappears. */
  function Collapse(content: string): string {
    Join(" ", Words(content))
  }

  /** Position `k` and the next one are not both spaces. */
  predicate NoDoubleSpaceAt(t: string, k: int)
    requires 0 <= k < |t| - 1
  {
    t[k] != ' ' || t[k + 1] != ' '
  }

  /** Text in the shape the collapse produces: its only whitespace is the
      plain space, it does not start or end with one, and no two are adjacent. */
  predicate Normalized(t: string) {
    && (forall k :: 0 <= k < |t| && IsSpace(t[k]) ==> t[k] == ' ')
    && (t != [] ==> t[0] != ' ' && t[|t| - 1] != ' ')
    && (forall k :: 0 <= k < |t| - 1 ==> NoDoubleSpaceAt(t, k))
  }

  lemma {:induction false} WordEndAt(s: string, i: nat, k: nat)
    requires i <= k <= |s|
    requires forall j :: i <= j < k ==> !IsSpace(s[j])
    requires k == |s| || IsSpace(s[k])
    ensures WordEnd(s, i) == k
    decreases k - i
  {
    if i < k {
      WordEndAt(s, i + 1, k);
    }
  }

  /** Joining two non-empty lists with a separator puts the separator
      between the two joins. */
  lemma {:induction false} JoinAppend(sep: string, a: seq<string>, b: seq<string>)
    requires a != [] && b != []
    ensures Join(sep, a + b) == Join(sep, a) + sep + Join(sep, b)
    decreases |a|
  {
    if |a| == 1 {
      assert (a + b)[1..] == b;
    } else {
      assert (a + b)[1..] == a[1..] + b;
      JoinAppend(sep, a[1..], b);
    }
  }

  /** A word, a space and normalized non-empty text form normalized text. */
  lemma PrefixWordNormalized(w: string, jr: string)
    requires w != [] && NoSpace(w)
    requires jr != [] && Normalized(jr)
    ensures Normalized(w + " " + jr)
  {
    var t := w + " " + jr;
    assert !IsSpace(jr[0]);
    forall k | 0 <= k < |t| && IsSpace(t[k]) ensures t[k] == ' ' {
      if k > |w| { assert t[k] == jr[k - |w| - 1]; }
    }
    forall k | 0 <= k < |t| - 1 ensures NoDoubleSpaceAt(t, k) {
      if k > |w| {
        assert NoDoubleSpaceAt(jr, k - |w| - 1);
        assert t[k] == jr[k - |w| - 1] && t[k + 1] == jr[k - |w|];
      }
    }
  }

  /** Splitting a word followed by a space and more text finds that word
      first, then the words of the rest. */
  lemma WordsOfPrefixWord(w: string, jr: string)
    requires w != [] && NoSpace(w)
    ensures Words(w + " " + jr) == [w] + Words(jr)
  {
    var t := w + " " + jr;
    WordEndAt(t, 0, |w|);
    assert t[..|w|] == w;
    assert t[|w|..] == " " + jr;
    assert (" " + jr)[1..] == jr;
  }

  /** Words that hold no whitespace, joined by single spaces, give normalized
      text whose words are exactly those words. */
  lemma {:induction false} JoinWords(ws: seq<string>)
    requires forall i :: 0 <= i < |ws| ==> ws[i] != [] && NoSpace(ws[i])
    ensures Normalized(Join(" ", ws))
    ensures Words(Join(" ", ws)) == ws
    ensures ws != [] ==> |Join(" ", ws)| > 0
    decreases |ws|
  {
    if |ws| == 0 {
    } else if |ws| == 1 {
      var w := ws[0];
      WordEndAt(w, 0, |w|);
      assert w[..|w|] == w && w[|w|..] == [];
    } else {
      var w, rest := ws[0], ws[1..];
      JoinWords(rest);
      assert Join(" ", ws) == w + " " + Join(" ", rest);
      PrefixWordNormalized(w, Join(" ", rest));
      WordsOfPrefixWord(w, Join(" ", rest));
    }
  }

  /** The collapse yields normalized text with the same words, in the same
      order, as its input. */
  lemma CollapseNormalizes(content: string)
    ensures Normalized(Collapse(content))
    ensures Words(Collapse(content)) == Words(content)
  {
    JoinWords(Words(content));
  }

  /** A suffix of normalized text that starts after a space is normalized. */
  lemma NormalizedAfterSpace(t: string, i: nat)
    requires Normalized(t) && i < |t| && t[i] == ' '
    ensures i + 1 < |t| && Normalized(t[i + 1..])
  {
    var rest := t[i + 1..];
    assert NoDoubleSpaceAt(t, i) by { assert i + 1 < |t|; }
    forall j | 0 <= j < |rest| - 1 ensures NoDoubleSpaceAt(rest, j) {
      assert NoDoubleSpaceAt(t, i + 1 + j);
      assert rest[j] == t[i + 1 + j] && rest[j + 1] == t[i + 2 + j];
    }
  }

  /** A word that ends at a whitespace character is followed by the words
      after that character. */
  lemma WordsAfterWord(t: string, k: nat)
    requires t != [] && !IsSpace(t[0]) && k == WordEnd(t, 0) && k < |t|
    ensures Words(t) == [t[..k]] + Words(t[k + 1..])
  {
    assert Words(t) == [t[..k]] + Words(t[k..]);
    assert t[k..][1..] == t[k + 1..];
  }

  lemma SplitAroundSpace(t: string, k: nat)
    requires k < |t| && t[k] == ' '
    ensures t == t[..k] + " " + t[k + 1..]
  {
  }

  /** On normalized text the first word ends at a single space, and the
      text after that space is normalized again. */
  lemma WordsStep(t: string)
    requires Normalized(t) && t != [] && WordEnd(t, 0) < |t|
    ensures var k := WordEnd(t, 0);
      && k + 1 < |t| && Normalized(t[k + 1..]) && t[k + 1..] != []
      && Words(t) == [t[..k]] + Words(t[k + 1..])
      && t == t[..k] + " " + t[k + 1..]
  {
    var k := WordEnd(t, 0);
    assert !IsSpace(t[0]);
    assert IsSpace(t[k]);
    assert t[k] == ' ';
    NormalizedAfterSpace(t, k);
    WordsAfterWord(t, k);
    SplitAroundSpace(t, k);
  }

  /** Normalized text is its own collapse, so collapsing twice is collapsing once. */
  lemma {:induction false} CollapseIdempotent(t: string)
    requires Normalized(t)
    ensures Collapse(t) == t
    decreases |t|
  {
    if t != [] {
      var k := WordEnd(t, 0);
      assert !IsSpace(t[0]);
      if k == |t| {
        assert t[k..] == [] && t[..k] == t;
        assert Words(t) == [t];
      } else {
        WordsStep(t);
        var rest := t[k + 1..];
        CollapseIdempotent(rest);
        assert Words(rest) != [] by { assert !IsSpace(rest[0]); }
        JoinAppend(" ", [t[..k]], Words(rest));
      }
    }
  }

  /** A non-empty string without whitespace is one word. */
  lemma WordsOfWord(w: string)
    requires w != [] && NoSpace(w)
    ensures Words(w) == [w]
  {
    WordEndAt(w, 0, |w|);
    assert w[..|w|] == w && w[|w|..] == [];
  }

  /** `split()` cuts at every whitespace character: the words around one
      are the words before it followed by the words after it. */
  lemma {:induction false} WordsAroundSpace(a: string, c: char, b: string)
    requires IsSpace(c)
    ensures Words(a + [c] + b) == Words(a) + Words(b)
    decreases |a|
  {
    var s := a + [c] + b;
    if a == [] {
      assert s[1..] == b;
    } else if IsSpace(a[0]) {
      assert s[1..] == a[1..] + [c] + b;
      WordsAroundSpace(a[1..], c, b);
    } else {
      var k := WordEnd(a, 0);
      assert s[k] == (if k < |a| then a[k] else c);
      WordEndAt(s, 0, k);
      assert s[..k] == a[..k];
      if k == |a| {
        assert s[k..] == [c] + b && ([c] + b)[1..] == b;
        assert a[k..] == [];
      } else {
        assert s[k..] == a[k..] + [c] + b;
        WordsAroundSpace(a[k..], c, b);
      }
    }
  }

  /** Stripping leaves nothing exactly when splitting finds no words: the
      empty-input check after `strip()` and the collapse agree. */
  lemma {:induction false} StripEmptyIffNoWords(s: string)
    ensures Strip(s) == [] <==> Words(s) == []
    decreases |s|
  {
    if s != [] {
      StripEmptyIffNoWords(s[1..]);
      if IsSpace(s[0]) {
        assert forall k :: 1 <= k < |s| ==> s[k] == s[1..][k - 1];
      }
    }
  }

  /** Leading whitespace contributes no words. */
  lemma {:induction false} WordsDropLeading(s: string, lo: nat)
    requires lo <= |s| && forall j :: 0 <= j < lo ==> IsSpace(s[j])
    ensures Words(s) == Words(s[lo..])
    decreases lo
  {
    if lo > 0 {
      WordsDropLeading(s[1..], lo - 1);
      assert s[1..][lo - 1..] == s[lo..];
    }
  }

  /** Trailing whitespace contributes no words. */
  lemma {:induction false} WordsDropTrailing(s: string, hi: nat)
    requires hi <= |s| && forall j :: hi <= j < |s| ==> IsSpace(s[j])
    ensures Words(s) == Words(s[..hi])
    decreases |s|
  {
    if s == [] {
    } else if IsSpace(s[0]) {
      if hi == 0 {
        StripEmptyIffNoWords(s);
      } else {
        WordsDropTrailing(s[1..], hi - 1);
        assert s[1..][..hi - 1] == s[..hi][1..];
      }
    } else {
      var k := WordEnd(s, 0);
      assert hi == |s| || IsSpace(s[hi]);
      assert 0 < k <= hi;
      WordEndAt(s[..hi], 0, k);
      WordsDropTrailing(s[k..], hi - k);
      assert s[..hi][..k] == s[..k];
      assert s[k..][..hi - k] == s[..hi][k..];
    }
  }

  /** Cutting whitespace off both ends changes none of the words. */
  lemma WordsOfInnerSlice(s: string, lo: nat, hi: nat)
    requires lo <= hi <= |s|
    requires forall j :: 0 <= j < lo ==> IsSpace(s[j])
    requires forall j :: hi <= j < |s| ==> IsSpace(s[j])
    ensures Words(s[lo..hi]) == Words(s)
  {
    WordsDropTrailing(s, hi);
    var front := s[..hi];
    forall j | 0 <= j < lo ensures IsSpace(front[j]) {
      assert front[j] == s[j];
    }
    WordsDropLeading(front, lo);
    assert front[lo..] == s[lo..hi];
  }

  /** Stripping first changes none of the words: `" ".join(s.strip().split())`
      is `" ".join(s.split())`. */
  lemma StripKeepsWords(s: string)
    ensures Words(Strip(s)) == Words(s)
  {
    var lo := SkipSpace(s, 0);
    WordsOfInnerSlice(s, lo, SkipSpaceBack(s, lo, |s|));
  }
}
