/** Paragraph grouping: `group_sentences_into_paragraphs` cuts the sentence
    list into consecutive groups of `k` and joins each group with single
    spaces. */
module Grouping {
  import opened Text
  import opened Chunking

  /** The paragraphs as a value: one single-space join per group of `k`. */
  function Paragraphs(sentences: seq<string>, k: nat): seq<string>
    requires k > 0
    decreases |sentences|
  {
    if |sentences| == 0 then []
    else if |sentences| <= k then [Join(" ", sentences)]
    else [Join(" ", sentences[..k])] + Paragraphs(sentences[k..], k)
  }

  /** Paragraph `p` is the single-space join of group `p` of the sentences. */
  lemma {:induction false} ParagraphsJoinChunks(sentences: seq<string>, k: nat)
    requires k > 0
    ensures |Paragraphs(sentences, k)| == |Chunks(sentences, k)|
    ensures forall p :: 0 <= p < |Chunks(sentences, k)| ==>
      Paragraphs(sentences, k)[p] == Join(" ", Chunks(sentences, k)[p])
    decreases |sentences|
  {
    if |sentences| > k {
      ParagraphsJoinChunks(sentences[k..], k);
    }
  }

  /** Paragraph `p` of `Paragraphs` joins the sentences `p*k` up to
      `min((p+1)*k, n)`, and there are `ceil(n/k)` paragraphs. */
  lemma ParagraphAt(sentences: seq<string>, k: nat, p: nat)
    requires k > 0 && p < |Paragraphs(sentences, k)|
    ensures p * k < |sentences|
    ensures Paragraphs(sentences, k)[p] == Join(" ", sentences[p * k .. Min((p + 1) * k, |sentences|)])
  {
    ParagraphsJoinChunks(sentences, k);
    ChunkAt(sentences, k, p);
  }

  /** The first paragraph joins the first `min(k, n)` sentences; the others
      are the paragraphs of the remaining sentences. */
  lemma ParagraphsUnfold(sentences: seq<string>, k: nat)
    requires k > 0 && sentences != []
    ensures var m := Min(k, |sentences|);
      Paragraphs(sentences, k) == [Join(" ", sentences[..m])] + Paragraphs(sentences[m..], k)
  {
    if |sentences| <= k {
      assert sentences[..|sentences|] == sentences;
      assert sentences[|sentences|..] == [];
    }
  }

  /** One round of the loop: the paragraphs of the sentences from `i` on
      are the group starting at `i` followed by the paragraphs after it. */
  lemma GroupStep(sentences: seq<string>, k: nat, i: nat)
    requires k > 0 && i < |sentences|
    ensures var j := Min(i + k, |sentences|);
      Paragraphs(sentences[i..], k) == [Join(" ", sentences[i..j])] + Paragraphs(sentences[j..], k)
  {
    var rest := sentences[i..];
    ParagraphsUnfold(rest, k);
    assert rest[..Min(k, |rest|)] == sentences[i .. Min(i + k, |sentences|)];
    assert rest[Min(k, |rest|)..] == sentences[Min(i + k, |sentences|)..];
  }

  /** There are `ceil(n/k)` paragraphs. */
  lemma ParagraphCount(sentences: seq<string>, k: nat)
    requires k > 0
    ensures |Paragraphs(sentences, k)| == CeilDiv(|sentences|, k)
  {
    ParagraphsJoinChunks(sentences, k);
    ChunkCount(sentences, k);
  }

  /** `group_sentences_into_paragraphs(sentences, k)`: the loop steps `i`
      through `range(0, len(sentences), k)` and appends the join of
      `sentences[i:i + k]`. */
  method GroupSentencesIntoParagraphs(sentences: seq<string>, k: nat) returns (paragraphs: seq<string>)
    requires k > 0
    ensures |paragraphs| == CeilDiv(|sentences|, k)
    ensures paragraphs == Paragraphs(sentences, k)
  {
    paragraphs := [];
    var i := 0;
    while i < |sentences|
      invariant paragraphs + Paragraphs(sentences[Min(i, |sentences|)..], k) == Paragraphs(sentences, k)
    {
      var j := Min(i + k, |sentences|);
      var paragraph := Join(" ", sentences[i..j]);
      GroupStep(sentences, k, i);
      assert sentences[Min(i, |sentences|)..] == sentences[i..];
      assert (paragraphs + [paragraph]) + Paragraphs(sentences[j..], k)
        == paragraphs + ([paragraph] + Paragraphs(sentences[j..], k));
      paragraphs := paragraphs + [paragraph];
      i := i + k;
    }
    assert sentences[|sentences|..] == [];
    ParagraphCount(sentences, k);
  }

  /** Every paragraph but the last joins exactly `k` sentences, the last
      joins the remaining 1 to `k`, all in sentence order. */
  lemma ParagraphSize(sentences: seq<string>, k: nat, p: nat)
    requires k > 0 && p < |Paragraphs(sentences, k)|
    ensures var ps := Paragraphs(sentences, k);
      && (p < |ps| - 1 ==> (p + 1) * k <= |sentences| && ps[p] == Join(" ", sentences[p * k .. (p + 1) * k]))
      && (p == |ps| - 1 ==> 0 < |sentences| - p * k <= k && ps[p] == Join(" ", sentences[p * k ..]))
  {
    ParagraphsJoinChunks(sentences, k);
    ChunkSize(sentences, k, p);
  }

  /** Joining the paragraphs with single spaces is joining the sentences
      with single spaces: grouping loses, duplicates and reorders nothing. */
  lemma {:induction false} ParagraphsJoinBack(sentences: seq<string>, k: nat)
    requires k > 0
    ensures Join(" ", Paragraphs(sentences, k)) == Join(" ", sentences)
    decreases |sentences|
  {
    var ps := Paragraphs(sentences, k);
    if |sentences| == 0 {
    } else if |sentences| <= k {
    } else {
      var rest := sentences[k..];
      ParagraphsJoinBack(rest, k);
      JoinAppend(" ", [Join(" ", sentences[..k])], Paragraphs(rest, k));
      JoinAppend(" ", sentences[..k], rest);
      assert sentences[..k] + rest == sentences;
    }
  }
}
