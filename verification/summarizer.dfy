/** Extractive summarisation (summarizer.py, `score_sentences`, `pick_count` and
    `summarize_text`).

    A sentence scores the sum of its words' table values divided by a length penalty,
    plus a bonus of 0.12 for the first three sentences. The best-scoring sentences are
    kept, in document order, and the most frequent table words are the keywords. The
    penalty `len(words) ** 0.7` is floating-point and enters as a parameter `penalty`
    that is positive on every positive word count; everything else is exact.
 */
module Summarizer {
  import opened Chars
  import opened Tokenizer
  import opened Frequency
  import opened Ranking

  /** A penalty usable as the divisor of a non-empty sentence's score. */
  ghost predicate PositivePenalty(penalty: nat -> real) {
    forall n: nat :: n >= 1 ==> penalty(n) > 0.0
  }

  // ---------------------------------------------------------------------------
  // Scoring
  // ---------------------------------------------------------------------------

  /** None of the words has an entry in the table. */
  predicate OffTable(table: Table, ws: seq<string>) {
    forall w :: w in ws ==> w !in Words(table)
  }

  /** `sum(freq_table.get(w, 0.0) for w in words)`. */
  function SumValues(table: Table, ws: seq<string>): (r: real)
    ensures (forall i :: 0 <= i < |table| ==> 0.0 <= table[i].value <= 1.0) ==>
      0.0 <= r <= |ws| as real
    ensures OffTable(table, ws) ==> r == 0.0
  {
    if ws == [] then 0.0
    else Lookup(table, ws[0]) + SumValues(table, ws[1..])
  }

  /** The lead bonus of summarizer.py:50-51. */
  function LeadBonus(i: nat): real {
    if i < 3 then 0.12 else 0.0
  }

  /** The score of sentence `s` at position `i`. */
  function SentenceScore(table: Table, i: nat, s: string, penalty: nat -> real): real
    requires PositivePenalty(penalty)
  {
    var words := WordTokenize(s);
    if words == [] then 0.0
    else SumValues(table, words) / penalty(|words|) + LeadBonus(i)
  }

  /** summarizer.py:42-52. One (position, score) pair per sentence, in order. A sentence
      without words scores 0; otherwise, when the table values lie in [0, 1], a sentence
      scores at least its lead bonus and at most that bonus plus its word count over the
      penalty, and exactly its lead bonus when none of its words is in the table. */
  function ScoreSentences(sentences: seq<string>, table: Table, penalty: nat -> real)
    : (r: seq<(nat, real)>)
    requires PositivePenalty(penalty)
    ensures |r| == |sentences|
    ensures forall i :: 0 <= i < |r| ==> r[i].0 == i
    ensures forall i :: 0 <= i < |r| && WordTokenize(sentences[i]) == [] ==> r[i].1 == 0.0
    ensures forall i ::
      0 <= i < |r| && WordTokenize(sentences[i]) != [] && OffTable(table, WordTokenize(sentences[i]))
      ==> r[i].1 == LeadBonus(i)
    ensures (forall e :: 0 <= e < |table| ==> 0.0 <= table[e].value <= 1.0) ==>
      forall i :: 0 <= i < |r| && WordTokenize(sentences[i]) != [] ==>
        LeadBonus(i) <= r[i].1 <=
          LeadBonus(i) + |WordTokenize(sentences[i])| as real / penalty(|WordTokenize(sentences[i])|)
  {
    var r := seq(|sentences|, i requires 0 <= i < |sentences| =>
      (i as nat, SentenceScore(table, i, sentences[i], penalty)));
    forall i | 0 <= i < |r| && WordTokenize(sentences[i]) != []
      ensures (forall e :: 0 <= e < |table| ==> 0.0 <= table[e].value <= 1.0) ==>
        LeadBonus(i) <= r[i].1 <=
          LeadBonus(i) + |WordTokenize(sentences[i])| as real / penalty(|WordTokenize(sentences[i])|)
    {
      var words := WordTokenize(sentences[i]);
      if forall e :: 0 <= e < |table| ==> 0.0 <= table[e].value <= 1.0 {
        DivideBounds(SumValues(table, words), |words| as real, penalty(|words|));
      }
    }
    r
  }

  lemma DivideBounds(x: real, hi: real, p: real)
    requires p > 0.0 && 0.0 <= x <= hi
    ensures 0.0 <= x / p <= hi / p
  {
  }

  /** Among sentences with the same number of words on the same side of the lead cut-off,
      the one whose words are more frequent scores higher. */
  lemma ScoreFollowsFrequency(sentences: seq<string>, table: Table, penalty: nat -> real, i: nat, j: nat)
    requires PositivePenalty(penalty)
    requires i < |sentences| && j < |sentences|
    requires WordTokenize(sentences[i]) != []
    requires |WordTokenize(sentences[i])| == |WordTokenize(sentences[j])|
    requires (i < 3) == (j < 3)
    ensures var r := ScoreSentences(sentences, table, penalty);
      r[i].1 <= r[j].1 <==>
        SumValues(table, WordTokenize(sentences[i])) <= SumValues(table, WordTokenize(sentences[j]))
  {
    var n := |WordTokenize(sentences[i])|;
    DivideMonotone(SumValues(table, WordTokenize(sentences[i])),
      SumValues(table, WordTokenize(sentences[j])), penalty(n));
  }

  lemma DivideMonotone(x: real, y: real, p: real)
    requires p > 0.0
    ensures x / p <= y / p <==> x <= y
  {
    assert x == (x / p) * p && y == (y / p) * p;
    if x / p <= y / p {
      assert (y / p - x / p) * p >= 0.0;
    }
  }

  /** The score keys of a list of (position, score) pairs. */
  function Keys(scores: seq<(nat, real)>): (keys: seq<real>)
    ensures |keys| == |scores| && forall i :: 0 <= i < |scores| ==> keys[i] == scores[i].1
  {
    seq(|scores|, i requires 0 <= i < |scores| => scores[i].1)
  }

  // ---------------------------------------------------------------------------
  // How many sentences to keep
  // ---------------------------------------------------------------------------

  /** Python's `x or d` on an integer. */
  function OrElse(x: nat, d: nat): nat {
    if x != 0 then x else d
  }

  function Max(a: nat, b: nat): nat {
    if a >= b then a else b
  }

  /** summarizer.py:54-59. The number of sentences kept for a length mode: a fixed floor
      (3 short, 8 long, 5 for any other mode) or one sentence in 12, 5 or 8, whichever is
      larger. */
  function PickCount(total: nat, length: string): (k: nat)
    ensures length == "short" ==> k >= 3 && k >= total / 12 && (k == 3 || k == total / 12)
    ensures length == "long" ==> k >= 8 && k >= total / 5 && (k == 8 || k == total / 5)
    ensures length != "short" && length != "long" ==>
      k >= 5 && k >= total / 8 && (k == 5 || k == total / 8)
  {
    if length == "short" then Max(3, OrElse(total / 12, 3))
    else if length == "long" then Max(8, OrElse(total / 5, 8))
    else Max(5, OrElse(total / 8, 5))
  }

  /** A longer document never keeps fewer sentences. */
  lemma PickCountMonotone(a: nat, b: nat, length: string)
    requires a <= b
    ensures PickCount(a, length) <= PickCount(b, length)
  {
  }

  /** A document of at least eight sentences never keeps more sentences than it has. */
  lemma PickCountAtMostTotal(total: nat, length: string)
    requires total >= 8
    ensures PickCount(total, length) <= total
  {
  }

  // ---------------------------------------------------------------------------
  // Selection and keywords
  // ---------------------------------------------------------------------------

  function Min(a: nat, b: nat): nat {
    if a <= b then a else b
  }

  /** summarizer.py:68-71: the positions of the `k` best scores (ties to the earlier
      sentence), in document order. Each kept sentence ranks ahead of each dropped one.
      Every pair carries its own position, as `ScoreSentences` builds them, so a kept
      position is also the index `i` that `[i for i, _ in scores[:k]]` reads. */
  function TopIndices(scores: seq<(nat, real)>, k: nat): (r: seq<nat>)
    requires forall i :: 0 <= i < |scores| ==> scores[i].0 == i
    ensures |r| == Min(k, |scores|)
    ensures Increasing(r)
    ensures forall a :: 0 <= a < |r| ==> r[a] < |scores|
    ensures forall i, j: nat :: i in r && j < |scores| && j !in r ==> Before(Keys(scores), i, j)
  {
    var top := TopK(Keys(scores), k);
    var r := SortAscending(top);
    forall a | 0 <= a < |r| ensures r[a] < |scores| {
      assert r[a] in top;
    }
    r
  }

  /** When at least as many sentences are asked for as there are, all are kept. */
  lemma TopIndicesAll(scores: seq<(nat, real)>, k: nat)
    requires forall i :: 0 <= i < |scores| ==> scores[i].0 == i
    requires |scores| <= k
    ensures TopIndices(scores, k) == Range(|scores|)
  {
    IncreasingFull(TopIndices(scores, k), |scores|);
  }

  /** `top_k` (summarizer.py:76): how many keywords each mode reports. */
  function KeywordCount(length: string): nat {
    if length == "long" then 8 else if length == "medium" then 6 else 5
  }

  /** Longer modes keep at least as many sentences and strictly more keywords. */
  lemma ModesOrdered(total: nat)
    ensures PickCount(total, "short") <= PickCount(total, "medium") <= PickCount(total, "long")
    ensures KeywordCount("short") < KeywordCount("medium") < KeywordCount("long")
  {
  }

  /** A mode other than the three named ones keeps as many sentences as "medium" but
      reports only as many keywords as "short". */
  lemma UnknownMode(total: nat, length: string)
    requires length != "short" && length != "medium" && length != "long"
    ensures PickCount(total, length) == PickCount(total, "medium")
    ensures KeywordCount(length) == KeywordCount("short") < KeywordCount("medium")
  {
  }

  function Values(t: Table): (keys: seq<real>)
    ensures |keys| == |t| && forall i :: 0 <= i < |t| ==> keys[i] == t[i].value
  {
    seq(|t|, i requires 0 <= i < |t| => t[i].value)
  }

  /** `[w for w, _ in Counter(table).most_common(n)]`: the words of the `n` entries of
      largest value, largest first, ties in table order. Each listed word ranks ahead of
      the words after it and of every table word left out. */
  function Keywords(table: Table, n: nat): (r: seq<string>)
    requires Distinct(Words(table))
    ensures |r| == Min(n, |table|)
    ensures forall a :: 0 <= a < |r| ==> r[a] in Words(table)
    ensures forall a, b :: 0 <= a < b < |r| ==>
      Before(Values(table), FirstIndex(Words(table), r[a]), FirstIndex(Words(table), r[b]))
    ensures forall a, w :: 0 <= a < |r| && w in Words(table) && w !in r ==>
      Before(Values(table), FirstIndex(Words(table), r[a]), FirstIndex(Words(table), w))
  {
    var ws := Words(table);
    var p := TopK(Values(table), n);
    var r := seq(|p|, a requires 0 <= a < |p| => ws[p[a]]);
    forall a | 0 <= a < |r| ensures FirstIndex(ws, r[a]) == p[a] {
      FirstIndexOfDistinct(ws, p[a]);
    }
    forall a, w | 0 <= a < |r| && w in ws && w !in r
      ensures Before(Values(table), FirstIndex(ws, r[a]), FirstIndex(ws, w))
    {
      var j := FirstIndex(ws, w);
      assert j !in p;
      assert Before(Values(table), p[a], j);
    }
    r
  }

  lemma FirstIndexOfDistinct(ws: seq<string>, i: nat)
    requires Distinct(ws) && i < |ws|
    ensures FirstIndex(ws, ws[i]) == i
  {
  }

  /** The keywords in terms of `freq_table.get`: no keyword repeats, their values never
      increase along the list, and no table word left out has a larger value than any
      keyword. */
  lemma KeywordsByValue(table: Table, n: nat)
    requires Distinct(Words(table))
    ensures var r := Keywords(table, n);
      && Distinct(r)
      && (forall a, b :: 0 <= a < b < |r| ==> Lookup(table, r[a]) >= Lookup(table, r[b]))
      && (forall a, w :: 0 <= a < |r| && w in Words(table) && w !in r ==>
            Lookup(table, r[a]) >= Lookup(table, w))
  {
    var r := Keywords(table, n);
    var ws := Words(table);
    forall w | w in ws ensures Lookup(table, w) == Values(table)[FirstIndex(ws, w)] {
      LookupAt(table, FirstIndex(ws, w));
    }
    forall a, b | 0 <= a < b < |r| ensures r[a] != r[b] {
      assert Before(Values(table), FirstIndex(ws, r[a]), FirstIndex(ws, r[b]));
    }
  }

  // ---------------------------------------------------------------------------
  // The summary
  // ---------------------------------------------------------------------------

  datatype Summary = Summary(text: string, keywords: seq<string>)

  /** The sentences at the given positions. */
  function Pick(sentences: seq<string>, idx: seq<nat>): (r: seq<string>)
    requires forall a :: 0 <= a < |idx| ==> idx[a] < |sentences|
    ensures |r| == |idx| && forall a :: 0 <= a < |idx| ==> r[a] == sentences[idx[a]]
  {
    seq(|idx|, a requires 0 <= a < |idx| => sentences[idx[a]])
  }

  /** The positions of the sentences summarizer.py:66-71 keeps: as many as `PickCount`
      allows (all when there are fewer), in document order, each ranking ahead of every
      dropped sentence by score with ties to the earlier sentence. */
  function Selection(sentences: seq<string>, length: string, penalty: nat -> real): (r: seq<nat>)
    requires PositivePenalty(penalty)
    ensures var scores := ScoreSentences(sentences, BuildFrequencyTable(sentences), penalty);
      && |r| == Min(PickCount(|sentences|, length), |sentences|)
      && Increasing(r)
      && (forall a :: 0 <= a < |r| ==> r[a] < |sentences|)
      && (forall i, j: nat :: i in r && j < |sentences| && j !in r ==> Before(Keys(scores), i, j))
  {
    var table := BuildFrequencyTable(sentences);
    var scores := ScoreSentences(sentences, table, penalty);
    TopIndices(scores, PickCount(|sentences|, length))
  }

  /** summarizer.py:61-78. Blank text gives an empty summary and no keywords. Otherwise the
      summary is the kept sentences joined by single spaces and is never empty, it is the
      whole normalised text when no more sentences exist than are kept, and the keywords
      are the most frequent qualifying words, as many as the mode asks for when the text
      has that many. */
  function SummarizeText(text: string, length: string, penalty: nat -> real): (r: Summary)
    requires PositivePenalty(penalty)
    ensures AllSpace(text) <==> r == Summary("", [])
    ensures !AllSpace(text) ==>
      var sentences := SentenceTokenize(text);
      && r.text == JoinSpace(Pick(sentences, Selection(sentences, length, penalty)))
      && r.text != []
      && (|sentences| <= PickCount(|sentences|, length) ==> r.text == Normalize(text))
      && r.keywords == Keywords(BuildFrequencyTable(sentences), KeywordCount(length))
      && |r.keywords| == Min(KeywordCount(length), |BuildFrequencyTable(sentences)|)
      && (forall w :: w in r.keywords ==> w in AllWords(sentences) && Qualifies(w))
  {
    var sentences := SentenceTokenize(text);
    if sentences == [] then Summary("", [])
    else
      var chosen := Pick(sentences, Selection(sentences, length, penalty));
      var keywords := Keywords(BuildFrequencyTable(sentences), KeywordCount(length));
      SummaryNonEmpty(sentences, length, penalty);
      AllKept(sentences, length, penalty);
      KeywordsQualify(sentences, KeywordCount(length));
      Summary(JoinSpace(chosen), keywords)
  }

  /** A non-empty list of non-empty sentences gives a non-empty summary. */
  lemma SummaryNonEmpty(sentences: seq<string>, length: string, penalty: nat -> real)
    requires PositivePenalty(penalty)
    requires sentences != [] && forall s :: s in sentences ==> s != []
    ensures JoinSpace(Pick(sentences, Selection(sentences, length, penalty))) != []
  {
    var chosen := Pick(sentences, Selection(sentences, length, penalty));
    assert chosen[0] in sentences;
    JoinNonEmpty(chosen);
  }

  /** Every keyword is a qualifying word of the sentences. */
  lemma KeywordsQualify(sentences: seq<string>, n: nat)
    ensures forall w :: w in Keywords(BuildFrequencyTable(sentences), n) ==>
      w in AllWords(sentences) && Qualifies(w)
  {
    var r := Keywords(BuildFrequencyTable(sentences), n);
    assert forall w :: w in r ==> w in Words(BuildFrequencyTable(sentences));
  }

  /** When no more sentences exist than are kept, the summary keeps all of them. */
  lemma AllKept(sentences: seq<string>, length: string, penalty: nat -> real)
    requires PositivePenalty(penalty)
    ensures |sentences| <= PickCount(|sentences|, length) ==>
      Pick(sentences, Selection(sentences, length, penalty)) == sentences
  {
    if |sentences| <= PickCount(|sentences|, length) {
      var scores := ScoreSentences(sentences, BuildFrequencyTable(sentences), penalty);
      TopIndicesAll(scores, PickCount(|sentences|, length));
    }
  }

  lemma JoinNonEmpty(ws: seq<string>)
    requires ws != [] && ws[0] != []
    ensures JoinSpace(ws) != []
  {
  }
}
