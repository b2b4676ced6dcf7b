/** The frequency table (summarizer.py, `STOPWORDS` and `build_frequency_table`).

    A `Counter` is a table of (word, value) entries kept in the order the words were first
    seen; each word appears once. Raw counts are natural numbers; the normalised table
    divides every count by the largest one, exactly (as a rational number).
 */
module Frequency {
  import opened Tokenizer

  /** The stopword list of summarizer.py:4-13, as a set. */
  const Stopwords: set<string> := {
    "a", "an", "and", "the", "is", "are", "was", "were", "be", "been", "being", "do",
    "does", "did", "doing", "of", "for", "to", "in", "on", "with", "without", "at", "by",
    "from", "up", "down", "into", "over", "under", "again", "further", "then", "once",
    "here", "there", "when", "where", "why", "how", "all", "any", "both", "each", "few",
    "more", "most", "other", "some", "such", "no", "nor", "not", "only", "own", "same",
    "so", "than", "too", "very", "can", "will", "just", "don", "t", "should", "shouldn",
    "now", "you", "your", "yours", "yourself", "yourselves", "he", "him", "his",
    "himself", "she", "her", "hers", "herself", "it", "its", "itself", "they", "them",
    "their", "theirs", "themselves", "we", "us", "our", "ours", "ourselves", "i", "me",
    "my", "mine", "myself", "this", "that", "these", "those", "as", "if", "because",
    "while", "during", "before", "after", "above", "below", "off", "out", "between",
    "through", "until", "against", "about"
  }

  /** A word that enters the table: not a stopword and longer than two characters. */
  predicate Qualifies(w: string) {
    w !in Stopwords && |w| > 2
  }

  datatype Entry<V> = Entry(word: string, value: V)

  type Counts = seq<Entry<nat>>
  type Table = seq<Entry<real>>

  function Words<V>(t: seq<Entry<V>>): (ws: seq<string>)
    ensures |ws| == |t| && forall i :: 0 <= i < |t| ==> ws[i] == t[i].word
  {
    seq(|t|, i requires 0 <= i < |t| => t[i].word)
  }

  predicate Distinct(ws: seq<string>) {
    forall i, j :: 0 <= i < j < |ws| ==> ws[i] != ws[j]
  }

  /** How often `w` occurs in `ws`. */
  function Occurrences(ws: seq<string>, w: string): nat {
    multiset(ws)[w]
  }

  /** Position of the first occurrence of `w` in `ws`. */
  function FirstIndex(ws: seq<string>, w: string): (i: nat)
    requires w in ws
    ensures i < |ws| && ws[i] == w && w !in ws[..i]
  {
    if ws[0] == w then 0
    else
      assert ws == [ws[0]] + ws[1..];
      var j := FirstIndex(ws[1..], w);
      assert ws[..j + 1] == [ws[0]] + ws[1..][..j];
      j + 1
  }

  /** The word tokens of all sentences, in reading order. */
  function AllWords(sentences: seq<string>): seq<string> {
    if sentences == [] then []
    else WordTokenize(sentences[0]) + AllWords(sentences[1..])
  }

  /** `counts[w] += 1`: increment the entry of `w`, or append a new entry at the end. */
  function Bump(t: Counts, w: string): (r: Counts)
    requires Distinct(Words(t))
    ensures w in Words(t) ==> |r| == |t|
    ensures w !in Words(t) ==> r == t + [Entry(w, 1)]
    ensures forall i :: 0 <= i < |t| ==> r[i].word == t[i].word
    ensures forall i :: 0 <= i < |t| ==>
      r[i].value == if t[i].word == w then t[i].value + 1 else t[i].value
  {
    if t == [] then [Entry(w, 1)]
    else if t[0].word == w then [Entry(w, t[0].value + 1)] + t[1..]
    else
      assert Words(t[1..]) == Words(t)[1..];
      [t[0]] + Bump(t[1..], w)
  }

  /** `t` is the count table of `ws` under the filter `keep`: it holds exactly the words
      of `ws` that `keep` admits, each once, in order of first occurrence, each with its
      number of occurrences. */
  ghost predicate CountsOf(ws: seq<string>, keep: string -> bool, t: Counts) {
    && Distinct(Words(t))
    && (forall w :: w in Words(t) <==> w in ws && keep(w))
    && (forall i :: 0 <= i < |t| ==> t[i].value == Occurrences(ws, t[i].word))
    && (forall i, j :: 0 <= i < j < |t| ==>
          FirstIndex(ws, t[i].word) < FirstIndex(ws, t[j].word))
  }

  /** The loop of summarizer.py:31-34 over a list of words, for the filter `keep`: every
      admitted word is counted, in a table ordered by first occurrence. */
  function Tally(ws: seq<string>, keep: string -> bool): (r: Counts)
    ensures CountsOf(ws, keep, r)
    decreases |ws|
  {
    if ws == [] then []
    else
      var p := ws[..|ws| - 1];
      var w := ws[|ws| - 1];
      var t := Tally(p, keep);
      assert ws == p + [w];
      TallyStep(p, w, keep, t);
      if keep(w) then Bump(t, w) else t
  }

  /** One iteration of the counting loop keeps the table the count table of the words
      read so far. */
  lemma TallyStep(p: seq<string>, w: string, keep: string -> bool, t: Counts)
    requires CountsOf(p, keep, t)
    ensures CountsOf(p + [w], keep, if keep(w) then Bump(t, w) else t)
  {
    FirstIndexExtend(p, w);
    assert multiset(p + [w]) == multiset(p) + multiset{w};
    forall i | 0 <= i < |t| ensures t[i].word in p && keep(t[i].word) {
      assert t[i].word in Words(t);
    }
    if !keep(w) {
      TallySkip(p, w, keep, t);
    } else if w in Words(t) {
      TallyIncrement(p, w, keep, t);
    } else {
      TallyAppend(p, w, keep, t);
    }
  }

  lemma TallySkip(p: seq<string>, w: string, keep: string -> bool, t: Counts)
    requires CountsOf(p, keep, t) && !keep(w)
    requires multiset(p + [w]) == multiset(p) + multiset{w}
    requires forall v :: v in p ==> FirstIndex(p + [w], v) == FirstIndex(p, v)
    requires forall i :: 0 <= i < |t| ==> t[i].word in p && keep(t[i].word)
    ensures CountsOf(p + [w], keep, t)
  {
    var ws := p + [w];
    assert forall x :: x in ws <==> x in p || x == w;
  }

  lemma TallyIncrement(p: seq<string>, w: string, keep: string -> bool, t: Counts)
    requires CountsOf(p, keep, t) && keep(w) && w in Words(t)
    requires multiset(p + [w]) == multiset(p) + multiset{w}
    requires forall v :: v in p ==> FirstIndex(p + [w], v) == FirstIndex(p, v)
    requires forall i :: 0 <= i < |t| ==> t[i].word in p && keep(t[i].word)
    ensures CountsOf(p + [w], keep, Bump(t, w))
  {
    IncrementWords(t, w);
    IncrementMembers(p, w, keep, Words(t));
    IncrementCounts(p, w, t);
    IncrementOrder(p, w, t);
  }

  lemma IncrementWords(t: Counts, w: string)
    requires Distinct(Words(t)) && w in Words(t)
    ensures Words(Bump(t, w)) == Words(t)
  {
  }

  lemma IncrementMembers(p: seq<string>, w: string, keep: string -> bool, ws: seq<string>)
    requires forall v :: v in ws <==> v in p && keep(v)
    requires w in ws
    ensures forall v :: v in ws <==> v in p + [w] && keep(v)
  {
  }

  lemma IncrementCounts(p: seq<string>, w: string, t: Counts)
    requires Distinct(Words(t))
    requires multiset(p + [w]) == multiset(p) + multiset{w}
    requires forall i :: 0 <= i < |t| ==> t[i].value == Occurrences(p, t[i].word)
    requires w in Words(t)
    ensures forall i :: 0 <= i < |Bump(t, w)| ==>
      Bump(t, w)[i].value == Occurrences(p + [w], Bump(t, w)[i].word)
  {
    var r := Bump(t, w);
    forall i | 0 <= i < |r| ensures r[i].value == Occurrences(p + [w], r[i].word) {
      assert r[i].word == t[i].word;
    }
  }

  lemma IncrementOrder(p: seq<string>, w: string, t: Counts)
    requires Distinct(Words(t)) && w in Words(t)
    requires forall v :: v in p ==> FirstIndex(p + [w], v) == FirstIndex(p, v)
    requires forall i :: 0 <= i < |t| ==> t[i].word in p
    requires forall i, j :: 0 <= i < j < |t| ==> FirstIndex(p, t[i].word) < FirstIndex(p, t[j].word)
    ensures forall i, j :: 0 <= i < j < |Bump(t, w)| ==>
      FirstIndex(p + [w], Bump(t, w)[i].word) < FirstIndex(p + [w], Bump(t, w)[j].word)
  {
    var r := Bump(t, w);
    forall i, j | 0 <= i < j < |r|
      ensures FirstIndex(p + [w], r[i].word) < FirstIndex(p + [w], r[j].word)
    {
      assert r[i].word == t[i].word && r[j].word == t[j].word;
    }
  }

  lemma TallyAppend(p: seq<string>, w: string, keep: string -> bool, t: Counts)
    requires CountsOf(p, keep, t) && keep(w) && w !in Words(t)
    requires multiset(p + [w]) == multiset(p) + multiset{w}
    requires forall v :: v in p ==> FirstIndex(p + [w], v) == FirstIndex(p, v)
    requires w !in p ==> FirstIndex(p + [w], w) == |p|
    requires forall i :: 0 <= i < |t| ==> t[i].word in p && keep(t[i].word)
    ensures CountsOf(p + [w], keep, Bump(t, w))
  {
    assert w !in p;
    assert Bump(t, w) == t + [Entry(w, 1)];
    AppendDistinct(t, w);
    AppendMembers(p, w, keep, t);
    AppendCounts(p, w, t);
    AppendFirstSeen(p, w, t);
  }

  lemma AppendDistinct(t: Counts, w: string)
    requires Distinct(Words(t)) && w !in Words(t)
    ensures Distinct(Words(t + [Entry(w, 1)]))
  {
    assert Words(t + [Entry(w, 1)]) == Words(t) + [w];
  }

  lemma AppendMembers(p: seq<string>, w: string, keep: string -> bool, t: Counts)
    requires forall v :: v in Words(t) <==> v in p && keep(v)
    requires keep(w)
    ensures forall v :: v in Words(t + [Entry(w, 1)]) <==> v in p + [w] && keep(v)
  {
    assert Words(t + [Entry(w, 1)]) == Words(t) + [w];
  }

  lemma AppendCounts(p: seq<string>, w: string, t: Counts)
    requires forall i :: 0 <= i < |t| ==> t[i].value == Occurrences(p, t[i].word)
    requires w !in p && w !in Words(t)
    ensures forall i :: 0 <= i < |t| + 1 ==>
      (t + [Entry(w, 1)])[i].value == Occurrences(p + [w], (t + [Entry(w, 1)])[i].word)
  {
    var r := t + [Entry(w, 1)];
    assert multiset(p + [w]) == multiset(p) + multiset{w};
    forall i | 0 <= i < |r| ensures r[i].value == Occurrences(p + [w], r[i].word) {
      if i < |t| {
        assert r[i] == t[i];
        assert t[i].word != w by {
          assert Words(t)[i] == t[i].word;
        }
      }
    }
  }

  lemma AppendFirstSeen(p: seq<string>, w: string, t: Counts)
    requires w !in p
    requires forall i :: 0 <= i < |t| ==> t[i].word in p
    requires forall v :: v in p ==> FirstIndex(p + [w], v) == FirstIndex(p, v)
    requires FirstIndex(p + [w], w) == |p|
    requires forall i, j :: 0 <= i < j < |t| ==> FirstIndex(p, t[i].word) < FirstIndex(p, t[j].word)
    ensures forall i, j :: 0 <= i < j < |t| + 1 ==>
      FirstIndex(p + [w], (t + [Entry(w, 1)])[i].word) < FirstIndex(p + [w], (t + [Entry(w, 1)])[j].word)
  {
    var r := t + [Entry(w, 1)];
    forall i, j | 0 <= i < j < |r|
      ensures FirstIndex(p + [w], r[i].word) < FirstIndex(p + [w], r[j].word)
    {
      assert r[i] == t[i];
      if j < |t| {
        assert r[j] == t[j];
      } else {
        FirstIndexBelow(p, t[i].word);
      }
    }
  }

  lemma FirstIndexBelow(p: seq<string>, v: string)
    requires v in p
    ensures FirstIndex(p, v) < |p|
  {
  }

  /** Appending `x` keeps the first occurrence of every earlier word, and puts the first
      occurrence of a new word at the end. */
  lemma FirstIndexExtend(p: seq<string>, x: string)
    ensures forall w :: w in p ==> FirstIndex(p + [x], w) == FirstIndex(p, w)
    ensures x !in p ==> FirstIndex(p + [x], x) == |p|
  {
    forall w | w in p
      ensures FirstIndex(p + [x], w) == FirstIndex(p, w)
    {
      var i := FirstIndex(p, w);
      assert (p + [x])[..i] == p[..i];
    }
    if x !in p {
      assert (p + [x])[..|p|] == p;
    }
  }

  /** The largest value of a count table (zero for the empty table). */
  function MaxCount(t: Counts): (m: nat)
    ensures forall i :: 0 <= i < |t| ==> t[i].value <= m
    ensures t != [] ==> exists i :: 0 <= i < |t| && t[i].value == m
    ensures t == [] ==> m == 0
  {
    if t == [] then 0
    else
      var m := MaxCount(t[1..]);
      if t[0].value >= m then t[0].value else m
  }

  /** `a / m` as an exact rational. */
  function Ratio(a: nat, m: nat): (x: real)
    requires m > 0
    ensures 0 < a <= m ==> 0.0 < x <= 1.0
    ensures x == 1.0 <==> a == m
  {
    RatioTimes(a, m);
    a as real / m as real
  }

  lemma RatioTimes(a: nat, m: nat)
    requires m > 0
    ensures (a as real / m as real) * (m as real) == a as real
  {
  }

  /** `x : y` is the ratio `a : b`. */
  predicate Proportional(x: real, y: real, a: nat, b: nat) {
    x * (b as real) == y * (a as real)
  }

  /** Two ratios over one positive denominator are proportional to, and compare as, their
      numerators. */
  lemma RatioPair(x: real, y: real, a: nat, b: nat, m: nat)
    requires m > 0 && x == Ratio(a, m) && y == Ratio(b, m)
    ensures Proportional(x, y, a, b)
    ensures x <= y <==> a <= b
  {
    var mr := m as real;
    RatioTimes(a, m);
    RatioTimes(b, m);
    assert x * (b as real) == x * (y * mr);
    assert y * (a as real) == y * (x * mr);
    assert (y - x) * mr == (b as real) - (a as real);
    ProductSign(y - x, mr);
  }

  lemma ProductSign(d: real, m: real)
    requires m > 0.0
    ensures d >= 0.0 <==> d * m >= 0.0
  {
  }

  /** summarizer.py:35-40: divide every count by the largest; an empty table stays empty.
      Every value lies in (0, 1] and some value is exactly 1. */
  function Normalise(t: Counts): (r: Table)
    requires forall i :: 0 <= i < |t| ==> t[i].value > 0
    ensures Words(r) == Words(t)
    ensures forall i :: 0 <= i < |r| ==> 0.0 < r[i].value <= 1.0
    ensures forall i :: 0 <= i < |r| ==> r[i].value == Ratio(t[i].value, MaxCount(t))
    ensures r != [] ==> exists i :: 0 <= i < |r| && r[i].value == 1.0
  {
    if t == [] then []
    else
      var m := MaxCount(t);
      var r := seq(|t|, i requires 0 <= i < |t| => Entry(t[i].word, Ratio(t[i].value, m)));
      assert Words(r) == Words(t);
      var k :| 0 <= k < |t| && t[k].value == m;
      assert r[k].value == 1.0;
      r
  }

  /** The normalised count table of `ws` under the filter `keep`. */
  function RelativeCounts(ws: seq<string>, keep: string -> bool): (r: Table)
    ensures Distinct(Words(r))
    ensures forall w :: w in Words(r) <==> w in ws && keep(w)
    ensures forall i, j :: 0 <= i < j < |r| ==> FirstIndex(ws, r[i].word) < FirstIndex(ws, r[j].word)
    ensures forall i :: 0 <= i < |r| ==> 0.0 < r[i].value <= 1.0
    ensures r != [] ==> exists i :: 0 <= i < |r| && r[i].value == 1.0
  {
    var t := Tally(ws, keep);
    CountsPositive(ws, keep, t);
    Normalise(t)
  }

  /** summarizer.py:29-40. Over the words of all sentences, the table holds exactly the
      qualifying words, each once, in first-seen order; every value lies in (0, 1], and
      some word gets exactly 1 unless the table is empty. */
  function BuildFrequencyTable(sentences: seq<string>): (r: Table)
    ensures Distinct(Words(r))
    ensures forall w :: w in Words(r) <==> w in AllWords(sentences) && Qualifies(w)
    ensures forall i, j :: 0 <= i < j < |r| ==>
      FirstIndex(AllWords(sentences), r[i].word) < FirstIndex(AllWords(sentences), r[j].word)
    ensures forall i :: 0 <= i < |r| ==> 0.0 < r[i].value <= 1.0
    ensures r != [] ==> exists i :: 0 <= i < |r| && r[i].value == 1.0
  {
    RelativeCounts(AllWords(sentences), Qualifies)
  }

  lemma CountsPositive(ws: seq<string>, keep: string -> bool, t: Counts)
    requires CountsOf(ws, keep, t)
    ensures forall i :: 0 <= i < |t| ==> t[i].value > 0
  {
    forall i | 0 <= i < |t| ensures t[i].value > 0 {
      assert t[i].word in Words(t);
    }
  }

  /** The values of a normalised count table follow the counts: they are proportional to
      them, compare as they do, and a value is exactly 1 when no count is larger. */
  lemma NormalisedFollowsCounts(t: Counts, i: nat, j: nat)
    requires forall k :: 0 <= k < |t| ==> t[k].value > 0
    requires i < |t| && j < |t|
    ensures Proportional(Normalise(t)[i].value, Normalise(t)[j].value, t[i].value, t[j].value)
    ensures Normalise(t)[i].value <= Normalise(t)[j].value <==> t[i].value <= t[j].value
    ensures Normalise(t)[i].value == 1.0 <==> forall k :: 0 <= k < |t| ==> t[k].value <= t[i].value
  {
    var r := Normalise(t);
    var m := MaxCount(t);
    RatioPair(r[i].value, r[j].value, t[i].value, t[j].value, m);
    TopCount(t, i);
  }

  /** A count equals the largest exactly when no count exceeds it. */
  lemma TopCount(t: Counts, i: nat)
    requires i < |t|
    ensures t[i].value == MaxCount(t) <==> forall k :: 0 <= k < |t| ==> t[k].value <= t[i].value
  {
  }

  /** The values of a normalised count table follow the words' occurrence counts: they
      are proportional to them, compare as they do, and a word gets exactly 1 when no
      word occurs more often. */
  lemma RelativeFollowsCounts(ws: seq<string>, keep: string -> bool, i: nat, j: nat)
    requires i < |RelativeCounts(ws, keep)| && j < |RelativeCounts(ws, keep)|
    ensures var r := RelativeCounts(ws, keep);
      && Proportional(r[i].value, r[j].value, Occurrences(ws, r[i].word), Occurrences(ws, r[j].word))
      && (r[i].value <= r[j].value <==> Occurrences(ws, r[i].word) <= Occurrences(ws, r[j].word))
      && (r[i].value == 1.0 <==>
          forall k :: 0 <= k < |r| ==> Occurrences(ws, r[k].word) <= Occurrences(ws, r[i].word))
  {
    var t := Tally(ws, keep);
    CountsPositive(ws, keep, t);
    var r := Normalise(t);
    assert RelativeCounts(ws, keep) == r;
    NormalisedFollowsCounts(t, i, j);
    CountedWords(ws, keep, t, r);
    TopByOccurrences(ws, t, r, i);
  }

  /** The entries of the normalised table carry the counted words, whose counts are their
      occurrences. */
  lemma CountedWords(ws: seq<string>, keep: string -> bool, t: Counts, r: Table)
    requires CountsOf(ws, keep, t) && Words(r) == Words(t)
    ensures |r| == |t|
    ensures forall k :: 0 <= k < |t| ==> r[k].word == t[k].word
    ensures forall k :: 0 <= k < |t| ==> t[k].value == Occurrences(ws, r[k].word)
  {
    assert forall k :: 0 <= k < |t| ==> Words(r)[k] == Words(t)[k];
  }

  lemma TopByOccurrences(ws: seq<string>, t: Counts, r: Table, i: nat)
    requires |r| == |t| && i < |t|
    requires forall k :: 0 <= k < |t| ==> t[k].value == Occurrences(ws, r[k].word)
    ensures (forall k :: 0 <= k < |t| ==> t[k].value <= t[i].value) <==>
      (forall k :: 0 <= k < |r| ==> Occurrences(ws, r[k].word) <= Occurrences(ws, r[i].word))
  {
  }

  /** No stopword ever enters the table, whatever the sentences. */
  lemma StopwordsExcluded(sentences: seq<string>, w: string)
    requires w in Stopwords
    ensures w !in Words(BuildFrequencyTable(sentences))
  {
  }

  /** The values of the frequency table follow the words' occurrence counts in the text. */
  lemma FrequencyFollowsCounts(sentences: seq<string>, i: nat, j: nat)
    requires i < |BuildFrequencyTable(sentences)| && j < |BuildFrequencyTable(sentences)|
    ensures var r := BuildFrequencyTable(sentences);
      var ws := AllWords(sentences);
      && Proportional(r[i].value, r[j].value, Occurrences(ws, r[i].word), Occurrences(ws, r[j].word))
      && (r[i].value <= r[j].value <==> Occurrences(ws, r[i].word) <= Occurrences(ws, r[j].word))
      && (r[i].value == 1.0 <==>
          forall k :: 0 <= k < |r| ==> Occurrences(ws, r[k].word) <= Occurrences(ws, r[i].word))
  {
    RelativeFollowsCounts(AllWords(sentences), Qualifies, i, j);
  }

  /** `freq_table.get(w, 0.0)`: the value of the entry for `w`, or 0 when there is none. */
  function Lookup(t: Table, w: string): (v: real)
    ensures w !in Words(t) ==> v == 0.0
    ensures w in Words(t) ==> exists i :: 0 <= i < |t| && t[i] == Entry(w, v)
    ensures forall i :: 0 <= i < |t| && t[i].word == w && w !in Words(t[..i]) ==> v == t[i].value
  {
    if t == [] then 0.0
    else if t[0].word == w then t[0].value
    else
      assert Words(t[1..]) == Words(t)[1..];
      assert forall i :: 1 <= i < |t| ==> Words(t[..i]) == [t[0].word] + Words(t[1..][..i - 1]);
      var v := Lookup(t[1..], w);
      assert w in Words(t) ==> exists i :: 0 <= i < |t| && t[i] == Entry(w, v) by {
        if w in Words(t) {
          assert w in Words(t[1..]);
          var i :| 0 <= i < |t[1..]| && t[1..][i] == Entry(w, v);
          assert t[i + 1] == Entry(w, v);
        }
      }
      v
  }

  /** In a table without repeated words, looking up the word of an entry gives its value. */
  lemma LookupAt(t: Table, i: nat)
    requires Distinct(Words(t)) && i < |t|
    ensures Lookup(t, t[i].word) == t[i].value
  {
    var ws := Words(t[..i]);
    forall j | 0 <= j < |ws| ensures ws[j] != t[i].word {
      assert ws[j] == Words(t)[j];
    }
  }
}
