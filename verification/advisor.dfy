/** The heuristic advisor (summarizer.py:80-109, `improvement_suggestions`).

    Seven checks run over the raw text: its length, a heading keyword, very long sentences,
    a bullet at the start of a line, distinct jargon spellings and passive-voice phrases.
    Each check that fires contributes one suggestion, in a fixed order, and a single
    closing message appears exactly when none fires. The bullet glyph of the original
    character class is a parameter `glyph`; `-` and `*` are always bullets.
 */
module Advisor {
  import opened Chars
  import opened MaximalRuns
  import opened Tokenizer
  import opened Patterns

  /** The alternatives of the three keyword patterns, in the order they are tried. */
  const HeadingWords: seq<string> := ["introduction", "summary", "conclusion", "references", "abstract"]
  const JargonWords: seq<string> := ["synergy", "leverage", "paradigm", "robust", "granular", "scalable"]
  const BeVerbs: seq<string> := ["was", "were", "is", "are", "be", "been", "being"]

  /** Every alternative of every pattern is a lower-case word. */
  lemma HeadingAlternatives()
    ensures forall a :: 0 <= a < |HeadingWords| ==> LowerWord(HeadingWords[a])
  {
  }

  lemma JargonAlternatives()
    ensures forall a :: 0 <= a < |JargonWords| ==> LowerWord(JargonWords[a])
  {
  }

  /** No verb ends in "ed", so a passive phrase cannot begin at the participle. */
  lemma VerbAlternatives()
    ensures forall a :: 0 <= a < |BeVerbs| ==> LowerWord(BeVerbs[a])
    ensures forall a :: 0 <= a < |BeVerbs| ==> |BeVerbs[a]| < 2 || BeVerbs[a][|BeVerbs[a]| - 2..] != "ed"
  {
  }

  // ---------------------------------------------------------------------------
  // Headings: a heading keyword anywhere as a whole word, in any case
  // ---------------------------------------------------------------------------

  predicate HasHeading(t: string) {
    exists i, a :: 0 <= i < |t| && 0 <= a < |HeadingWords| && WholeWordAt(t, i, HeadingWords[a])
  }

  /** A heading is found exactly when some word of the text (a maximal run of word
      characters) is a heading keyword, ignoring case. */
  lemma HeadingByWords(t: string)
    ensures HasHeading(t) <==> exists w :: w in Runs(t, IsWordChar) && Lower(w) in HeadingWords
  {
    HeadingAlternatives();
    if HasHeading(t) {
      var i, a :| 0 <= i < |t| && 0 <= a < |HeadingWords| && WholeWordAt(t, i, HeadingWords[a]);
      var e := i + |HeadingWords[a]|;
      WholeWordIsRun(t, i, HeadingWords[a]);
      RunIsListed(t, IsWordChar, i, e);
    }
    if exists w :: w in Runs(t, IsWordChar) && Lower(w) in HeadingWords {
      var w :| w in Runs(t, IsWordChar) && Lower(w) in HeadingWords;
      var i, e := ListedIsRun(t, IsWordChar, w);
      var a :| 0 <= a < |HeadingWords| && HeadingWords[a] == Lower(w);
      RunIsWholeWord(t, i, e, HeadingWords[a]);
    }
  }

  // ---------------------------------------------------------------------------
  // Jargon: every whole-word jargon keyword, in any case
  // ---------------------------------------------------------------------------

  /** Length of the jargon match at `i`, or 0. */
  function JargonLength(t: string, i: nat): nat {
    FirstWholeWord(t, i, JargonWords)
  }

  lemma JargonShape(t: string)
    ensures Fits(|t|, (j: nat) => JargonLength(t, j))
    ensures NonOverlapping((j: nat) => JargonLength(t, j))
  {
    JargonAlternatives();
    forall j: nat, k: nat | j < k < j + JargonLength(t, j) ensures JargonLength(t, k) == 0 {
      var a :| 0 <= a < |JargonWords| && |JargonWords[a]| == JargonLength(t, j)
        && WholeWordAt(t, j, JargonWords[a]);
      LiteralLetters(t, j, JargonWords[a]);
      assert IsWordChar(t[k - 1]);
    }
  }

  /** The text the jargon pattern matches at `j`, case kept. */
  function Spelling(t: string, j: nat): (w: string)
    requires j < |t| && JargonLength(t, j) > 0
    ensures |w| == JargonLength(t, j)
  {
    JargonShape(t);
    t[j..j + JargonLength(t, j)]
  }

  /** The spellings matched at the positions `hs`, in order. */
  function SpellingsOf(t: string, hs: seq<nat>): seq<string>
    requires forall a :: 0 <= a < |hs| ==> hs[a] < |t| && JargonLength(t, hs[a]) > 0
  {
    if hs == [] then [] else [Spelling(t, hs[0])] + SpellingsOf(t, hs[1..])
  }

  /** `re.findall` of the jargon pattern from position `i`: the matched spellings, in
      order. */
  function JargonFrom(t: string, i: nat): seq<string>
    requires i <= |t|
  {
    JargonShape(t);
    SpellingsOf(t, FindAll(|t|, (j: nat) => JargonLength(t, j), i))
  }

  /** The words of `ws` that are jargon keywords ignoring case, in order, repeats kept. */
  function KeepJargon(ws: seq<string>): (r: seq<string>)
    ensures forall w :: w in r <==> w in ws && Lower(w) in JargonWords
  {
    if ws == [] then []
    else
      assert forall w :: w in ws <==> w == ws[0] || w in ws[1..];
      var rest := KeepJargon(ws[1..]);
      if Lower(ws[0]) in JargonWords then [ws[0]] + rest else rest
  }

  /** `re.findall` of the jargon pattern over the whole text. The matches are exactly
      the words of the text (maximal runs of word characters) that are jargon keywords
      ignoring case, in reading order, each occurrence once and spelled as in the text. */
  function JargonMatches(t: string): (r: seq<string>)
    ensures r == KeepJargon(Runs(t, IsWordChar))
  {
    JargonScan(t, 0);
    assert t[0..] == t;
    JargonFrom(t, 0)
  }

  /** Position `i` is not strictly inside a word: a scan may resume there. */
  predicate OutsideWord(t: string, i: nat) {
    i == 0 || i >= |t| || !IsWordChar(t[i - 1]) || !IsWordChar(t[i])
  }

  /** From a position outside a word, the jargon scan lists the jargon words of the rest
      of the text. */
  lemma {:induction false} JargonScan(t: string, i: nat)
    requires i <= |t| && OutsideWord(t, i)
    ensures JargonFrom(t, i) == KeepJargon(Runs(t[i..], IsWordChar))
    decreases |t| - i
  {
    if i == |t| {
      assert t[i..] == [];
      JargonFromEnd(t);
    } else if !IsWordChar(t[i]) {
      JargonStartsWord(t, i);
      JargonFromSkip(t, i, i + 1);
      RunsFromSkip(t, IsWordChar, i);
      JargonScan(t, i + 1);
    } else {
      var e := RunEnd(t, i, IsWordChar);
      assert IsRunAt(t, IsWordChar, i, e);
      var w := t[i..e];
      RunsFromRun(t, IsWordChar, i, e);
      KeepCons(w, Runs(t[e..], IsWordChar));
      JargonScan(t, e);
      if Lower(w) in JargonWords {
        JargonAtWord(t, i, e);
        JargonFromMatch(t, i, e);
      } else {
        JargonOffWord(t, i, e);
        JargonFromSkip(t, i, e);
      }
    }
  }

  lemma JargonFromEnd(t: string)
    ensures JargonFrom(t, |t|) == []
  {
    JargonShape(t);
    assert FindAll(|t|, (j: nat) => JargonLength(t, j), |t|) == [];
  }

  /** At a match the scan lists its spelling and resumes after it. */
  lemma JargonFromMatch(t: string, i: nat, e: nat)
    requires i < e <= |t| && JargonLength(t, i) == e - i
    ensures JargonFrom(t, i) == [Spelling(t, i)] + JargonFrom(t, e)
  {
    JargonShape(t);
    var len := (j: nat) => JargonLength(t, j);
    var rest := FindAll(|t|, len, e);
    FindAllAtMatch(|t|, len, i, e);
    assert ([i] + rest)[1..] == rest;
  }

  /** Positions without a match do not change what the scan lists. */
  lemma JargonFromSkip(t: string, i: nat, j: nat)
    requires i <= j <= |t|
    requires forall k :: i <= k < j ==> JargonLength(t, k) == 0
    ensures JargonFrom(t, i) == JargonFrom(t, j)
  {
    JargonShape(t);
    FindAllSkip(|t|, (k: nat) => JargonLength(t, k), i, j);
  }

  lemma KeepCons(w: string, ws: seq<string>)
    ensures KeepJargon([w] + ws) == (if Lower(w) in JargonWords then [w] else []) + KeepJargon(ws)
  {
    assert ([w] + ws)[1..] == ws;
  }

  /** A jargon match starts on a word character. */
  lemma JargonStartsWord(t: string, i: nat)
    requires i < |t| && !IsWordChar(t[i])
    ensures JargonLength(t, i) == 0
  {
    JargonAlternatives();
    if JargonLength(t, i) > 0 {
      var a :| 0 <= a < |JargonWords| && |JargonWords[a]| == JargonLength(t, i)
        && WholeWordAt(t, i, JargonWords[a]);
      LiteralLetters(t, i, JargonWords[a]);
    }
  }

  /** No jargon match starts inside a word that is not a jargon keyword. */
  lemma JargonOffWord(t: string, i: nat, e: nat)
    requires IsRunAt(t, IsWordChar, i, e) && Lower(t[i..e]) !in JargonWords
    ensures forall k :: i <= k < e ==> JargonLength(t, k) == 0
  {
    forall k | i <= k < e ensures JargonLength(t, k) == 0 {
      if k == i {
        JargonOffWordStart(t, i, e);
      } else {
        JargonInsideWord(t, k);
      }
    }
  }

  lemma JargonOffWordStart(t: string, i: nat, e: nat)
    requires IsRunAt(t, IsWordChar, i, e) && Lower(t[i..e]) !in JargonWords
    ensures JargonLength(t, i) == 0
  {
    if JargonLength(t, i) > 0 {
      JargonWordAt(t, i, e);
    }
  }

  /** A jargon match at the start of a word covers the whole word, a keyword ignoring
      case. */
  lemma JargonWordAt(t: string, i: nat, e: nat)
    requires IsRunAt(t, IsWordChar, i, e) && JargonLength(t, i) > 0
    ensures Lower(t[i..e]) in JargonWords
  {
    JargonAlternatives();
    var n := JargonLength(t, i);
    var a :| 0 <= a < |JargonWords| && |JargonWords[a]| == n && WholeWordAt(t, i, JargonWords[a]);
    var w := JargonWords[a];
    WholeWordIsRun(t, i, w);
    RunEndsOnce(t, IsWordChar, i, e, i + |w|);
    assert Lower(t[i..e]) == w;
  }

  /** A jargon match does not start right after a word character. */
  lemma JargonInsideWord(t: string, k: nat)
    requires 0 < k < |t| && IsWordChar(t[k - 1])
    ensures JargonLength(t, k) == 0
  {
  }

  /** `set(jargon)`: the distinct matched spellings. */
  function JargonTerms(t: string): set<string> {
    set w | w in JargonMatches(t)
  }

  /** The distinct jargon spellings are exactly the words of the text (maximal runs of
      word characters) that are jargon keywords ignoring case. */
  lemma JargonByWords(t: string)
    ensures JargonTerms(t) == set w | w in Runs(t, IsWordChar) && Lower(w) in JargonWords
  {
    var ws := Runs(t, IsWordChar);
    assert JargonMatches(t) == KeepJargon(ws);
  }

  /** The spelling matched at `j` is a word of the text and a keyword ignoring case. */
  lemma JargonMatchIsWord(t: string, j: nat)
    requires j < |t| && JargonLength(t, j) > 0
    ensures Spelling(t, j) in Runs(t, IsWordChar)
    ensures Lower(Spelling(t, j)) in JargonWords
  {
    JargonAlternatives();
    var a :| 0 <= a < |JargonWords| && |JargonWords[a]| == JargonLength(t, j)
      && WholeWordAt(t, j, JargonWords[a]);
    var e := j + JargonLength(t, j);
    var w := JargonWords[a];
    SpellingSlice(t, j, e);
    WholeWordIsListed(t, j, w, e);
    assert w in JargonWords;
  }

  lemma SpellingSlice(t: string, j: nat, e: nat)
    requires j < |t| && JargonLength(t, j) > 0 && e == j + JargonLength(t, j)
    ensures Spelling(t, j) == t[j..e]
  {
  }

  /** The jargon pattern matches a whole word that is a keyword ignoring case. */
  lemma JargonAtWord(t: string, i: nat, e: nat)
    requires IsRunAt(t, IsWordChar, i, e) && Lower(t[i..e]) in JargonWords
    ensures JargonLength(t, i) == e - i && Spelling(t, i) == t[i..e]
  {
    JargonAlternatives();
    var a :| 0 <= a < |JargonWords| && JargonWords[a] == Lower(t[i..e]);
    RunIsWholeWord(t, i, e, JargonWords[a]);
    var n := JargonLength(t, i);
    var b :| 0 <= b < |JargonWords| && |JargonWords[b]| == n && WholeWordAt(t, i, JargonWords[b]);
    WholeWordIsRun(t, i, JargonWords[b]);
    RunEndsOnce(t, IsWordChar, i, e, i + n);
  }

  /** Every position where the jargon pattern matches contributes its spelling. */
  lemma JargonHit(t: string, i: nat)
    requires i < |t| && JargonLength(t, i) > 0
    ensures Spelling(t, i) in JargonTerms(t)
  {
    JargonMatchIsWord(t, i);
    JargonByWords(t);
  }

  // ---------------------------------------------------------------------------
  // Passive voice: a form of "to be", whitespace, then a word ending in "ed"
  // ---------------------------------------------------------------------------

  /** Length of the match at `i` of the pattern with the verb `v`, or 0: the verb at a word
      start, a non-empty whitespace run, then a word of at least three word characters
      ending in "ed" in any case. */
  function PassiveWith(t: string, i: nat, v: string): nat {
    if !(LiteralAt(t, i, v) && WordStart(t, i)) then 0
    else
      var b := RunEnd(t, i + |v|, IsSpace);
      var e := RunEnd(t, b, IsWordChar);
      if b > i + |v| && e - b >= 3 && Lower(t[e - 2..e]) == "ed" then e - i else 0
  }

  /** The verb alternatives tried in order. */
  function PassiveFirst(t: string, i: nat, vs: seq<string>): (n: nat)
    ensures n > 0 ==> exists a :: 0 <= a < |vs| && PassiveWith(t, i, vs[a]) == n
    ensures n == 0 ==> forall a :: 0 <= a < |vs| ==> PassiveWith(t, i, vs[a]) == 0
  {
    if vs == [] then 0
    else if PassiveWith(t, i, vs[0]) > 0 then PassiveWith(t, i, vs[0])
    else
      var n := PassiveFirst(t, i, vs[1..]);
      assert n > 0 ==> exists a :: 0 <= a < |vs| && PassiveWith(t, i, vs[a]) == n by {
        if n > 0 {
          var a :| 0 <= a < |vs[1..]| && PassiveWith(t, i, vs[1..][a]) == n;
          assert vs[a + 1] == vs[1..][a];
        }
      }
      n
  }

  function PassiveLength(t: string, i: nat): nat {
    PassiveFirst(t, i, BeVerbs)
  }

  /** The parts of a passive match at `i`: the verb `v`, whitespace up to `b`, and a word
      from `b` to `e` that ends in "ed". */
  lemma PassiveParts(t: string, i: nat, v: string) returns (b: nat, e: nat)
    requires PassiveWith(t, i, v) > 0
    ensures LiteralAt(t, i, v) && WordStart(t, i)
    ensures i + |v| < b && b + 3 <= e <= |t| && PassiveWith(t, i, v) == e - i
    ensures forall x :: i + |v| <= x < b ==> IsSpace(t[x])
    ensures forall x :: b <= x < e ==> IsWordChar(t[x])
    ensures e < |t| ==> !IsWordChar(t[e])
    ensures Lower(t[e - 2..e]) == "ed"
  {
    b := RunEnd(t, i + |v|, IsSpace);
    e := RunEnd(t, b, IsWordChar);
  }

  /** Conversely, a be-verb at a word start, a non-empty whitespace run, and a whole
      word of at least three word characters ending in "ed" make a passive match covering
      all of it. */
  lemma PassiveOfParts(t: string, i: nat, v: string, b: nat, e: nat)
    requires LiteralAt(t, i, v) && WordStart(t, i)
    requires i + |v| < b && b + 3 <= e <= |t|
    requires forall x :: i + |v| <= x < b ==> IsSpace(t[x])
    requires forall x :: b <= x < e ==> IsWordChar(t[x])
    requires e < |t| ==> !IsWordChar(t[e])
    requires Lower(t[e - 2..e]) == "ed"
    ensures PassiveWith(t, i, v) == e - i
  {
    WordCharNotSpace(t[b]);
    RunEndAt(t, i + |v|, IsSpace, b);
    RunEndAt(t, b, IsWordChar, e);
    assert RunEnd(t, RunEnd(t, i + |v|, IsSpace), IsWordChar) == e;
  }

  /** No match starts right after a word character. */
  lemma NoPassiveAfterWord(t: string, k: nat, v: string)
    requires 0 < k <= |t| && IsWordChar(t[k - 1])
    ensures PassiveWith(t, k, v) == 0
  {
  }

  /** No match starts on whitespace. */
  lemma NoPassiveOnSpace(t: string, k: nat, v: string)
    requires LowerWord(v) && k < |t| && IsSpace(t[k])
    ensures PassiveWith(t, k, v) == 0
  {
    if k + |v| <= |t| {
      assert Lower(t[k..k + |v|])[0] == ToLower(t[k]);
    }
  }

  /** No match starts at a word that ends in "ed", since no verb does. */
  lemma NoPassiveOnEdWord(t: string, b: nat, e: nat, v: string)
    requires LowerWord(v) && (|v| < 2 || v[|v| - 2..] != "ed")
    requires b + 3 <= e <= |t| && Lower(t[e - 2..e]) == "ed"
    requires forall x :: b <= x < e ==> IsWordChar(t[x])
    requires e < |t| ==> !IsWordChar(t[e])
    ensures PassiveWith(t, b, v) == 0
  {
    if LiteralAt(t, b, v) {
      LiteralLetters(t, b, v);
      if |v| >= 2 {
        LiteralSuffix(t, b, v, 2);
      }
      var a := b + |v|;
      if a < e {
        assert !IsSpace(t[a]);
      }
    }
  }

  /** No passive match starts inside another. */
  lemma PassiveInside(t: string, i: nat, v: string, k: nat, v': string)
    requires LowerWord(v) && LowerWord(v')
    requires |v'| < 2 || v'[|v'| - 2..] != "ed"
    requires i < k < i + PassiveWith(t, i, v)
    ensures PassiveWith(t, k, v') == 0
  {
    var b, e := PassiveParts(t, i, v);
    LiteralLetters(t, i, v);
    if k < i + |v| || b < k {
      NoPassiveAfterWord(t, k, v');
    } else if k < b {
      NoPassiveOnSpace(t, k, v');
    } else {
      NoPassiveOnEdWord(t, b, e, v');
    }
  }

  /** The last `n` characters of a literal match lower-case to the last `n` of the word. */
  lemma LiteralSuffix(t: string, i: nat, w: string, n: nat)
    requires LiteralAt(t, i, w) && n <= |w|
    ensures Lower(t[i + |w| - n..i + |w|]) == w[|w| - n..]
  {
    var e := i + |w|;
    var u := Lower(t[e - n..e]);
    forall x | 0 <= x < n ensures u[x] == w[|w| - n + x] {
      assert Lower(t[i..e])[|w| - n + x] == ToLower(t[e - n + x]);
    }
  }

  lemma PassiveShape(t: string)
    ensures Fits(|t|, (j: nat) => PassiveLength(t, j))
    ensures NonOverlapping((j: nat) => PassiveLength(t, j))
  {
    VerbAlternatives();
    forall j: nat, k: nat | j < k < j + PassiveLength(t, j) ensures PassiveLength(t, k) == 0 {
      var a :| 0 <= a < |BeVerbs| && PassiveWith(t, j, BeVerbs[a]) == PassiveLength(t, j);
      forall b | 0 <= b < |BeVerbs| ensures PassiveWith(t, k, BeVerbs[b]) == 0 {
        PassiveInside(t, j, BeVerbs[a], k, BeVerbs[b]);
      }
    }
  }

  /** Start positions of the passive-voice matches, left to right. */
  function PassiveHits(t: string): seq<nat> {
    PassiveShape(t);
    FindAll(|t|, (j: nat) => PassiveLength(t, j), 0)
  }

  /** `len(passive_hits)` counts every position where the pattern matches. */
  lemma PassiveCount(t: string)
    ensures |PassiveHits(t)| == CountMatches(|t|, (j: nat) => PassiveLength(t, j), 0)
  {
    PassiveShape(t);
    FindAllCounts(|t|, (j: nat) => PassiveLength(t, j), 0);
  }

  // ---------------------------------------------------------------------------
  // Bullets: a line whose first non-blank character is a bullet followed by whitespace
  // ---------------------------------------------------------------------------

  predicate IsBullet(c: char, glyph: char -> bool) {
    c == '-' || c == '*' || glyph(c)
  }

  /** `^` under `re.MULTILINE`: the start of the text or just after a newline. */
  predicate LineBegins(t: string, p: nat) {
    p == 0 || (p <= |t| && t[p - 1] == '\n')
  }

  /** A bullet at `q` with whitespace right after it. */
  predicate BulletMark(t: string, glyph: char -> bool, q: nat) {
    q + 1 < |t| && IsBullet(t[q], glyph) && IsSpace(t[q + 1])
  }

  /** The pattern matches from `p`, with the bullet at `q`. */
  predicate BulletAt(t: string, glyph: char -> bool, p: nat, q: nat) {
    && LineBegins(t, p) && p <= q
    && BulletMark(t, glyph, q)
    && (forall k :: p <= k < q ==> IsSpace(t[k]))
  }

  predicate HasBullet(t: string, glyph: char -> bool) {
    exists p, q :: 0 <= p <= q < |t| && BulletAt(t, glyph, p, q)
  }

  /** Start of the line that holds position `q`. */
  function LineStart(t: string, q: nat): (p: nat)
    requires q <= |t|
    ensures p <= q && LineBegins(t, p)
    ensures forall k :: p <= k < q ==> t[k] != '\n'
  {
    if q == 0 || t[q - 1] == '\n' then q else LineStart(t, q - 1)
  }

  /** A bullet is found exactly when, on some line, the first character that is not
      whitespace is a bullet followed by whitespace. */
  lemma BulletByLines(t: string, glyph: char -> bool)
    ensures HasBullet(t, glyph) <==>
      exists q :: 0 <= q < |t| && BulletMark(t, glyph, q)
        && forall k :: LineStart(t, q) <= k < q ==> IsSpace(t[k])
  {
    if HasBullet(t, glyph) {
      var p, q :| 0 <= p <= q < |t| && BulletAt(t, glyph, p, q);
      var s := LineStart(t, q);
      assert s >= p;
    }
    if exists q :: 0 <= q < |t| && BulletMark(t, glyph, q)
        && forall k :: LineStart(t, q) <= k < q ==> IsSpace(t[k]) {
      var q :| 0 <= q < |t| && BulletMark(t, glyph, q)
        && forall k :: LineStart(t, q) <= k < q ==> IsSpace(t[k]);
      assert BulletAt(t, glyph, LineStart(t, q), q);
    }
  }

  // ---------------------------------------------------------------------------
  // Long sentences: sentences of more than 35 whitespace-separated words
  // ---------------------------------------------------------------------------

  predicate IsLong(s: string) {
    |Fields(s)| > 35
  }

  /** The positions of the long sentences. */
  function LongPositions(ss: seq<string>): set<nat> {
    set i: nat | i < |ss| && IsLong(ss[i])
  }

  /** The number of sentences with more than 35 words. */
  function CountLong(ss: seq<string>): (n: nat)
    ensures n == |LongPositions(ss)|
    ensures n <= |ss|
    ensures n > 0 <==> exists s :: s in ss && IsLong(s)
  {
    if ss == [] then 0
    else
      var p := ss[..|ss| - 1];
      var x := ss[|ss| - 1];
      assert ss == p + [x];
      assert forall s :: s in ss <==> s == x || s in p;
      LongPositionsSnoc(p, x);
      CountLong(p) + (if IsLong(x) then 1 else 0)
  }

  lemma LongPositionsSnoc(p: seq<string>, x: string)
    ensures LongPositions(p + [x]) == LongPositions(p) + (if IsLong(x) then {|p|} else {})
    ensures |p| !in LongPositions(p)
  {
    var q := p + [x];
    forall i: nat | i < |p| ensures q[i] == p[i] {
    }
  }

  function LongSentences(t: string): nat {
    CountLong(SentenceTokenize(t))
  }

  // ---------------------------------------------------------------------------
  // Assembling the suggestions
  // ---------------------------------------------------------------------------

  datatype Suggestion =
    | TooShort
    | TooLong
    | AddHeadings
    | SplitLongSentences(count: nat)
    | UseBullets
    | ReduceJargon
    | UseActiveVoice
    | LooksGood

  /** The position of each kind of suggestion in the output. */
  function Order(s: Suggestion): nat {
    match s
    case TooShort => 0
    case TooLong => 1
    case AddHeadings => 2
    case SplitLongSentences(_) => 3
    case UseBullets => 4
    case ReduceJargon => 5
    case UseActiveVoice => 6
    case LooksGood => 7
  }

  /** The outcome of every check. */
  datatype Findings = Findings(
    length: nat,
    hasHeading: bool,
    longSentences: nat,
    hasBullet: bool,
    jargonTerms: nat,
    passiveHits: nat)

  /** The check behind suggestion `x` fires on `f`. The closing message has no check of
      its own. */
  predicate Fires(f: Findings, x: Suggestion) {
    match x
    case TooShort => f.length < 500
    case TooLong => f.length > 20000
    case AddHeadings => !f.hasHeading
    case SplitLongSentences(n) => f.longSentences > 0 && n == f.longSentences
    case UseBullets => !f.hasBullet
    case ReduceJargon => f.jargonTerms >= 2
    case UseActiveVoice => f.passiveHits > 5
    case LooksGood => false
  }

  /** Some check fires. */
  predicate NeedsWork(f: Findings) {
    || f.length < 500
    || f.length > 20000
    || !f.hasHeading
    || f.longSentences > 0
    || !f.hasBullet
    || f.jargonTerms >= 2
    || f.passiveHits > 5
  }

  /** Ordered by `Order`, so each kind of suggestion at most once. */
  predicate InOrder(r: seq<Suggestion>) {
    forall a, b :: 0 <= a < b < |r| ==> Order(r[a]) < Order(r[b])
  }

  /** One suggestion per check, in the order the checks run. */
  function Candidates(f: Findings): (r: seq<Suggestion>)
    ensures InOrder(r)
  {
    [TooShort, TooLong, AddHeadings, SplitLongSentences(f.longSentences),
     UseBullets, ReduceJargon, UseActiveVoice]
  }

  /** The candidates whose check fires, order kept. */
  function Filter(f: Findings, cs: seq<Suggestion>): (r: seq<Suggestion>)
    requires InOrder(cs)
    ensures forall x :: x in r <==> x in cs && Fires(f, x)
    ensures InOrder(r)
  {
    if cs == [] then []
    else
      InOrderTail(cs);
      var rest := Filter(f, cs[1..]);
      if Fires(f, cs[0]) then
        InOrderCons(cs[0], rest);
        [cs[0]] + rest
      else rest
  }

  /** The tail of an ordered list is ordered and comes after its head. */
  lemma InOrderTail(cs: seq<Suggestion>)
    requires InOrder(cs) && cs != []
    ensures InOrder(cs[1..])
    ensures forall x :: x in cs <==> x == cs[0] || x in cs[1..]
    ensures forall x :: x in cs[1..] ==> Order(cs[0]) < Order(x)
  {
    assert cs == [cs[0]] + cs[1..];
  }

  /** A suggestion ordered before every member of an ordered list can go in front of it. */
  lemma InOrderCons(c: Suggestion, r: seq<Suggestion>)
    requires InOrder(r) && forall x :: x in r ==> Order(c) < Order(x)
    ensures InOrder([c] + r)
    ensures forall x :: x in [c] + r <==> x == c || x in r
  {
    var s := [c] + r;
    forall a, b | 0 <= a < b < |s| ensures Order(s[a]) < Order(s[b]) {
      assert s[b] == r[b - 1];
      if a > 0 {
        assert s[a] == r[a - 1];
      }
    }
  }

  /** Every suggestion whose check fires is a candidate. */
  lemma FiresCandidate(f: Findings, x: Suggestion)
    ensures Fires(f, x) ==> x in Candidates(f)
  {
  }

  /** The suggestions of the checks that fire, in the order of the checks. */
  function Checks(f: Findings): (r: seq<Suggestion>)
    ensures forall x :: x in r <==> Fires(f, x)
    ensures InOrder(r)
  {
    forall x ensures Fires(f, x) ==> x in Candidates(f) {
      FiresCandidate(f, x);
    }
    Filter(f, Candidates(f))
  }

  /** Two lists in `Order` with the same members are equal, so the contract of `Assemble`
      below determines its result. */
  lemma {:induction false} InOrderUnique(r: seq<Suggestion>, s: seq<Suggestion>)
    requires InOrder(r) && InOrder(s)
    requires forall x :: x in r <==> x in s
    ensures r == s
    decreases |r|
  {
    assert r == [] <==> s == [] by {
      if r != [] {
        assert r[0] in s;
      }
      if s != [] {
        assert s[0] in r;
      }
    }
    if r != [] {
      InOrderHead(r, s);
      forall x ensures x in r[1..] <==> x in s[1..] {
        assert x in r[1..] <==> x in r && x != r[0] by {
          assert r == [r[0]] + r[1..];
        }
        assert x in s[1..] <==> x in s && x != s[0] by {
          assert s == [s[0]] + s[1..];
        }
      }
      InOrderUnique(r[1..], s[1..]);
      assert r == [r[0]] + r[1..];
      assert s == [s[0]] + s[1..];
    }
  }

  lemma InOrderHead(r: seq<Suggestion>, s: seq<Suggestion>)
    requires InOrder(r) && InOrder(s)
    requires forall x :: x in r <==> x in s
    requires r != [] && s != []
    ensures r[0] == s[0]
  {
    assert r[0] in s && s[0] in r;
    var a :| 0 <= a < |s| && s[a] == r[0];
    var b :| 0 <= b < |r| && r[b] == s[0];
    if a > 0 && b > 0 {
      assert false;
    }
  }

  /** Some check fires exactly when some suggestion other than the closing one does. */
  lemma NeedsWorkFires(f: Findings)
    ensures NeedsWork(f) <==> exists x :: Fires(f, x)
  {
    if f.longSentences > 0 {
      assert Fires(f, SplitLongSentences(f.longSentences));
    }
    if NeedsWork(f) {
      if f.length < 500 { assert Fires(f, TooShort); }
      else if f.length > 20000 { assert Fires(f, TooLong); }
      else if !f.hasHeading { assert Fires(f, AddHeadings); }
      else if !f.hasBullet { assert Fires(f, UseBullets); }
      else if f.jargonTerms >= 2 { assert Fires(f, ReduceJargon); }
      else if f.passiveHits > 5 { assert Fires(f, UseActiveVoice); }
    }
  }

  /** summarizer.py:82-109 given the outcome of the checks. The list is never empty;
      every suggestion appears exactly when its check fires, and the closing message
      exactly when no check fires, and then alone; suggestions come in the fixed order
      of the checks, each at most once. */
  function Assemble(f: Findings): (r: seq<Suggestion>)
    ensures r != [] && InOrder(r)
    ensures TooShort in r <==> f.length < 500
    ensures TooLong in r <==> f.length > 20000
    ensures AddHeadings in r <==> !f.hasHeading
    ensures forall n :: SplitLongSentences(n) in r <==> f.longSentences > 0 && n == f.longSentences
    ensures UseBullets in r <==> !f.hasBullet
    ensures ReduceJargon in r <==> f.jargonTerms >= 2
    ensures UseActiveVoice in r <==> f.passiveHits > 5
    ensures LooksGood in r <==> !NeedsWork(f)
    ensures LooksGood in r ==> r == [LooksGood]
  {
    var found := Checks(f);
    NeedsWorkFires(f);
    assert found == [] <==> !NeedsWork(f) by {
      if found != [] {
        assert Fires(f, found[0]);
      }
    }
    var r := if found == [] then [LooksGood] else found;
    forall n ensures SplitLongSentences(n) in r <==> f.longSentences > 0 && n == f.longSentences {
      assert Fires(f, SplitLongSentences(n)) <==> f.longSentences > 0 && n == f.longSentences;
    }
    r
  }

  /** A short document without headings or bullets and with nothing else to report gets
      exactly three suggestions, in this order. */
  lemma ShortBareDocument(f: Findings)
    requires f.length < 500 && !f.hasHeading && !f.hasBullet
    requires f.longSentences == 0 && f.jargonTerms < 2 && f.passiveHits <= 5
    ensures Assemble(f) == [TooShort, AddHeadings, UseBullets]
  {
    var r := Assemble(f);
    var expected := [TooShort, AddHeadings, UseBullets];
    forall x ensures x in r <==> x in expected {
      BareMember(f, x);
    }
    InOrderUnique(r, expected);
  }

  /** A document of reasonable length with a heading, a bullet and nothing else to report
      gets the closing message alone. */
  lemma QuietDocument(f: Findings)
    requires 500 <= f.length <= 20000 && f.hasHeading && f.hasBullet
    requires f.longSentences == 0 && f.jargonTerms < 2 && f.passiveHits <= 5
    ensures Assemble(f) == [LooksGood]
  {
  }

  lemma BareMember(f: Findings, x: Suggestion)
    requires f.length < 500 && !f.hasHeading && !f.hasBullet
    requires f.longSentences == 0 && f.jargonTerms < 2 && f.passiveHits <= 5
    ensures x in Assemble(f) <==> x in [TooShort, AddHeadings, UseBullets]
  {
    if x.SplitLongSentences? {
      assert x == SplitLongSentences(x.count);
    }
  }

  // ---------------------------------------------------------------------------
  // Messages
  // ---------------------------------------------------------------------------

  function Digit(d: nat): (c: char)
    requires d < 10
    ensures IsDigit(c) && c as int - '0' as int == d
  {
    ('0' as int + d) as char
  }

  /** `str(n)`: the decimal digits of `n`. */
  function NatToString(n: nat): (r: string)
    ensures r != [] && All(r, IsDigit)
    ensures r[0] == '0' ==> n == 0
  {
    if n < 10 then [Digit(n)] else NatToString(n / 10) + [Digit(n % 10)]
  }

  /** The value of a string of decimal digits, read left to right. */
  function ParseDecimal(s: string): nat
    requires All(s, IsDigit)
  {
    if s == [] then 0
    else ParseDecimal(s[..|s| - 1]) * 10 + (s[|s| - 1] as int - '0' as int)
  }

  /** Reading back the decimal digits of `n` gives `n`. */
  lemma {:induction false} DecimalRoundTrip(n: nat)
    ensures ParseDecimal(NatToString(n)) == n
  {
    if n >= 10 {
      DecimalRoundTrip(n / 10);
      var s := NatToString(n);
      assert s[..|s| - 1] == NatToString(n / 10);
    }
  }

  /** The text of each suggestion, as summarizer.py:85-108 spells it. */
  function Message(s: Suggestion): string {
    match s
    case TooShort => ShortText
    case TooLong => LongText
    case AddHeadings => HeadingsText
    case SplitLongSentences(n) => "Contains " + NatToString(n) + SentencesTail
    case UseBullets => BulletsText
    case ReduceJargon => JargonText
    case UseActiveVoice => PassiveText
    case LooksGood => GoodText
  }

  const ShortText := "Document is quite short; add more context or supporting details."
  const LongText := "Document is very long; consider adding headings and an executive summary."
  const HeadingsText :=
    "Add clear section headings (e.g., Introduction, Method, Conclusion) to improve structure."
  const SentencesTail := " very long sentence(s); break them up for readability."
  const BulletsText := "Where appropriate, use bullet points to highlight key lists."
  const JargonText := "Reduce corporate jargon to make writing clearer."
  const PassiveText := "Heavy passive voice detected; convert some sentences to active voice."
  const GoodText := "Looks good! Consider adding visuals or examples to enhance engagement."

  /** Different suggestions read differently, so the messages identify the suggestions. */
  lemma MessageInjective(x: Suggestion, y: Suggestion)
    requires Message(x) == Message(y)
    ensures x == y
  {
    if x.SplitLongSentences? && y.SplitLongSentences? {
      var dx, dy := NatToString(x.count), NatToString(y.count);
      var tail := SentencesTail;
      assert Message(x) == "Contains " + dx + tail;
      assert |dx| == |dy|;
      assert dx == Message(x)[9..9 + |dx|];
      assert dy == Message(y)[9..9 + |dy|];
      DecimalRoundTrip(x.count);
      DecimalRoundTrip(y.count);
    } else if x.SplitLongSentences? || y.SplitLongSentences? {
      if x.SplitLongSentences? {
        SplitMessageEnding(x.count);
        FixedMessageEnding(y);
      } else {
        FixedMessageEnding(x);
        SplitMessageEnding(y.count);
      }
    }
  }

  /** The long-sentence message ends in "ty.". */
  lemma SplitMessageEnding(n: nat)
    ensures var m := Message(SplitLongSentences(n)); |m| >= 3 && m[|m| - 3] == 't' && m[|m| - 2] == 'y'
  {
    var m := Message(SplitLongSentences(n));
    var tail := SentencesTail;
    assert m == "Contains " + NatToString(n) + tail;
    assert m[|m| - 3] == tail[|tail| - 3] && m[|m| - 2] == tail[|tail| - 2];
  }

  /** No other message ends in "ty.". */
  lemma FixedMessageEnding(x: Suggestion)
    requires !x.SplitLongSentences?
    ensures var m := Message(x); |m| >= 3 && (m[|m| - 3] != 't' || m[|m| - 2] != 'y')
  {
    match x
    case TooShort => assert |ShortText| >= 3 && ShortText[|ShortText| - 2] == 's';
    case TooLong => assert |LongText| >= 3 && LongText[|LongText| - 3] == 'r';
    case AddHeadings => assert |HeadingsText| >= 3 && HeadingsText[|HeadingsText| - 2] == 'e';
    case UseBullets => assert |BulletsText| >= 3 && BulletsText[|BulletsText| - 2] == 's';
    case ReduceJargon => assert |JargonText| >= 3 && JargonText[|JargonText| - 2] == 'r';
    case UseActiveVoice => assert |PassiveText| >= 3 && PassiveText[|PassiveText| - 2] == 'e';
    case LooksGood => assert |GoodText| >= 3 && GoodText[|GoodText| - 2] == 't';
  }

  /** The text of each suggestion, in order. */
  function Messages(s: seq<Suggestion>): (r: seq<string>)
    ensures |r| == |s| && forall a :: 0 <= a < |s| ==> r[a] == Message(s[a])
  {
    seq(|s|, a requires 0 <= a < |s| => Message(s[a]))
  }

  /** A message is present exactly when its suggestion is. */
  lemma MessagePresent(s: seq<Suggestion>, x: Suggestion)
    ensures Message(x) in Messages(s) <==> x in s
  {
    var r := Messages(s);
    if Message(x) in r {
      var a :| 0 <= a < |r| && r[a] == Message(x);
      MessageInjective(x, s[a]);
    }
    if x in s {
      var a :| 0 <= a < |s| && s[a] == x;
      assert r[a] == Message(x);
    }
  }

  // ---------------------------------------------------------------------------
  // The advisor
  // ---------------------------------------------------------------------------

  /** The outcome of every check on `t`. */
  function Analyse(t: string, glyph: char -> bool): Findings {
    Findings(
      |t|,
      HasHeading(t),
      LongSentences(t),
      HasBullet(t, glyph),
      |JargonTerms(t)|,
      |PassiveHits(t)|)
  }

  /** summarizer.py:80-109 as suggestions: each appears exactly when its check on the text
      fires, and the closing one exactly when none does. */
  function Advise(t: string, glyph: char -> bool): (r: seq<Suggestion>)
    ensures r != []
    ensures TooShort in r <==> |t| < 500
    ensures TooLong in r <==> |t| > 20000
    ensures AddHeadings in r <==> !HasHeading(t)
    ensures forall n :: SplitLongSentences(n) in r <==> LongSentences(t) > 0 && n == LongSentences(t)
    ensures UseBullets in r <==> !HasBullet(t, glyph)
    ensures ReduceJargon in r <==> |JargonTerms(t)| >= 2
    ensures UseActiveVoice in r <==> |PassiveHits(t)| > 5
    ensures LooksGood in r <==> r == [LooksGood]
    ensures InOrder(r)
    ensures !(TooShort in r && TooLong in r)
  {
    Assemble(Analyse(t, glyph))
  }

  /** Jargon is counted by spelling: two matches spelled differently, even if they agree
      ignoring case ("Leverage" and "leverage"), are enough for the jargon suggestion. */
  lemma JargonBySpelling(t: string, glyph: char -> bool, i: nat, j: nat)
    requires i < |t| && j < |t| && JargonLength(t, i) > 0 && JargonLength(t, j) > 0
    requires Spelling(t, i) != Spelling(t, j)
    ensures ReduceJargon in Advise(t, glyph)
  {
    TwoSpellings(t, i, j);
    AdviseJargon(t, glyph);
  }

  lemma TwoSpellings(t: string, i: nat, j: nat)
    requires i < |t| && j < |t| && JargonLength(t, i) > 0 && JargonLength(t, j) > 0
    requires Spelling(t, i) != Spelling(t, j)
    ensures |JargonTerms(t)| >= 2
  {
    JargonHit(t, i);
    JargonHit(t, j);
    TwoMembers(JargonTerms(t), Spelling(t, i), Spelling(t, j));
  }

  lemma AdviseJargon(t: string, glyph: char -> bool)
    requires |JargonTerms(t)| >= 2
    ensures ReduceJargon in Advise(t, glyph)
  {
  }

  lemma TwoMembers<T>(s: set<T>, u: T, w: T)
    requires u in s && w in s && u != w
    ensures |s| >= 2
  {
    var rest := s - {u};
    assert s == rest + {u};
    assert w in rest;
  }

  /** summarizer.py:80-109: the suggestion texts. There is one message per suggestion of
      `Advise`, and a message is present exactly when its suggestion is, so every
      statement of the contract of `Advise` carries over to the texts; in particular the
      closing message appears only on its own. */
  function ImprovementSuggestions(t: string, glyph: char -> bool): (r: seq<string>)
    ensures r != [] && |r| == |Advise(t, glyph)|
    ensures forall a :: 0 <= a < |r| ==> r[a] == Message(Advise(t, glyph)[a])
    ensures forall x :: Message(x) in r <==> x in Advise(t, glyph)
    ensures Message(LooksGood) in r <==> r == [Message(LooksGood)]
  {
    var s := Advise(t, glyph);
    forall x ensures Message(x) in Messages(s) <==> x in s {
      MessagePresent(s, x);
    }
    ClosingMessageAlone(s);
    Messages(s)
  }

  /** When the closing suggestion can only appear alone, so can its message. */
  lemma ClosingMessageAlone(s: seq<Suggestion>)
    requires LooksGood in s <==> s == [LooksGood]
    ensures Message(LooksGood) in Messages(s) <==> Messages(s) == [Message(LooksGood)]
  {
    MessagePresent(s, LooksGood);
    if s == [LooksGood] {
      assert Messages(s)[0] == Message(LooksGood);
    }
  }
}
