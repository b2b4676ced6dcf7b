/** The regular-expression pieces of the heuristic advisor (summarizer.py:80-109).

    `\b`, `\w` and `re.IGNORECASE` are read in ASCII: a word character is `[A-Za-z0-9_]`
    and case is ignored by lower-casing `A-Z`. A pattern that matches at a position is
    described by the length of its match there, 0 meaning no match, and `re.findall`
    becomes a left-to-right scan that resumes after each match.
 */
module Patterns {
  import opened Chars
  import opened MaximalRuns
  import opened Ranking

  /** End of the run of `p`-characters that starts at `i`. */
  function RunEnd(t: string, i: nat, p: char -> bool): (j: nat)
    requires i <= |t|
    ensures i <= j <= |t|
    ensures forall k :: i <= k < j ==> p(t[k])
    ensures j < |t| ==> !p(t[j])
  {
    var n := PrefixLength(t[i..], p);
    assert forall k :: i <= k < i + n ==> t[k] == t[i..][k - i];
    i + n
  }

  /** A stretch of `p`-characters that stops at a non-`p` character or the end is where
      `RunEnd` stops. */
  lemma RunEndAt(t: string, i: nat, p: char -> bool, j: nat)
    requires i <= j <= |t|
    requires forall k :: i <= k < j ==> p(t[k])
    requires j < |t| ==> !p(t[j])
    ensures RunEnd(t, i, p) == j
  {
  }

  /** `\b` just before position `i`, where `t[i]` is a word character. */
  predicate WordStart(t: string, i: nat) {
    i == 0 || (i <= |t| && !IsWordChar(t[i - 1]))
  }

  /** `\b` at position `e`, where `t[e - 1]` is a word character. */
  predicate WordEnd(t: string, e: nat) {
    e >= |t| || !IsWordChar(t[e])
  }

  /** The lower-case word `w` occurs at `i`, ignoring ASCII case. */
  predicate LiteralAt(t: string, i: nat, w: string) {
    i + |w| <= |t| && Lower(t[i..i + |w|]) == w
  }

  /** `\b(w)\b` matches at `i`. */
  predicate WholeWordAt(t: string, i: nat, w: string) {
    LiteralAt(t, i, w) && WordStart(t, i) && WordEnd(t, i + |w|)
  }

  /** A non-empty word of lower-case ASCII letters, as every alternative of the advisor's
      patterns is. */
  predicate LowerWord(w: string) {
    w != [] && All(w, IsLower)
  }

  /** Only a letter lower-cases to a letter. */
  lemma LetterOfLower(c: char)
    requires IsLower(ToLower(c))
    ensures IsUpper(c) || IsLower(c)
  {
  }

  /** The characters a lower-case word matches are letters: word characters, not
      whitespace. */
  lemma LiteralLetters(t: string, i: nat, w: string)
    requires LiteralAt(t, i, w) && LowerWord(w)
    ensures forall k :: i <= k < i + |w| ==> IsWordChar(t[k]) && !IsSpace(t[k])
  {
    forall k | i <= k < i + |w| ensures IsWordChar(t[k]) && !IsSpace(t[k]) {
      assert Lower(t[i..i + |w|])[k - i] == ToLower(t[k]);
      LetterOfLower(t[k]);
    }
  }

  /** A whole-word match of a lower-case word is a maximal run of word characters. */
  lemma WholeWordIsRun(t: string, i: nat, w: string)
    requires WholeWordAt(t, i, w) && LowerWord(w)
    ensures IsRunAt(t, IsWordChar, i, i + |w|)
  {
    LiteralLetters(t, i, w);
  }

  /** A whole-word match of a lower-case word is one of the words of the text. */
  lemma WholeWordIsListed(t: string, i: nat, w: string, e: nat)
    requires WholeWordAt(t, i, w) && LowerWord(w) && e == i + |w|
    ensures t[i..e] in Runs(t, IsWordChar) && Lower(t[i..e]) == w
  {
    WholeWordIsRun(t, i, w);
    RunIsListed(t, IsWordChar, i, i + |w|);
  }

  /** A maximal run of word characters that lower-cases to `w` is a whole-word match. */
  lemma RunIsWholeWord(t: string, i: nat, e: nat, w: string)
    requires IsRunAt(t, IsWordChar, i, e) && Lower(t[i..e]) == w
    ensures WholeWordAt(t, i, w) && e == i + |w|
  {
  }

  /** Two maximal runs that start together end together. */
  lemma RunEndsOnce(t: string, p: char -> bool, i: nat, e1: nat, e2: nat)
    requires IsRunAt(t, p, i, e1) && IsRunAt(t, p, i, e2)
    ensures e1 == e2
  {
  }

  /** The length of the first word of `ws` that matches whole at `i` (the alternation
      `\b(w1|w2|...)\b`, tried in order), or 0 when none does. */
  function FirstWholeWord(t: string, i: nat, ws: seq<string>): (n: nat)
    ensures n > 0 ==> exists a :: 0 <= a < |ws| && |ws[a]| == n && WholeWordAt(t, i, ws[a])
    ensures n == 0 ==> forall a :: 0 <= a < |ws| && ws[a] != [] ==> !WholeWordAt(t, i, ws[a])
  {
    if ws == [] then 0
    else if ws[0] != [] && WholeWordAt(t, i, ws[0]) then |ws[0]|
    else
      var n := FirstWholeWord(t, i, ws[1..]);
      assert n > 0 ==> exists a :: 0 <= a < |ws| && |ws[a]| == n && WholeWordAt(t, i, ws[a]) by {
        if n > 0 {
          var a :| 0 <= a < |ws[1..]| && |ws[1..][a]| == n && WholeWordAt(t, i, ws[1..][a]);
          assert ws[a + 1] == ws[1..][a];
        }
      }
      n
  }

  // ---------------------------------------------------------------------------
  // re.findall
  // ---------------------------------------------------------------------------

  /** Every match of `len` over a text of length `n` ends inside the text. */
  ghost predicate Fits(n: nat, len: nat -> nat) {
    forall j: nat :: j < n ==> j + len(j) <= n
  }

  /** No match starts strictly inside another. */
  ghost predicate NonOverlapping(len: nat -> nat) {
    forall j: nat, k: nat :: j < k < j + len(j) ==> len(k) == 0
  }

  /** `re.findall` from position `i`: the start of every match, scanning left to right and
      resuming after each match. */
  function FindAll(n: nat, len: nat -> nat, i: nat): (r: seq<nat>)
    requires i <= n && Fits(n, len)
    ensures Increasing(r)
    ensures forall a :: 0 <= a < |r| ==> i <= r[a] < n && len(r[a]) > 0
    decreases n - i
  {
    if i == n then []
    else if len(i) > 0 then [i] + FindAll(n, len, i + len(i))
    else FindAll(n, len, i + 1)
  }

  /** The scan from `i` lists every match at or after `i`. */
  ghost predicate Complete(n: nat, len: nat -> nat, i: nat)
    requires i <= n && Fits(n, len)
  {
    forall j: nat :: i <= j < n && len(j) > 0 ==> j in FindAll(n, len, i)
  }

  /** Because no match starts inside another, the scan finds every match. */
  lemma {:induction false} FindAllComplete(n: nat, len: nat -> nat, i: nat)
    requires i <= n && Fits(n, len) && NonOverlapping(len)
    ensures Complete(n, len, i)
    decreases n - i
  {
    if i < n {
      if len(i) > 0 {
        var m := i + len(i);
        FindAllComplete(n, len, m);
        CompleteAfterMatch(n, len, i, m);
      } else {
        FindAllComplete(n, len, i + 1);
        CompleteAfterSkip(n, len, i);
      }
    }
  }

  /** At a match the scan lists it and resumes at its end. */
  lemma FindAllAtMatch(n: nat, len: nat -> nat, i: nat, e: nat)
    requires i < n && Fits(n, len) && len(i) > 0 && e == i + len(i)
    ensures FindAll(n, len, i) == [i] + FindAll(n, len, e)
  {
  }

  /** Positions without a match do not change what the scan lists. */
  lemma {:induction false} FindAllSkip(n: nat, len: nat -> nat, i: nat, j: nat)
    requires i <= j <= n && Fits(n, len)
    requires forall k: nat :: i <= k < j ==> len(k) == 0
    ensures FindAll(n, len, i) == FindAll(n, len, j)
    decreases j - i
  {
    if i < j {
      FindAllSkip(n, len, i + 1, j);
    }
  }

  lemma CompleteAfterMatch(n: nat, len: nat -> nat, i: nat, m: nat)
    requires i < n && Fits(n, len) && NonOverlapping(len) && m == i + len(i) > i
    requires Complete(n, len, m)
    ensures Complete(n, len, i)
  {
    var r := FindAll(n, len, i);
    assert r == [i] + FindAll(n, len, m);
    forall j: nat | i <= j < n && len(j) > 0 ensures j in r {
      if j != i {
        assert j >= m;
        assert j in FindAll(n, len, m);
      }
    }
  }

  lemma CompleteAfterSkip(n: nat, len: nat -> nat, i: nat)
    requires i < n && Fits(n, len) && len(i) == 0
    requires Complete(n, len, i + 1)
    ensures Complete(n, len, i)
  {
    assert FindAll(n, len, i) == FindAll(n, len, i + 1);
  }

  /** The number of positions from `i` on where the pattern matches, counted one position
      at a time. */
  function CountMatches(n: nat, len: nat -> nat, i: nat): nat
    requires i <= n
    decreases n - i
  {
    if i == n then 0
    else (if len(i) > 0 then 1 else 0) + CountMatches(n, len, i + 1)
  }

  /** The scan returns one entry per matching position. */
  lemma {:induction false} FindAllCounts(n: nat, len: nat -> nat, i: nat)
    requires i <= n && Fits(n, len) && NonOverlapping(len)
    ensures |FindAll(n, len, i)| == CountMatches(n, len, i)
    decreases n - i
  {
    if i < n {
      var m := i + len(i);
      if m > i {
        FindAllCounts(n, len, m);
        NoMatchesInside(n, len, i + 1, m);
        CountAfterMatch(n, len, i, m);
      } else {
        FindAllCounts(n, len, i + 1);
      }
    }
  }

  /** At a match the scan lists it and jumps to the end of the match. */
  lemma CountAfterMatch(n: nat, len: nat -> nat, i: nat, m: nat)
    requires i < n && Fits(n, len) && m == i + len(i) > i
    requires |FindAll(n, len, m)| == CountMatches(n, len, i + 1)
    ensures |FindAll(n, len, i)| == CountMatches(n, len, i)
  {
    assert FindAll(n, len, i) == [i] + FindAll(n, len, m);
  }

  /** Positions without a match do not add to the count. */
  lemma {:induction false} NoMatchesInside(n: nat, len: nat -> nat, i: nat, j: nat)
    requires i <= j <= n
    requires forall k: nat :: i <= k < j ==> len(k) == 0
    ensures CountMatches(n, len, i) == CountMatches(n, len, j)
    decreases j - i
  {
    if i < j {
      NoMatchesInside(n, len, i + 1, j);
    }
  }
}
