/** Sentence and word tokenisation (summarizer.py, `sentence_tokenize` and `word_tokenize`).

    Text is first normalised: every whitespace run becomes one space and the result is
    stripped. Sentences are then cut at a whitespace run that follows `.`, `!` or `?` and
    precedes an upper-case letter or a digit. A newline-based fallback exists but can
    never fire, because normalisation has already removed every newline.
 */
module Tokenizer {
  import opened Chars
  import opened MaximalRuns

  // ---------------------------------------------------------------------------
  // Whitespace handling: re.sub(r'\s+', ' ', text) and str.strip()
  // ---------------------------------------------------------------------------

  /** `str.lstrip()`: drop the leading whitespace. */
  function SkipSpaces(s: string): (r: string)
    ensures |r| <= |s| && r == s[|s| - |r|..]
    ensures r == [] || !IsSpace(r[0])
    ensures forall k :: 0 <= k < |s| - |r| ==> IsSpace(s[k])
  {
    if s != [] && IsSpace(s[0]) then SkipSpaces(s[1..]) else s
  }

  /** `str.rstrip()`: drop the trailing whitespace. */
  function StripEnd(s: string): (r: string)
    ensures |r| <= |s| && r == s[..|r|]
    ensures r == [] || !IsSpace(r[|r| - 1])
    ensures forall k :: |r| <= k < |s| ==> IsSpace(s[k])
  {
    if s != [] && IsSpace(s[|s| - 1]) then StripEnd(s[..|s| - 1]) else s
  }

  /** `str.strip()`: what is left neither starts nor ends with whitespace. */
  function Strip(s: string): (r: string)
    ensures r == [] || (!IsSpace(r[0]) && !IsSpace(r[|r| - 1]))
  {
    var a := SkipSpaces(s);
    var r := StripEnd(a);
    assert r != [] ==> r[0] == a[0];
    r
  }

  /** Every whitespace character is a plain space and is followed by a non-space. */
  predicate NoRuns(s: string) {
    forall k :: 0 <= k < |s| && IsSpace(s[k]) ==>
      s[k] == ' ' && (k + 1 < |s| ==> !IsSpace(s[k + 1]))
  }

  /** The shape of normalised text: no whitespace runs, nothing to strip at either end. */
  predicate Normal(s: string) {
    NoRuns(s) && (s != [] ==> !IsSpace(s[0]) && !IsSpace(s[|s| - 1]))
  }

  /** `re.sub(r'\s+', ' ', s)`: each maximal whitespace run becomes one space. */
  function Collapse(s: string): (r: string)
    ensures NoRuns(r)
    ensures r == [] <==> s == []
    ensures s != [] ==> (IsSpace(r[0]) <==> IsSpace(s[0]))
    decreases |s|
  {
    if s == [] then []
    else if IsSpace(s[0]) then " " + Collapse(SkipSpaces(s[1..]))
    else [s[0]] + Collapse(s[1..])
  }

  /** `' '.join(ws)`. */
  function JoinSpace(ws: seq<string>): string {
    if ws == [] then []
    else if |ws| == 1 then ws[0]
    else ws[0] + " " + JoinSpace(ws[1..])
  }

  /** The normalisation of summarizer.py:18, `re.sub(r'\s+', ' ', text).strip()`. It agrees
      with the independent definition `' '.join(text.split())`, so it keeps every
      non-whitespace word of the text, in order, and is empty exactly for blank text. */
  function Normalize(text: string): (r: string)
    ensures Normal(r)
    ensures r == JoinSpace(Fields(text))
    ensures r == [] <==> AllSpace(text)
  {
    var c := Collapse(text);
    StripNormal(c);
    CollapseKeepsFields(text);
    StripKeepsFields(c);
    NormalIsJoinOfFields(Strip(c));
    FieldsEmpty(text);
    Strip(c)
  }

  lemma NoRunsSlice(s: string, i: nat, j: nat)
    requires NoRuns(s) && i <= j <= |s|
    ensures NoRuns(s[i..j])
  {
    var t := s[i..j];
    forall k | 0 <= k < |t| && IsSpace(t[k])
      ensures t[k] == ' ' && (k + 1 < |t| ==> !IsSpace(t[k + 1]))
    {
      assert t[k] == s[i + k];
    }
  }

  /** Stripping a run-free string leaves normalised text. */
  lemma StripNormal(s: string)
    requires NoRuns(s)
    ensures Normal(Strip(s))
  {
    var a := SkipSpaces(s);
    NoRunsSlice(s, |s| - |a|, |s|);
    var b := StripEnd(a);
    NoRunsSlice(a, 0, |b|);
    if b != [] {
      assert b[0] == a[0];
    }
  }

  /** Stripping does not change the words of a string. */
  lemma StripKeepsFields(s: string)
    ensures Fields(Strip(s)) == Fields(s)
  {
    var a := SkipSpaces(s);
    RunsDropFront(s, |s| - |a|, NotSpace);
    RunsDropBack(a, |StripEnd(a)|, NotSpace);
  }

  /** Collapsing whitespace runs does not change the words of a string. */
  lemma {:induction false} CollapseKeepsFields(s: string)
    ensures Fields(Collapse(s)) == Fields(s)
    decreases |s|
  {
    if s == [] {
    } else if IsSpace(s[0]) {
      var t := SkipSpaces(s[1..]);
      var c := Collapse(t);
      assert Collapse(s) == " " + c;
      assert (" " + c)[1..] == c;
      CollapseKeepsFields(t);
      RunsDropFront(s[1..], |s[1..]| - |t|, NotSpace);
    } else {
      var c := Collapse(s[1..]);
      assert Collapse(s) == [s[0]] + c;
      assert s == [s[0]] + s[1..];
      CollapseKeepsFields(s[1..]);
      RunsCons(s[0], c, NotSpace);
      RunsCons(s[0], s[1..], NotSpace);
    }
  }

  /** A string has no words exactly when it is blank. */
  lemma {:induction false} FieldsEmpty(s: string)
    ensures Fields(s) == [] <==> AllSpace(s)
    decreases |s|
  {
    if s != [] {
      FieldsEmpty(s[1..]);
      if !IsSpace(s[0]) {
        assert Fields(s) != [];
      } else {
        assert AllSpace(s) <==> AllSpace(s[1..]);
      }
    }
  }

  /** Normalised text is its own words joined by single spaces. */
  lemma {:induction false} NormalIsJoinOfFields(r: string)
    requires Normal(r)
    ensures r == JoinSpace(Fields(r))
    decreases |r|
  {
    if r != [] {
      var n := PrefixLength(r, NotSpace);
      if n == |r| {
        assert All(r, NotSpace);
        RunsOfRun(r, NotSpace);
        assert JoinSpace([r]) == r;
      } else {
        var rest := r[n + 1..];
        FirstFieldThenRest(r, n);
        NormalAfterSpace(r, n);
        NormalIsJoinOfFields(rest);
        JoinSpaceCons(r[..n], Fields(rest));
        assert r == r[..n] + " " + rest;
      }
    }
  }

  /** In normalised text the first word ends at a single space, after which the rest is
      again normalised, non-empty text. */
  lemma FirstFieldThenRest(r: string, n: nat)
    requires Normal(r) && r != [] && n == PrefixLength(r, NotSpace) && n < |r|
    ensures 0 < n && n + 1 < |r| && r[n] == ' '
    ensures Fields(r) == [r[..n]] + Fields(r[n + 1..])
    ensures Fields(r[n + 1..]) != []
  {
    assert NotSpace(r[0]);
    assert 0 < n;
    assert IsSpace(r[n]);
    assert r[n] == ' ' && n + 1 < |r|;
    assert Fields(r) == [r[..n]] + Runs(r[n..], NotSpace);
    assert !NotSpace(r[n..][0]);
    assert r[n..][1..] == r[n + 1..];
    assert Runs(r[n..], NotSpace) == Runs(r[n + 1..], NotSpace);
    assert NotSpace(r[n + 1..][0]);
  }

  /** What follows a space of normalised text is normalised text. */
  lemma NormalAfterSpace(r: string, n: nat)
    requires Normal(r) && n + 1 < |r| && IsSpace(r[n])
    ensures Normal(r[n + 1..])
  {
    NoRunsSlice(r, n + 1, |r|);
    assert r[n + 1..][0] == r[n + 1];
    assert r[n + 1..][|r| - n - 2] == r[|r| - 1];
  }

  lemma JoinSpaceCons(w: string, ws: seq<string>)
    requires ws != []
    ensures JoinSpace([w] + ws) == w + " " + JoinSpace(ws)
  {
    assert ([w] + ws)[1..] == ws;
  }

  // ---------------------------------------------------------------------------
  // Sentences: re.split(r'(?<=[.!?])\s+(?=[A-Z0-9])', text)
  // ---------------------------------------------------------------------------

  /** End of the whitespace run that starts at `i`. */
  function SpaceRunEnd(t: string, i: nat): (j: nat)
    requires i <= |t|
    ensures i <= j <= |t|
  {
    i + PrefixLength(t[i..], IsSpace)
  }

  /** The splitting pattern matches at `i`: a terminal mark just before, a whitespace run
      from `i`, and an upper-case letter or digit right after that run. */
  predicate BoundaryAt(t: string, i: nat) {
    && 0 < i < |t|
    && IsTerminal(t[i - 1])
    && IsSpace(t[i])
    && SpaceRunEnd(t, i) < |t|
    && IsUpperOrDigit(t[SpaceRunEnd(t, i)])
  }

  /** `re.split` of the sentence pattern, scanning `t` from position `i`; the matched
      whitespace run is dropped and scanning resumes after it. */
  function SplitFrom(t: string, i: nat): (r: seq<string>)
    requires i <= |t|
    ensures r != []
    decreases |t|, |t| - i
  {
    if i == |t| then [t]
    else if BoundaryAt(t, i) then
      [t[..i]] + SplitFrom(t[SpaceRunEnd(t, i)..], 0)
    else SplitFrom(t, i + 1)
  }

  /** Consecutive sentences meet at a boundary: the earlier one ends with a terminal mark,
      the later one starts with an upper-case letter or a digit. */
  predicate Chained(r: seq<string>) {
    forall a :: 0 <= a < |r| - 1 ==> Meets(r[a], r[a + 1])
  }

  predicate Meets(x: string, y: string) {
    x != [] && y != [] && IsTerminal(x[|x| - 1]) && IsUpperOrDigit(y[0])
  }

  /** No sentence contains a place where the splitting pattern matches. */
  predicate Unsplittable(r: seq<string>) {
    forall s, k :: s in r && 0 <= k < |s| ==> !BoundaryAt(s, k)
  }

  lemma NormalRunEnd(t: string, i: nat)
    requires Normal(t) && 0 < i < |t| && IsSpace(t[i])
    ensures t[i] == ' ' && i + 1 < |t| && !IsSpace(t[i + 1])
    ensures SpaceRunEnd(t, i) == i + 1
  {
    assert t[i..][0] == t[i];
  }

  /** A boundary of a prefix of normalised text is a boundary of the text itself. */
  lemma BoundaryOfPrefix(t: string, i: nat, k: nat)
    requires Normal(t) && i <= |t| && BoundaryAt(t[..i], k)
    ensures BoundaryAt(t, k)
  {
    NoRunsSlice(t, 0, i);
    var p := t[..i];
    assert p[k] == t[k];
    NormalRunEnd(t, k);
    assert p[k..][0] == ' ';
    assert SpaceRunEnd(p, k) == k + 1;
  }

  /** On normalised text the sentence split cuts at single spaces: the sentences are
      non-empty normalised text, joined with single spaces they give the text back, they
      meet at boundaries and none of them contains a boundary. */
  lemma {:induction false} SplitNormal(t: string, i: nat)
    requires Normal(t) && t != [] && i <= |t|
    requires forall k :: 0 <= k < i ==> !BoundaryAt(t, k)
    ensures JoinSpace(SplitFrom(t, i)) == t
    ensures forall s :: s in SplitFrom(t, i) ==> s != [] && Normal(s)
    ensures SplitFrom(t, i)[0] != [] && SplitFrom(t, i)[0][0] == t[0]
    ensures Chained(SplitFrom(t, i))
    ensures Unsplittable(SplitFrom(t, i))
    decreases |t|, |t| - i, 1
  {
    if i == |t| {
      assert SplitFrom(t, i) == [t];
    } else if BoundaryAt(t, i) {
      SplitNormalCut(t, i);
    } else {
      SplitNormal(t, i + 1);
    }
  }

  /** The step of `SplitNormal` at a boundary: the text before it is one sentence and the
      rest is split the same way. */
  lemma {:induction false} SplitNormalCut(t: string, i: nat)
    requires Normal(t) && t != [] && i < |t| && BoundaryAt(t, i)
    requires forall k :: 0 <= k < i ==> !BoundaryAt(t, k)
    ensures JoinSpace(SplitFrom(t, i)) == t
    ensures forall s :: s in SplitFrom(t, i) ==> s != [] && Normal(s)
    ensures SplitFrom(t, i)[0] != [] && SplitFrom(t, i)[0][0] == t[0]
    ensures Chained(SplitFrom(t, i))
    ensures Unsplittable(SplitFrom(t, i))
    decreases |t|, |t| - i, 0
  {
    NormalRunEnd(t, i);
    var piece := t[..i];
    var rest := t[i + 1..];
    var tail := SplitFrom(rest, 0);
    assert SplitFrom(t, i) == [piece] + tail;
    CutPieces(t, i);
    SplitNormal(rest, 0);
    assert t == piece + " " + rest;
    ConsSentence(piece, tail);
  }

  /** Both sides of a boundary of normalised text are non-empty normalised text, and the
      side before it holds no boundary. */
  lemma CutPieces(t: string, i: nat)
    requires Normal(t) && BoundaryAt(t, i)
    requires forall k :: 0 <= k < i ==> !BoundaryAt(t, k)
    ensures i + 1 < |t| && t[i] == ' '
    ensures t[..i] != [] && Normal(t[..i]) && t[i + 1..] != [] && Normal(t[i + 1..])
    ensures Meets(t[..i], t[i + 1..])
    ensures forall k :: !BoundaryAt(t[..i], k)
  {
    NormalRunEnd(t, i);
    var piece := t[..i];
    var rest := t[i + 1..];
    NoRunsSlice(t, 0, i);
    NoRunsSlice(t, i + 1, |t|);
    assert piece[|piece| - 1] == t[i - 1];
    assert rest[0] == t[i + 1];
    forall k: nat ensures !BoundaryAt(piece, k) {
      if BoundaryAt(piece, k) {
        BoundaryOfPrefix(t, i, k);
      }
    }
  }

  /** A sentence placed in front of a well-formed split keeps it well formed. */
  lemma ConsSentence(piece: string, tail: seq<string>)
    requires piece != [] && Normal(piece) && forall k :: !BoundaryAt(piece, k)
    requires tail != [] && Meets(piece, tail[0])
    requires forall s :: s in tail ==> s != [] && Normal(s)
    requires Chained(tail) && Unsplittable(tail)
    ensures JoinSpace([piece] + tail) == piece + " " + JoinSpace(tail)
    ensures forall s :: s in [piece] + tail ==> s != [] && Normal(s)
    ensures Chained([piece] + tail)
    ensures Unsplittable([piece] + tail)
  {
    var r := [piece] + tail;
    assert r[1..] == tail;
    assert forall s :: s in r <==> s == piece || s in tail;
    assert forall a :: 0 < a < |r| ==> r[a] == tail[a - 1];
  }

  // ---------------------------------------------------------------------------
  // The newline fallback: re.split(r'(?<=\n)\s*', text)
  // ---------------------------------------------------------------------------

  /** `re.split(r'(?<=\n)\s*', t)`, scanning from `i`: cut after each newline and drop the
      whitespace that follows it. Python also yields an empty piece where the whitespace
      after a newline holds another newline ("a\n\nb" gives "a\n", "" and "b"), which this
      definition does not produce. That is harmless: the fallback only ever sees
      normalised text, which has no newline at all, and the pieces are then stripped and
      empty ones dropped. */
  function NewlineSplitFrom(t: string, i: nat): (r: seq<string>)
    requires i <= |t|
    ensures r != []
    decreases |t|, |t| - i
  {
    if i == |t| then [t]
    else if t[i] == '\n' then
      [t[..i + 1]] + NewlineSplitFrom(SkipSpaces(t[i + 1..]), 0)
    else NewlineSplitFrom(t, i + 1)
  }

  /** Without a newline the fallback leaves the text whole. */
  lemma {:induction false} NewlineSplitInert(t: string, i: nat)
    requires i <= |t|
    requires forall k :: i <= k < |t| ==> t[k] != '\n'
    ensures NewlineSplitFrom(t, i) == [t]
    decreases |t| - i
  {
    if i < |t| {
      NewlineSplitInert(t, i + 1);
    }
  }

  /** `[s.strip() for s in parts if s.strip()]`: every piece kept is non-empty and has
      nothing left to strip. */
  function Tidy(parts: seq<string>): (r: seq<string>)
    ensures |r| <= |parts|
    ensures forall a :: 0 <= a < |r| ==> r[a] != [] && Strip(r[a]) == r[a]
  {
    if parts == [] then []
    else
      var s := Strip(parts[0]);
      var rest := Tidy(parts[1..]);
      if s == [] then rest
      else
        StripTwice(parts[0]);
        [s] + rest
  }

  /** Stripping is idempotent. */
  lemma StripTwice(s: string)
    ensures Strip(Strip(s)) == Strip(s)
  {
    var r := Strip(s);
    if r != [] {
      assert SkipSpaces(r) == r;
    }
  }

  lemma StripOfNormal(s: string)
    requires Normal(s)
    ensures Strip(s) == s
  {
    if s != [] {
      assert SkipSpaces(s) == s;
    }
  }

  /** Tidying pieces that are non-empty and already stripped changes nothing. */
  lemma {:induction false} TidyOfStripped(parts: seq<string>)
    requires forall a :: 0 <= a < |parts| ==> parts[a] != [] && Strip(parts[a]) == parts[a]
    ensures Tidy(parts) == parts
  {
    if parts != [] {
      var rest := parts[1..];
      TidyOfStripped(rest);
      TidyCons(parts[0], rest);
      assert parts == [parts[0]] + rest;
    }
  }

  lemma TidyCons(x: string, rest: seq<string>)
    requires x != [] && Strip(x) == x
    ensures Tidy([x] + rest) == [x] + Tidy(rest)
  {
    assert ([x] + rest)[1..] == rest;
  }

  /** summarizer.py:17-24. The result is empty exactly for blank text; otherwise every
      sentence is non-empty normalised text, the sentences meet at boundaries, none
      contains a boundary, and joined with single spaces they give back the normalised
      text. */
  function SentenceTokenize(text: string): (r: seq<string>)
    ensures r == [] <==> AllSpace(text)
    ensures forall s :: s in r ==> s != [] && Normal(s)
    ensures JoinSpace(r) == Normalize(text)
    ensures Chained(r)
    ensures Unsplittable(r)
  {
    var t := Normalize(text);
    if t == [] then []
    else
      SplitOfNormalized(t);
      SplitNormal(t, 0);
      Sentences(t)
  }

  /** Lines 21-24 on the normalised text `t`: the pattern split, the newline fallback when
      that split yields a single piece, then stripping and dropping empty pieces. */
  function Sentences(t: string): seq<string> {
    var parts := SplitFrom(t, 0);
    var pieces := if |parts| == 1 then NewlineSplitFrom(t, 0) else parts;
    Tidy(pieces)
  }

  /** On normalised text neither the newline fallback nor the tidying changes the
      pattern split. */
  lemma SplitOfNormalized(t: string)
    requires Normal(t) && t != []
    ensures Sentences(t) == SplitFrom(t, 0)
  {
    var parts := SplitFrom(t, 0);
    SplitNormal(t, 0);
    if |parts| == 1 {
      FallbackInert(t, parts);
    }
    forall a | 0 <= a < |parts| ensures parts[a] != [] && Strip(parts[a]) == parts[a] {
      assert parts[a] in parts;
      StripOfNormal(parts[a]);
    }
    TidyOfStripped(parts);
  }

  /** The newline fallback of summarizer.py:22-23 is dead code: when the sentence split
      yields one piece, re-splitting the normalised text at newlines yields that same
      piece, because normalisation leaves no newline behind. */
  lemma FallbackInert(t: string, parts: seq<string>)
    requires Normal(t) && |parts| == 1 && JoinSpace(parts) == t
    ensures NewlineSplitFrom(t, 0) == parts
  {
    forall k | 0 <= k < |t| ensures t[k] != '\n' {
      if t[k] == '\n' {
        assert IsSpace(t[k]);
      }
    }
    NewlineSplitInert(t, 0);
  }

  // ---------------------------------------------------------------------------
  // Words: re.findall(r"[A-Za-z0-9']+", sent.lower())
  // ---------------------------------------------------------------------------

  /** A character a word token may contain once lower-cased. */
  predicate IsLowerTokenChar(c: char) {
    IsLower(c) || IsDigit(c) || c == '\''
  }

  /** summarizer.py:26-27: the maximal token runs of the lower-cased sentence. Every token
      is non-empty and made of lower-case letters, digits and apostrophes only. */
  function WordTokenize(sent: string): (r: seq<string>)
    ensures forall w :: w in r ==> w != [] && All(w, IsLowerTokenChar)
  {
    var low := Lower(sent);
    var r := Runs(low, IsTokenChar);
    RunsKeep(low, IsTokenChar, c => !IsUpper(c));
    r
  }

  /** The words are exactly the maximal runs of token characters of the lower-cased
      sentence, wherever they sit in it. */
  lemma WordTokenizeMaximal(sent: string)
    ensures forall w :: w in WordTokenize(sent) <==>
      exists i: nat, e: nat :: IsRunAt(Lower(sent), IsTokenChar, i, e) && w == Lower(sent)[i..e]
  {
    RunsMembers(Lower(sent), IsTokenChar);
  }

  /** A character outside the token class separates words. */
  lemma WordTokenizeSplit(a: string, c: char, b: string)
    requires !IsTokenChar(c)
    ensures WordTokenize(a + [c] + b) == WordTokenize(a) + WordTokenize(b)
  {
    assert Lower(a + [c] + b) == Lower(a) + [c] + Lower(b);
    RunsSplit(Lower(a), c, Lower(b), IsTokenChar);
  }

  /** A non-empty run of token characters is one word, lower-cased. */
  lemma WordTokenizeRun(w: string)
    requires w != [] && All(w, IsTokenChar)
    ensures WordTokenize(w) == [Lower(w)]
  {
    RunsOfRun(Lower(w), IsTokenChar);
  }
}
