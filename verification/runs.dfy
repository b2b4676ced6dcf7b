/** Maximal runs of characters drawn from one class.

    `re.findall("[...]+", s)` and `str.split()` both return the maximal runs of a class
    (the token class, or the non-whitespace characters) from left to right; this module
    defines that once and proves the two facts that characterise it: a non-member
    character separates, and a run on its own is one token.
 */
module MaximalRuns {
  import opened Chars

  /** Length of the longest prefix of `s` whose characters satisfy `p`. */
  function PrefixLength(s: string, p: char -> bool): (n: nat)
    ensures n <= |s|
    ensures forall k :: 0 <= k < n ==> p(s[k])
    ensures n < |s| ==> !p(s[n])
  {
    if s == [] || !p(s[0]) then 0 else 1 + PrefixLength(s[1..], p)
  }

  /** The maximal runs of `p`-characters of `s`, left to right. */
  function Runs(s: string, p: char -> bool): (r: seq<string>)
    ensures forall w :: w in r ==> w != [] && All(w, p)
    decreases |s|
  {
    if s == [] then []
    else if !p(s[0]) then Runs(s[1..], p)
    else
      var n := PrefixLength(s, p);
      [s[..n]] + Runs(s[n..], p)
  }

  /** Every character of every run satisfies whatever all characters of `s` satisfy. */
  lemma {:induction false} RunsKeep(s: string, p: char -> bool, q: char -> bool)
    requires All(s, q)
    ensures forall w :: w in Runs(s, p) ==> All(w, q)
    decreases |s|
  {
    if s != [] {
      if !p(s[0]) {
        RunsKeep(s[1..], p, q);
      } else {
        var n := PrefixLength(s, p);
        RunsKeep(s[n..], p, q);
      }
    }
  }

  /** `str.split()` with no argument: the maximal runs of non-whitespace. */
  function Fields(s: string): seq<string> {
    Runs(s, NotSpace)
  }

  /** A character outside the class separates: the runs of `a + [c] + b` are those of
      `a` followed by those of `b`. */
  lemma {:induction false} RunsSplit(a: string, c: char, b: string, p: char -> bool)
    requires !p(c)
    ensures Runs(a + [c] + b, p) == Runs(a, p) + Runs(b, p)
    decreases |a|
  {
    var s := a + [c] + b;
    if a == [] {
      assert s[1..] == b;
    } else if !p(a[0]) {
      assert s[1..] == a[1..] + [c] + b;
      RunsSplit(a[1..], c, b, p);
    } else {
      var n := PrefixLength(s, p);
      var m := PrefixLength(a, p);
      PrefixLengthBelow(a, c, b, p);
      assert n == m;
      assert s[..n] == a[..m];
      assert s[n..] == a[m..] + [c] + b;
      RunsSplit(a[m..], c, b, p);
    }
  }

  lemma {:induction false} PrefixLengthBelow(a: string, c: char, b: string, p: char -> bool)
    requires !p(c)
    ensures PrefixLength(a + [c] + b, p) == PrefixLength(a, p)
    decreases |a|
  {
    var s := a + [c] + b;
    if a != [] && p(a[0]) {
      assert s[1..] == a[1..] + [c] + b;
      PrefixLengthBelow(a[1..], c, b, p);
    }
  }

  /** A non-empty run is exactly one token. */
  lemma RunsOfRun(w: string, p: char -> bool)
    requires w != [] && All(w, p)
    ensures Runs(w, p) == [w]
  {
    PrefixLengthAll(w, p);
    assert w[..|w|] == w;
    assert w[|w|..] == [];
  }

  lemma {:induction false} PrefixLengthAll(w: string, p: char -> bool)
    requires All(w, p)
    ensures PrefixLength(w, p) == |w|
    decreases |w|
  {
    if w != [] {
      PrefixLengthAll(w[1..], p);
    }
  }

  /** Without any class character there are no runs. */
  lemma {:induction false} RunsOfNone(s: string, p: char -> bool)
    requires forall k :: 0 <= k < |s| ==> !p(s[k])
    ensures Runs(s, p) == []
    decreases |s|
  {
    if s != [] {
      RunsOfNone(s[1..], p);
    }
  }

  /** Prepending a class character extends the first run when `x` begins with one, and
      starts a new run otherwise. */
  lemma RunsCons(c: char, x: string, p: char -> bool)
    requires p(c)
    ensures x != [] && p(x[0]) ==>
      Runs([c] + x, p) == [[c] + Runs(x, p)[0]] + Runs(x, p)[1..]
    ensures !(x != [] && p(x[0])) ==> Runs([c] + x, p) == [[c]] + Runs(x, p)
  {
    var s := [c] + x;
    assert s[1..] == x;
    var n := PrefixLength(x, p);
    assert PrefixLength(s, p) == 1 + n;
    assert s[..1 + n] == [c] + x[..n];
    assert s[1 + n..] == x[n..];
  }

  /** Dropping characters outside the class from the front does not change the runs. */
  lemma {:induction false} RunsDropFront(s: string, n: nat, p: char -> bool)
    requires n <= |s|
    requires forall k :: 0 <= k < n ==> !p(s[k])
    ensures Runs(s[n..], p) == Runs(s, p)
    decreases n
  {
    if n > 0 {
      assert s[1..][n - 1..] == s[n..];
      RunsDropFront(s[1..], n - 1, p);
    }
  }

  /** Dropping characters outside the class from the back does not change the runs. */
  lemma {:induction false} RunsDropBack(s: string, n: nat, p: char -> bool)
    requires n <= |s|
    requires forall k :: n <= k < |s| ==> !p(s[k])
    ensures Runs(s[..n], p) == Runs(s, p)
    decreases |s| - n
  {
    if n == |s| {
      assert s[..n] == s;
    } else {
      var a := s[..|s| - 1];
      assert s == a + [s[|s| - 1]] + [];
      RunsSplit(a, s[|s| - 1], [], p);
      assert Runs(s, p) == Runs(a, p) + Runs([], p);
      assert Runs(s, p) == Runs(a, p);
      assert a[..n] == s[..n];
      RunsDropBack(a, n, p);
    }
  }

  /** `s[i..e]` is a maximal run: non-empty, every character satisfies `p`, and neither
      neighbour does. */
  predicate IsRunAt(s: string, p: char -> bool, i: nat, e: nat) {
    && i < e <= |s|
    && (i == 0 || !p(s[i - 1]))
    && (e == |s| || !p(s[e]))
    && (forall k :: i <= k < e ==> p(s[k]))
  }

  /** The runs of `s` are exactly its maximal runs. */
  ghost predicate RunsArePositional(s: string, p: char -> bool) {
    forall w :: w in Runs(s, p) <==> exists i: nat, e: nat :: IsRunAt(s, p, i, e) && w == s[i..e]
  }

  /** The runs are exactly the maximal runs of `s`: an independent, positional reading of
      `Runs`. */
  lemma RunsMembers(s: string, p: char -> bool)
    ensures RunsArePositional(s, p)
  {
    forall w | w in Runs(s, p) ensures exists i: nat, e: nat :: IsRunAt(s, p, i, e) && w == s[i..e] {
      var i, e := ListedIsRun(s, p, w);
    }
    forall w, i: nat, e: nat | IsRunAt(s, p, i, e) && w == s[i..e] ensures w in Runs(s, p) {
      RunIsListed(s, p, i, e);
    }
  }

  /** Every listed run sits somewhere in `s` as a maximal run. */
  lemma {:induction false} ListedIsRun(s: string, p: char -> bool, w: string) returns (i: nat, e: nat)
    requires w in Runs(s, p)
    ensures IsRunAt(s, p, i, e) && w == s[i..e]
    decreases |s|
  {
    if !p(s[0]) {
      var i', e' := ListedIsRun(s[1..], p, w);
      RunShift(s, p, 1, i', e');
      SliceOfSuffix(s, 1, i', e');
      i, e := i' + 1, e' + 1;
    } else {
      var n := PrefixLength(s, p);
      if w == s[..n] {
        i, e := 0, n;
      } else {
        assert w in Runs(s[n..], p);
        var i', e' := ListedIsRun(s[n..], p, w);
        RunShift(s, p, n, i', e');
        SliceOfSuffix(s, n, i', e');
        i, e := i' + n, e' + n;
      }
    }
  }

  /** Every maximal run of `s` is listed. */
  lemma {:induction false} RunIsListed(s: string, p: char -> bool, i: nat, e: nat)
    requires IsRunAt(s, p, i, e)
    ensures s[i..e] in Runs(s, p)
    decreases |s|
  {
    if !p(s[0]) {
      RunIsListedSkip(s, p, i, e);
    } else {
      var n := PrefixLength(s, p);
      assert Runs(s, p) == [s[..n]] + Runs(s[n..], p);
      if i == 0 {
        RunEndUnique(s, p, e, n);
      } else {
        PrefixLengthBefore(s, p, i);
        RunShift(s, p, n, i - n, e - n);
        SliceOfSuffix(s, n, i - n, e - n);
        RunIsListed(s[n..], p, i - n, e - n);
      }
    }
  }

  lemma {:induction false} RunIsListedSkip(s: string, p: char -> bool, i: nat, e: nat)
    requires IsRunAt(s, p, i, e) && !p(s[0])
    ensures s[i..e] in Runs(s, p)
    decreases |s|, 0
  {
    assert Runs(s, p) == Runs(s[1..], p);
    RunShift(s, p, 1, i - 1, e - 1);
    SliceOfSuffix(s, 1, i - 1, e - 1);
    RunIsListed(s[1..], p, i - 1, e - 1);
  }

  /** The runs of a suffix that starts with a maximal run begin with that run. */
  lemma RunsFromRun(s: string, p: char -> bool, i: nat, e: nat)
    requires IsRunAt(s, p, i, e)
    ensures Runs(s[i..], p) == [s[i..e]] + Runs(s[e..], p)
  {
    var u := s[i..];
    var n := PrefixLength(u, p);
    assert forall k :: 0 <= k < e - i ==> p(u[k]);
    assert e - i < |u| ==> !p(u[e - i]);
    assert n == e - i;
    assert u[..n] == s[i..e];
    assert u[n..] == s[e..];
  }

  /** A character outside the class at the front of a suffix is skipped. */
  lemma RunsFromSkip(s: string, p: char -> bool, i: nat)
    requires i < |s| && !p(s[i])
    ensures Runs(s[i..], p) == Runs(s[i + 1..], p)
  {
    assert s[i..][0] == s[i];
    assert s[i..][1..] == s[i + 1..];
  }

  /** A character outside the class lies beyond the longest class prefix. */
  lemma PrefixLengthBefore(s: string, p: char -> bool, i: nat)
    requires 0 < i <= |s| && !p(s[i - 1])
    ensures PrefixLength(s, p) < i
  {
  }

  lemma SliceOfSuffix(s: string, d: nat, i: nat, e: nat)
    requires d <= |s| && i <= e <= |s| - d
    ensures s[d..][i..e] == s[i + d..e + d]
  {
  }

  /** A run starting at 0 ends where the longest prefix of class characters ends. */
  lemma RunEndUnique(s: string, p: char -> bool, e: nat, n: nat)
    requires IsRunAt(s, p, 0, e) && n == PrefixLength(s, p)
    ensures e == n
  {
  }

  /** A run of a suffix is a run of the whole string, shifted, when the suffix starts at a
      run boundary. */
  lemma RunShift(s: string, p: char -> bool, d: nat, i: nat, e: nat)
    requires d <= |s|
    requires d > 0 ==> !p(s[d - 1]) || d == |s| || !p(s[d])
    ensures IsRunAt(s[d..], p, i, e) <==> IsRunAt(s, p, i + d, e + d)
  {
    if i < e <= |s| - d {
      assert forall k :: i <= k < e ==> s[d..][k] == s[k + d];
      if forall k :: i <= k < e ==> p(s[d..][k]) {
        forall k | i + d <= k < e + d ensures p(s[k]) {
          assert s[d..][k - d] == s[k];
        }
      }
    }
  }
}
