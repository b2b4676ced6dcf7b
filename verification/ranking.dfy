/** Stable ordering of positions by descending key (summarizer.py, the `scores.sort` of
    `summarize_text` and `Counter.most_common`), and ascending order of positions.

    Python's `list.sort(key=..., reverse=True)` and `heapq.nlargest` are both stable: of two
    items with equal keys, the one that came first stays first. Over positions `0..n-1`
    of a key sequence that is the strict total order `Before` below, and the ranked list
    is the unique arrangement of all positions that respects it.
 */
module Ranking {

  /** Position `i` precedes position `j`: a larger key, or an equal key and an earlier
      position. */
  predicate Before(keys: seq<real>, i: nat, j: nat) {
    i < |keys| && j < |keys| && (keys[i] > keys[j] || (keys[i] == keys[j] && i < j))
  }

  /** Every position of `s` is a position of `keys`, and none repeats. */
  predicate Positions(keys: seq<real>, s: seq<nat>) {
    && (forall a :: 0 <= a < |s| ==> s[a] < |keys|)
    && (forall a, b :: 0 <= a < b < |s| ==> s[a] != s[b])
  }

  /** `s` lists its positions in the order `Before`. */
  predicate Ranked(keys: seq<real>, s: seq<nat>) {
    forall a, b :: 0 <= a < b < |s| ==> Before(keys, s[a], s[b])
  }

  /** The positions `0..n-1` in increasing order. */
  function Range(n: nat): (r: seq<nat>)
    ensures |r| == n && forall a :: 0 <= a < n ==> r[a] == a
  {
    seq(n, a requires 0 <= a < n => a)
  }

  /** Insert position `x` into a ranked list. */
  function Insert(keys: seq<real>, x: nat, s: seq<nat>): (r: seq<nat>)
    requires x < |keys| && Positions(keys, s) && Ranked(keys, s) && x !in s
    ensures |r| == |s| + 1 && forall y :: y in r <==> y in s || y == x
    ensures Positions(keys, r) && Ranked(keys, r)
  {
    if s == [] then [x]
    else if Before(keys, x, s[0]) then
      BeforeHead(keys, x, s);
      [x] + s
    else
      var t := Insert(keys, x, s[1..]);
      assert s == [s[0]] + s[1..];
      HeadLeads(keys, s, x, t);
      [s[0]] + t
  }

  /** The head of a ranked list that `x` does not precede precedes every position of a
      list drawn from the rest and `x`. */
  lemma HeadLeads(keys: seq<real>, s: seq<nat>, x: nat, t: seq<nat>)
    requires s != [] && s[0] < |keys| && x < |keys| && x != s[0]
    requires Ranked(keys, s) && !Before(keys, x, s[0])
    requires forall y :: y in t ==> y in s[1..] || y == x
    ensures forall b :: 0 <= b < |t| ==> Before(keys, s[0], t[b])
  {
    forall b | 0 <= b < |t| ensures Before(keys, s[0], t[b]) {
      if t[b] != x {
        assert t[b] in s[1..];
        var c :| 0 <= c < |s[1..]| && s[1..][c] == t[b];
        assert s[c + 1] == t[b];
      }
    }
  }

  /** A position ahead of the head of a ranked list is ahead of all of it. */
  lemma BeforeHead(keys: seq<real>, x: nat, s: seq<nat>)
    requires s != [] && Ranked(keys, s) && Before(keys, x, s[0])
    ensures forall b :: 0 <= b < |s| ==> Before(keys, x, s[b])
  {
    forall b | 0 < b < |s| ensures Before(keys, x, s[b]) {
      assert Before(keys, s[0], s[b]);
    }
  }

  /** Insertion sort of a list of distinct positions into the order `Before`. */
  function SortBy(keys: seq<real>, xs: seq<nat>): (r: seq<nat>)
    requires Positions(keys, xs)
    ensures |r| == |xs| && forall y :: y in r <==> y in xs
    ensures Positions(keys, r) && Ranked(keys, r)
  {
    if xs == [] then []
    else
      assert xs == [xs[0]] + xs[1..];
      Insert(keys, xs[0], SortBy(keys, xs[1..]))
  }

  /** Every position of `keys`, ordered by descending key with ties by position: the order
      of `scores.sort(key=..., reverse=True)` over `enumerate`d scores, and of
      `most_common` over a table's entries. */
  function Rank(keys: seq<real>): (r: seq<nat>)
    ensures |r| == |keys| && Positions(keys, r) && Ranked(keys, r)
    ensures forall i: nat :: i in r <==> i < |keys|
  {
    var r := SortBy(keys, Range(|keys|));
    forall i: nat ensures i in r <==> i < |keys| {
      if i < |keys| {
        assert Range(|keys|)[i] == i;
      }
    }
    r
  }

  /** Two lists holding the same positions, each in the order `Before`, are equal. */
  lemma {:induction false} RankedUnique(keys: seq<real>, s: seq<nat>, t: seq<nat>)
    requires Positions(keys, s) && Ranked(keys, s)
    requires Positions(keys, t) && Ranked(keys, t)
    requires forall y :: y in s <==> y in t
    ensures s == t
    decreases |s|
  {
    assert s == [] <==> t == [] by {
      if s != [] {
        assert s[0] in t;
      }
      if t != [] {
        assert t[0] in s;
      }
    }
    if s != [] {
      SameHead(keys, s, t);
      forall y ensures y in s[1..] <==> y in t[1..] {
        assert y in s[1..] <==> y in s && y != s[0] by {
          assert s == [s[0]] + s[1..];
        }
        assert y in t[1..] <==> y in t && y != t[0] by {
          assert t == [t[0]] + t[1..];
        }
      }
      RankedUnique(keys, s[1..], t[1..]);
      assert s == [s[0]] + s[1..];
      assert t == [t[0]] + t[1..];
    }
  }

  /** Two ranked lists holding the same positions begin with the same one. */
  lemma SameHead(keys: seq<real>, s: seq<nat>, t: seq<nat>)
    requires Ranked(keys, s) && Ranked(keys, t)
    requires forall y :: y in s <==> y in t
    requires s != [] && t != []
    ensures s[0] == t[0]
  {
    assert s[0] in t && t[0] in s;
    var a :| 0 <= a < |t| && t[a] == s[0];
    var b :| 0 <= b < |s| && s[b] == t[0];
    if a > 0 && b > 0 {
      assert false;
    }
  }

  /** The ranking is the only arrangement of all positions that respects `Before`. */
  lemma RankIsUnique(keys: seq<real>, s: seq<nat>)
    requires Positions(keys, s) && Ranked(keys, s)
    requires forall i: nat :: i < |keys| ==> i in s
    ensures s == Rank(keys)
  {
    RankedUnique(keys, s, Rank(keys));
  }

  /** The first `k` positions of the ranking (all of them when `k` is larger): the
      positions of `sorted_scores[:k]` and of `most_common(k)`. */
  function TopK(keys: seq<real>, k: nat): (r: seq<nat>)
    ensures |r| == if k < |keys| then k else |keys|
    ensures Positions(keys, r) && Ranked(keys, r)
    ensures forall a, j: nat :: 0 <= a < |r| && j < |keys| && j !in r ==> Before(keys, r[a], j)
  {
    var all := Rank(keys);
    var n := if k < |keys| then k else |keys|;
    var r := all[..n];
    forall a, j: nat | 0 <= a < |r| && j < |keys| && j !in r ensures Before(keys, r[a], j) {
      assert j in all;
      var b :| 0 <= b < |all| && all[b] == j;
      assert b >= n;
    }
    r
  }

  /** Strictly increasing. */
  predicate Increasing(s: seq<nat>) {
    forall a, b :: 0 <= a < b < |s| ==> s[a] < s[b]
  }

  /** `sorted()` of a list of distinct positions: the same positions, increasing. */
  function SortAscending(xs: seq<nat>): (r: seq<nat>)
    requires forall a, b :: 0 <= a < b < |xs| ==> xs[a] != xs[b]
    ensures |r| == |xs| && forall y :: y in r <==> y in xs
    ensures Increasing(r)
  {
    if xs == [] then []
    else
      assert xs == [xs[0]] + xs[1..];
      InsertAscending(xs[0], SortAscending(xs[1..]))
  }

  function InsertAscending(x: nat, s: seq<nat>): (r: seq<nat>)
    requires Increasing(s) && x !in s
    ensures |r| == |s| + 1 && forall y :: y in r <==> y in s || y == x
    ensures Increasing(r)
  {
    if s == [] || x < s[0] then [x] + s
    else
      assert s == [s[0]] + s[1..];
      var t := InsertAscending(x, s[1..]);
      assert forall b :: 0 <= b < |t| ==> s[0] < t[b] by {
        forall b | 0 <= b < |t| ensures s[0] < t[b] {
          if t[b] != x {
            assert t[b] in s[1..];
            var c :| 0 <= c < |s[1..]| && s[1..][c] == t[b];
            assert s[c + 1] == t[b];
          }
        }
      }
      [s[0]] + t
  }

  /** A strictly increasing list of `n` positions below `n` is `0..n-1`. */
  lemma IncreasingFull(s: seq<nat>, n: nat)
    requires |s| == n && Increasing(s)
    requires forall a :: 0 <= a < |s| ==> s[a] < n
    ensures s == Range(n)
  {
    forall a | 0 <= a < n ensures s[a] == a {
      IncreasingGap(s, 0, a);
      IncreasingGap(s, a, n - 1);
    }
  }

  lemma {:induction false} IncreasingGap(s: seq<nat>, a: nat, b: nat)
    requires a <= b < |s| && Increasing(s)
    ensures s[b] - s[a] >= b - a
    decreases b - a
  {
    if a < b {
      IncreasingGap(s, a + 1, b);
    }
  }
}
