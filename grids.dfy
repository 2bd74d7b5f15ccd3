// Counting over grids of cells: the row-by-row tallies that the board
// generator and the end-of-game check both rely on.

module Grids {

  /** `g` has `rows` rows of `cols` cells each. */
  predicate IsRect<T>(g: seq<seq<T>>, rows: nat, cols: nat)
  {
    |g| == rows && forall i :: 0 <= i < |g| ==> |g[i]| == cols
  }

  /** `g` and `h` have the same shape, row by row. */
  predicate SameShape<T, U>(g: seq<seq<T>>, h: seq<seq<U>>)
  {
    |g| == |h| && forall i :: 0 <= i < |g| ==> |g[i]| == |h[i]|
  }

  /** Number of elements of `s` that satisfy `p`, counted left to right. */
  function CountIf<T>(s: seq<T>, p: T -> bool): (n: nat)
    ensures n <= |s|
  {
    if s == [] then 0
    else CountIf(s[..|s| - 1], p) + (if p(s[|s| - 1]) then 1 else 0)
  }

  /** Number of cells of `g` that satisfy `p`, counted row by row. */
  function GridCountIf<T>(g: seq<seq<T>>, p: T -> bool): nat
  {
    if g == [] then 0
    else GridCountIf(g[..|g| - 1], p) + CountIf(g[|g| - 1], p)
  }

  /** The contents of a two-dimensional array, as a sequence of rows. */
  ghost function Snapshot<T>(a: array2<T>): (g: seq<seq<T>>)
    reads a
    ensures IsRect(g, a.Length0, a.Length1)
    ensures forall i, j :: 0 <= i < a.Length0 && 0 <= j < a.Length1 ==> g[i][j] == a[i, j]
  {
    seq(a.Length0, i requires 0 <= i < a.Length0 reads a =>
      seq(a.Length1, j requires 0 <= j < a.Length1 reads a => a[i, j]))
  }

  /** Two sequences whose elements agree, position by position, on `p` and `q`
      have equal counts. */
  lemma {:induction false} CountAgree<T, U>(s: seq<T>, t: seq<U>, p: T -> bool, q: U -> bool)
    requires |s| == |t|
    requires forall k :: 0 <= k < |s| ==> p(s[k]) == q(t[k])
    ensures CountIf(s, p) == CountIf(t, q)
  {
    if s != [] {
      CountAgree(s[..|s| - 1], t[..|t| - 1], p, q);
    }
  }

  lemma {:induction false} GridCountAgree<T, U>(g: seq<seq<T>>, h: seq<seq<U>>, p: T -> bool, q: U -> bool)
    requires SameShape(g, h)
    requires forall i, j :: 0 <= i < |g| && 0 <= j < |g[i]| ==> p(g[i][j]) == q(h[i][j])
    ensures GridCountIf(g, p) == GridCountIf(h, q)
  {
    if g != [] {
      GridCountAgree(g[..|g| - 1], h[..|h| - 1], p, q);
      CountAgree(g[|g| - 1], h[|h| - 1], p, q);
    }
  }

  /** When every element satisfies exactly one of `p` and `q`, the two counts
      add up to the length. */
  lemma {:induction false} CountComplement<T>(s: seq<T>, p: T -> bool, q: T -> bool)
    requires forall k :: 0 <= k < |s| ==> p(s[k]) != q(s[k])
    ensures CountIf(s, p) + CountIf(s, q) == |s|
  {
    if s != [] {
      CountComplement(s[..|s| - 1], p, q);
    }
  }

  lemma {:induction false} GridCountComplement<T>(g: seq<seq<T>>, cols: nat, p: T -> bool, q: T -> bool)
    requires IsRect(g, |g|, cols)
    requires forall i, j :: 0 <= i < |g| && 0 <= j < cols ==> p(g[i][j]) != q(g[i][j])
    ensures GridCountIf(g, p) + GridCountIf(g, q) == |g| * cols
  {
    if g != [] {
      GridCountComplement(g[..|g| - 1], cols, p, q);
      CountComplement(g[|g| - 1], p, q);
    }
  }

  /** A sequence or grid with no element satisfying `p` counts zero. */
  lemma {:induction false} CountNone<T>(s: seq<T>, p: T -> bool)
    requires forall k :: 0 <= k < |s| ==> !p(s[k])
    ensures CountIf(s, p) == 0
  {
    if s != [] {
      CountNone(s[..|s| - 1], p);
    }
  }

  lemma {:induction false} GridCountNone<T>(g: seq<seq<T>>, p: T -> bool)
    requires forall i, j :: 0 <= i < |g| && 0 <= j < |g[i]| ==> !p(g[i][j])
    ensures GridCountIf(g, p) == 0
  {
    if g != [] {
      GridCountNone(g[..|g| - 1], p);
      CountNone(g[|g| - 1], p);
    }
  }

  /** Turning exactly one element from not satisfying `p` to satisfying it
      raises the count by one. */
  lemma {:induction false} CountBump<T>(s: seq<T>, t: seq<T>, p: T -> bool, k: nat)
    requires |s| == |t| && k < |s|
    requires !p(s[k]) && p(t[k])
    requires forall l :: 0 <= l < |s| && l != k ==> p(s[l]) == p(t[l])
    ensures CountIf(t, p) == CountIf(s, p) + 1
  {
    var n := |s| - 1;
    if k == n {
      CountAgree(s[..n], t[..n], p, p);
    } else {
      CountBump(s[..n], t[..n], p, k);
    }
  }

  lemma {:induction false} GridCountBump<T>(g: seq<seq<T>>, h: seq<seq<T>>, p: T -> bool, r: nat, c: nat)
    requires SameShape(g, h) && r < |g| && c < |g[r]|
    requires !p(g[r][c]) && p(h[r][c])
    requires forall i, j :: 0 <= i < |g| && 0 <= j < |g[i]| && (i, j) != (r, c) ==> p(g[i][j]) == p(h[i][j])
    ensures GridCountIf(h, p) == GridCountIf(g, p) + 1
  {
    var n := |g| - 1;
    if r == n {
      GridCountAgree(g[..n], h[..n], p, p);
      CountBump(g[n], h[n], p, c);
    } else {
      GridCountBump(g[..n], h[..n], p, r, c);
      CountAgree(g[n], h[n], p, p);
    }
  }

  /** When `r` holds exactly where one of `p` and `q` holds, and never both
      hold at once, the count of `r` is the sum of the other two counts. */
  lemma {:induction false} CountSplit<T>(s: seq<T>, p: T -> bool, q: T -> bool, r: T -> bool)
    requires forall k :: 0 <= k < |s| ==> !(p(s[k]) && q(s[k])) && r(s[k]) == (p(s[k]) || q(s[k]))
    ensures CountIf(s, p) + CountIf(s, q) == CountIf(s, r)
  {
    if s != [] {
      CountSplit(s[..|s| - 1], p, q, r);
    }
  }

  lemma {:induction false} GridCountSplit<T>(g: seq<seq<T>>, p: T -> bool, q: T -> bool, r: T -> bool)
    requires forall i, j :: 0 <= i < |g| && 0 <= j < |g[i]| ==>
      !(p(g[i][j]) && q(g[i][j])) && r(g[i][j]) == (p(g[i][j]) || q(g[i][j]))
    ensures GridCountIf(g, p) + GridCountIf(g, q) == GridCountIf(g, r)
  {
    if g != [] {
      GridCountSplit(g[..|g| - 1], p, q, r);
      CountSplit(g[|g| - 1], p, q, r);
    }
  }

  /** A grid with a cell satisfying `p` at `(r, c)` counts at least one. */
  lemma {:induction false} GridCountPos<T>(g: seq<seq<T>>, p: T -> bool, r: nat, c: nat)
    requires r < |g| && c < |g[r]| && p(g[r][c])
    ensures GridCountIf(g, p) >= 1
  {
    var n := |g| - 1;
    if r == n {
      CountPos(g[n], p, c);
    } else {
      GridCountPos(g[..n], p, r, c);
    }
  }

  lemma {:induction false} CountPos<T>(s: seq<T>, p: T -> bool, k: nat)
    requires k < |s| && p(s[k])
    ensures CountIf(s, p) >= 1
  {
    if k < |s| - 1 {
      CountPos(s[..|s| - 1], p, k);
    }
  }

  /** Where `p` on `s` implies `q` on `t` position by position, and at
      position `k` only `q` holds, `t` counts strictly more under `q` than
      `s` does under `p`. */
  lemma {:induction false} CountMore<T, U>(s: seq<T>, t: seq<U>, p: T -> bool, q: U -> bool, k: nat)
    requires |s| == |t| && k < |s| && !p(s[k]) && q(t[k])
    requires forall l :: 0 <= l < |s| ==> p(s[l]) ==> q(t[l])
    ensures CountIf(s, p) < CountIf(t, q)
  {
    var n := |s| - 1;
    if k == n {
      CountNoLess(s[..n], t[..n], p, q);
    } else {
      CountMore(s[..n], t[..n], p, q, k);
    }
  }

  lemma {:induction false} CountNoLess<T, U>(s: seq<T>, t: seq<U>, p: T -> bool, q: U -> bool)
    requires |s| == |t|
    requires forall l :: 0 <= l < |s| ==> p(s[l]) ==> q(t[l])
    ensures CountIf(s, p) <= CountIf(t, q)
  {
    if s != [] {
      CountNoLess(s[..|s| - 1], t[..|t| - 1], p, q);
    }
  }

  lemma {:induction false} GridCountMore<T, U>(g: seq<seq<T>>, h: seq<seq<U>>, p: T -> bool, q: U -> bool, r: nat, c: nat)
    requires SameShape(g, h) && r < |g| && c < |g[r]| && !p(g[r][c]) && q(h[r][c])
    requires forall i, j :: 0 <= i < |g| && 0 <= j < |g[i]| ==> p(g[i][j]) ==> q(h[i][j])
    ensures GridCountIf(g, p) < GridCountIf(h, q)
  {
    var n := |g| - 1;
    if r == n {
      GridCountNoLess(g[..n], h[..n], p, q);
      CountMore(g[n], h[n], p, q, c);
    } else {
      GridCountMore(g[..n], h[..n], p, q, r, c);
      CountNoLess(g[n], h[n], p, q);
    }
  }

  lemma {:induction false} GridCountNoLess<T, U>(g: seq<seq<T>>, h: seq<seq<U>>, p: T -> bool, q: U -> bool)
    requires SameShape(g, h)
    requires forall i, j :: 0 <= i < |g| && 0 <= j < |g[i]| ==> p(g[i][j]) ==> q(h[i][j])
    ensures GridCountIf(g, p) <= GridCountIf(h, q)
  {
    if g != [] {
      GridCountNoLess(g[..|g| - 1], h[..|h| - 1], p, q);
      CountNoLess(g[|g| - 1], h[|h| - 1], p, q);
    }
  }
}
