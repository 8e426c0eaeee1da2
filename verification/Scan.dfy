/**
 Enumeration of the empty cells of a grid in row-major order: rows top to
 bottom, and within a row columns left to right.
 */
module Scan {
  import opened Cells

  /** `a` comes strictly before `b` in row-major order. */
  predicate Before(a: Position, b: Position) {
    a.row < b.row || (a.row == b.row && a.column < b.column)
  }

  /** The positions are listed in strictly increasing row-major order, so
      in particular none is listed twice. */
  predicate RowMajor(ps: seq<Position>) {
    forall a, b :: 0 <= a < b < |ps| ==> Before(ps[a], ps[b])
  }

  /** A strictly ordered listing repeats no position. */
  lemma RowMajorDistinct(ps: seq<Position>)
    requires RowMajor(ps)
    ensures Distinct(ps)
  {
  }

  /** The empty cells among columns `0 .. n-1` of row `i`, left to right. */
  function ScanRow(g: Grid, i: nat, n: nat): seq<Position>
    requires i < |g| && n <= |g[i]|
  {
    if n == 0 then []
    else ScanRow(g, i, n - 1) + (if g[i][n - 1] == Empty then [Position(i, n - 1)] else [])
  }

  /** The scan of the first `n` columns of row `i` lists only empty cells of
      that row below column `n`, lists every one of them, and lists them
      left to right. */
  lemma {:induction false} ScanRowSound(g: Grid, i: nat, n: nat)
    requires i < |g| && n <= |g[i]|
    ensures forall k :: 0 <= k < |ScanRow(g, i, n)| ==>
      var p := ScanRow(g, i, n)[k]; p.row == i && 0 <= p.column < n && g[i][p.column] == Empty
    ensures forall j :: 0 <= j < n && g[i][j] == Empty ==> Position(i, j) in ScanRow(g, i, n)
    ensures RowMajor(ScanRow(g, i, n))
  {
    if n > 0 {
      ScanRowSound(g, i, n - 1);
      var front := ScanRow(g, i, n - 1);
      var last := if g[i][n - 1] == Empty then [Position(i, n - 1)] else [];
      assert ScanRow(g, i, n) == front + last;
      forall a, b | 0 <= a < b < |front + last|
        ensures Before((front + last)[a], (front + last)[b])
      {
        if b >= |front| {
          assert (front + last)[a] == front[a];
        }
      }
    }
  }

  /** The empty cells of rows `0 .. m-1`, row by row. */
  function ScanRows(g: Grid, m: nat): seq<Position>
    requires m <= |g|
  {
    if m == 0 then []
    else ScanRows(g, m - 1) + ScanRow(g, m - 1, |g[m - 1]|)
  }

  /** The scan of rows `0 .. m-1` lists only empty cells of those rows,
      lists every one of them, and lists them in row-major order. */
  lemma {:induction false} ScanRowsSound(g: Grid, m: nat)
    requires m <= |g|
    ensures forall k :: 0 <= k < |ScanRows(g, m)| ==>
      var p := ScanRows(g, m)[k]; 0 <= p.row < m && Indexes(g, p) && g[p.row][p.column] == Empty
    ensures forall i, j :: 0 <= i < m && 0 <= j < |g[i]| && g[i][j] == Empty ==> Position(i, j) in ScanRows(g, m)
    ensures RowMajor(ScanRows(g, m))
  {
    if m > 0 {
      ScanRowsSound(g, m - 1);
      ScanRowSound(g, m - 1, |g[m - 1]|);
      var front := ScanRows(g, m - 1);
      var last := ScanRow(g, m - 1, |g[m - 1]|);
      assert ScanRows(g, m) == front + last;
      forall a, b | 0 <= a < b < |front + last|
        ensures Before((front + last)[a], (front + last)[b])
      {
        if a < |front| && b >= |front| {
          assert (front + last)[a] == front[a];
          assert (front + last)[b] == last[b - |front|];
        }
      }
    }
  }

  /** Every member of a row-major listing other than its head comes after the head. */
  lemma HeadIsLeast(ps: seq<Position>, p: Position)
    requires RowMajor(ps) && p in ps
    ensures p == ps[0] || Before(ps[0], p)
  {
  }

  /** A row-major listing is determined by the positions it lists: two
      row-major sequences with the same members are equal. So the empty-cell
      scan is THE sorted listing of the empty cells, each exactly once. */
  lemma {:induction false} RowMajorUnique(a: seq<Position>, b: seq<Position>)
    requires RowMajor(a) && RowMajor(b)
    requires forall p :: p in a <==> p in b
    ensures a == b
    decreases |a|
  {
    if |a| > 0 { assert a[0] in b; }
    if |b| > 0 { assert b[0] in a; }
    if |a| > 0 {
      HeadIsLeast(a, b[0]);
      HeadIsLeast(b, a[0]);
      forall p
        ensures p in a[1..] <==> p in b[1..]
      {
        if p in a[1..] {
          var k :| 1 <= k < |a| && a[k] == p;
          assert Before(a[0], a[k]);
          assert p in b;
          var j :| 0 <= j < |b| && b[j] == p;
          assert j != 0;
          assert b[1..][j - 1] == p;
        }
        if p in b[1..] {
          var k :| 1 <= k < |b| && b[k] == p;
          assert Before(b[0], b[k]);
          assert p in a;
          var j :| 0 <= j < |a| && a[j] == p;
          assert j != 0;
          assert a[1..][j - 1] == p;
        }
      }
      RowMajorUnique(a[1..], b[1..]);
      assert a == [a[0]] + a[1..];
      assert b == [b[0]] + b[1..];
    }
  }
}
