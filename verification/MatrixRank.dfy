/** The binary matrix rank test's elimination over GF(2), for any number of rows and columns. */
module MatrixRank {
  import opened Bytes

  /** A row; XOR of rows is pointwise. */
  type Row = seq<bool>

  function Zero(w: nat): (z: Row)
    ensures |z| == w
  {
    seq(w, _ => false)
  }

  function Add(a: Row, b: Row): (c: Row)
    requires |a| == |b|
    ensures |c| == |a|
  {
    seq(|a|, i requires 0 <= i < |a| => a[i] != b[i])
  }

  ghost predicate Matrix(rows: seq<Row>, w: nat) {
    forall i :: 0 <= i < |rows| ==> |rows[i]| == w
  }

  // ----- Row space -----

  /** Every XOR of a subset of the rows. */
  ghost function RowSpace(rows: seq<Row>, w: nat): (space: set<Row>)
    requires Matrix(rows, w)
    ensures forall v :: v in space ==> |v| == w
  {
    if rows == [] then {Zero(w)}
    else
      var before := RowSpace(rows[..|rows| - 1], w);
      before + Shifted(before, rows[|rows| - 1])
  }

  ghost function Shifted(space: set<Row>, r: Row): (shifted: set<Row>)
    requires forall v :: v in space ==> |v| == |r|
    ensures forall v :: v in shifted ==> |v| == |r|
  {
    set v | v in space :: Add(v, r)
  }

  /** No row is an XOR of earlier ones. */
  ghost predicate Independent(rows: seq<Row>, w: nat)
    requires Matrix(rows, w)
  {
    forall k :: 0 <= k < |rows| ==> rows[k] !in RowSpace(rows[..k], w)
  }

  lemma AddLaws(a: Row, b: Row, c: Row)
    requires |a| == |b| == |c|
    ensures Add(a, b) == Add(b, a) && Add(Add(a, b), c) == Add(a, Add(b, c))
    ensures Add(Add(a, b), b) == a && Add(a, Zero(|a|)) == a
  {
  }

  lemma AddTwice(u: Row, r: Row)
    requires |u| == |r|
    ensures Add(u, Add(u, r)) == r
  {
  }

  lemma {:induction false} ZeroInside(rows: seq<Row>, w: nat)
    requires Matrix(rows, w)
    ensures Zero(w) in RowSpace(rows, w)
  {
    if rows != [] {
      ZeroInside(rows[..|rows| - 1], w);
    }
  }

  lemma {:induction false} RowInside(rows: seq<Row>, w: nat, k: nat)
    requires Matrix(rows, w) && k < |rows|
    ensures rows[k] in RowSpace(rows, w)
  {
    var init, last := rows[..|rows| - 1], rows[|rows| - 1];
    if k == |rows| - 1 {
      ZeroInside(init, w);
      AddLaws(last, Zero(w), Zero(w));
      assert Add(Zero(w), last) in Shifted(RowSpace(init, w), last);
    } else {
      RowInside(init, w, k);
    }
  }

  /** A member comes from the earlier rows, directly or plus the last row. */
  lemma Cases(rows: seq<Row>, w: nat, v: Row) returns (u: Row, plus: bool)
    requires Matrix(rows, w) && rows != [] && v in RowSpace(rows, w)
    ensures u in RowSpace(rows[..|rows| - 1], w) && v == if plus then Add(u, rows[|rows| - 1]) else u
  {
    var before, last := RowSpace(rows[..|rows| - 1], w), rows[|rows| - 1];
    if v in before {
      u, plus := v, false;
    } else {
      assert v in Shifted(before, last);
      u :| u in before && v == Add(u, last);
      plus := true;
    }
  }

  lemma {:induction false} Closed(rows: seq<Row>, w: nat, a: Row, b: Row)
    requires Matrix(rows, w) && a in RowSpace(rows, w) && b in RowSpace(rows, w)
    ensures Add(a, b) in RowSpace(rows, w)
    decreases |rows|
  {
    if rows == [] {
      AddLaws(a, b, b);
    } else {
      var init, last := rows[..|rows| - 1], rows[|rows| - 1];
      var u, p := Cases(rows, w, a);
      var v, q := Cases(rows, w, b);
      Closed(init, w, u, v);
      assert Add(Add(u, v), last) in Shifted(RowSpace(init, w), last);
      Regroup(u, v, last);
    }
  }

  lemma Regroup(u: Row, v: Row, r: Row)
    requires |u| == |v| == |r|
    ensures Add(Add(u, r), Add(v, r)) == Add(u, v)
    ensures Add(Add(u, r), v) == Add(Add(u, v), r) && Add(u, Add(v, r)) == Add(Add(u, v), r)
  {
  }

  /** Rows drawn from a space span no more than it. */
  lemma {:induction false} SpanWithin(a: seq<Row>, b: seq<Row>, w: nat)
    requires Matrix(a, w) && Matrix(b, w)
    requires forall k :: 0 <= k < |a| ==> a[k] in RowSpace(b, w)
    ensures RowSpace(a, w) <= RowSpace(b, w)
    decreases |a|
  {
    ZeroInside(b, w);
    if a != [] {
      SpanWithin(a[..|a| - 1], b, w);
      forall v | v in RowSpace(a, w)
        ensures v in RowSpace(b, w)
      {
        var u, plus := Cases(a, w, v);
        Closed(b, w, u, a[|a| - 1]);
      }
    }
  }

  // ----- Dimension -----

  lemma {:induction false} ShiftedSize(space: set<Row>, r: Row)
    requires forall v :: v in space ==> |v| == |r|
    ensures |Shifted(space, r)| == |space|
    decreases space
  {
    if space != {} {
      var v :| v in space;
      ShiftedSize(space - {v}, r);
      forall u | u in space - {v}
        ensures Add(u, r) != Add(v, r)
      {
        AddLaws(u, r, r);
        AddLaws(v, r, r);
      }
      assert Shifted(space, r) == Shifted(space - {v}, r) + {Add(v, r)};
    } else {
      assert Shifted(space, r) == {};
    }
  }

  /** Independent rows double the space one by one, so its size determines their number. */
  lemma {:induction false} IndependentSize(rows: seq<Row>, w: nat)
    requires Matrix(rows, w) && Independent(rows, w)
    ensures |RowSpace(rows, w)| == Pow2(|rows|)
    decreases |rows|
  {
    if rows != [] {
      var init, last := SplitIndependent(rows, w);
      IndependentSize(init, w);
      SpaceDoubles(init, w, last);
    }
  }

  lemma SpaceDoubles(init: seq<Row>, w: nat, last: Row)
    requires Matrix(init, w) && |last| == w && last !in RowSpace(init, w)
    ensures |RowSpace(init, w) + Shifted(RowSpace(init, w), last)| == 2 * |RowSpace(init, w)|
  {
    NewRowDoubles(init, w, last);
    ShiftedSize(RowSpace(init, w), last);
  }

  lemma SplitIndependent(rows: seq<Row>, w: nat) returns (init: seq<Row>, last: Row)
    requires Matrix(rows, w) && Independent(rows, w) && rows != []
    ensures Matrix(init, w) && Independent(init, w) && |last| == w && last !in RowSpace(init, w)
    ensures |init| == |rows| - 1 && RowSpace(rows, w) == RowSpace(init, w) + Shifted(RowSpace(init, w), last)
  {
    init, last := rows[..|rows| - 1], rows[|rows| - 1];
    IndependentPrefix(rows, init, w);
  }

  lemma IndependentPrefix(rows: seq<Row>, init: seq<Row>, w: nat)
    requires Matrix(rows, w) && Independent(rows, w) && init <= rows
    ensures Matrix(init, w) && Independent(init, w)
  {
    forall k | 0 <= k < |init|
      ensures init[k] !in RowSpace(init[..k], w)
    {
      assert init[..k] == rows[..k];
    }
  }

  lemma NewRowDoubles(init: seq<Row>, w: nat, last: Row)
    requires Matrix(init, w) && |last| == w && last !in RowSpace(init, w)
    ensures RowSpace(init, w) !! Shifted(RowSpace(init, w), last)
    ensures |RowSpace(init, w) + Shifted(RowSpace(init, w), last)| == |RowSpace(init, w)| + |Shifted(RowSpace(init, w), last)|
  {
    var before := RowSpace(init, w);
    forall u | u in before && Add(u, last) in before
      ensures false
    {
      Closed(init, w, u, Add(u, last));
      AddTwice(u, last);
    }
  }

  /** All-zero rows add nothing. */
  lemma {:induction false} ZeroRows(rows: seq<Row>, w: nat, r: nat)
    requires Matrix(rows, w) && r <= |rows| && forall k :: r <= k < |rows| ==> rows[k] == Zero(w)
    ensures RowSpace(rows, w) == RowSpace(rows[..r], w)
    decreases |rows|
  {
    if r < |rows| {
      var init := rows[..|rows| - 1];
      ZeroRows(init, w, r);
      assert init[..r] == rows[..r];
      forall v | v in RowSpace(init, w)
        ensures Add(v, Zero(w)) == v
      {
        AddLaws(v, v, v);
      }
      assert Shifted(RowSpace(init, w), Zero(w)) == RowSpace(init, w);
    } else {
      assert rows[..r] == rows;
    }
  }

  // ----- Elimination -----

  /** Row `i` alone has a one in its pivot column. */
  ghost predicate PivotColumns(rows: seq<Row>, w: nat, pivots: seq<nat>) {
    && Matrix(rows, w) && (forall i :: 0 <= i < |pivots| ==> pivots[i] < w)
    && forall i, k :: 0 <= i < |pivots| && 0 <= k < |rows| ==> (rows[k][pivots[i]] <==> k == i)
  }

  /** Rows from `rank` on are zero before column `col`. */
  ghost predicate ZeroBefore(rows: seq<Row>, w: nat, rank: nat, col: nat) {
    Matrix(rows, w) && col <= w && forall k, j :: rank <= k < |rows| && 0 <= j < col ==> !rows[k][j]
  }

  ghost predicate Reduced(rows: seq<Row>, w: nat, rank: nat, col: nat, pivots: seq<nat>) {
    && PivotColumns(rows, w, pivots) && ZeroBefore(rows, w, rank, col)
    && rank == |pivots| <= |rows| && forall i :: 0 <= i < |pivots| ==> pivots[i] < col
  }

  lemma {:induction false} ColumnClear(rows: seq<Row>, w: nat, j: nat, v: Row)
    requires Matrix(rows, w) && j < w && (forall k :: 0 <= k < |rows| ==> !rows[k][j]) && v in RowSpace(rows, w)
    ensures !v[j]
    decreases |rows|
  {
    if rows != [] {
      var u, plus := Cases(rows, w, v);
      ColumnClear(rows[..|rows| - 1], w, j, u);
    }
  }

  lemma ReducedIndependent(rows: seq<Row>, w: nat, rank: nat, pivots: seq<nat>)
    requires Reduced(rows, w, rank, w, pivots)
    ensures Matrix(rows[..rank], w) && Independent(rows[..rank], w)
    ensures forall k :: rank <= k < |rows| ==> rows[k] == Zero(w)
  {
    var top := rows[..rank];
    forall k | 0 <= k < |top|
      ensures top[k] !in RowSpace(top[..k], w)
    {
      if top[k] in RowSpace(top[..k], w) {
        ColumnClear(top[..k], w, pivots[k], top[k]);
      }
    }
  }

  /** Adding row `rank` to every other row with a one in `col`. */
  ghost predicate Cleared(rows: seq<Row>, rows': seq<Row>, w: nat, rank: nat, col: nat) {
    && Matrix(rows, w) && |rows'| == |rows| && rank < |rows| && col < w
    && forall k :: 0 <= k < |rows| ==> rows'[k] == if k != rank && rows[k][col] then Add(rows[k], rows[rank]) else rows[k]
  }

  lemma ClearingKeepsSpace(rows: seq<Row>, rows': seq<Row>, w: nat, rank: nat, col: nat)
    requires Cleared(rows, rows', w, rank, col)
    ensures Matrix(rows', w) && RowSpace(rows', w) == RowSpace(rows, w)
  {
    forall k | 0 <= k < |rows|
      ensures rows'[k] in RowSpace(rows, w)
    {
      RowInside(rows, w, k);
      RowInside(rows, w, rank);
      Closed(rows, w, rows[k], rows[rank]);
    }
    SpanWithin(rows', rows, w);
    forall k | 0 <= k < |rows|
      ensures rows[k] in RowSpace(rows', w)
    {
      RowInside(rows', w, k);
      RowInside(rows', w, rank);
      Closed(rows', w, rows'[k], rows'[rank]);
      AddLaws(rows[k], rows[rank], rows[rank]);
    }
    SpanWithin(rows, rows', w);
  }

  lemma SwapKeepsSpace(rows: seq<Row>, rows': seq<Row>, w: nat, a: nat, b: nat)
    requires Matrix(rows, w) && a < |rows| && b < |rows| && rows' == rows[a := rows[b]][b := rows[a]]
    ensures Matrix(rows', w) && RowSpace(rows', w) == RowSpace(rows, w)
  {
    forall k | 0 <= k < |rows|
      ensures rows'[k] in RowSpace(rows, w)
    {
      RowInside(rows, w, if k == a then b else if k == b then a else k);
    }
    SpanWithin(rows', rows, w);
    forall k | 0 <= k < |rows|
      ensures rows[k] in RowSpace(rows', w)
    {
      RowInside(rows', w, if k == a then b else if k == b then a else k);
    }
    SpanWithin(rows, rows', w);
  }

  /** A pivot in column `col` extends the reduced form by one row. */
  lemma PivotStep(rows: seq<Row>, rows': seq<Row>, w: nat, rank: nat, col: nat, pivots: seq<nat>)
    requires Reduced(rows, w, rank, col, pivots) && col < w && rank < |rows| && rows[rank][col]
    requires Cleared(rows, rows', w, rank, col)
    ensures Reduced(rows', w, rank + 1, col + 1, pivots + [col])
  {
    ClearingKeepsSpace(rows, rows', w, rank, col);
    NewPivotColumns(rows, rows', w, rank, col, pivots);
    NewZeros(rows, rows', w, rank, col);
  }

  lemma NewPivotColumns(rows: seq<Row>, rows': seq<Row>, w: nat, rank: nat, col: nat, pivots: seq<nat>)
    requires PivotColumns(rows, w, pivots) && rank == |pivots| && Cleared(rows, rows', w, rank, col) && rows[rank][col]
    requires Matrix(rows', w)
    ensures PivotColumns(rows', w, pivots + [col])
  {
    var pivots' := pivots + [col];
    forall i, k | 0 <= i < |pivots'| && 0 <= k < |rows|
      ensures rows'[k][pivots'[i]] <==> k == i
    {
      ClearedBit(rows, rows', w, rank, col, k, pivots'[i]);
    }
  }

  lemma NewZeros(rows: seq<Row>, rows': seq<Row>, w: nat, rank: nat, col: nat)
    requires ZeroBefore(rows, w, rank, col) && Cleared(rows, rows', w, rank, col) && rows[rank][col]
    requires Matrix(rows', w)
    ensures ZeroBefore(rows', w, rank + 1, col + 1)
  {
    var from, to := rank + 1, col + 1;
    forall k, j | from <= k < |rows| && 0 <= j < to
      ensures !rows'[k][j]
    {
      ClearedBit(rows, rows', w, rank, col, k, j);
    }
  }

  /** Without a pivot the column is already zero below. */
  lemma NoPivot(rows: seq<Row>, w: nat, rank: nat, col: nat, pivots: seq<nat>)
    requires Reduced(rows, w, rank, col, pivots) && col < w && forall k :: rank <= k < |rows| ==> !rows[k][col]
    ensures Reduced(rows, w, rank, col + 1, pivots)
  {
  }

  lemma ClearedBit(rows: seq<Row>, rows': seq<Row>, w: nat, rank: nat, col: nat, k: nat, j: nat)
    requires Cleared(rows, rows', w, rank, col) && k < |rows| && j < w
    ensures |rows'[k]| == w && rows'[k][j] == (rows[k][j] != (k != rank && rows[k][col] && rows[rank][j]))
  {
  }

  lemma SwapKeepsReduced(rows: seq<Row>, rows': seq<Row>, w: nat, rank: nat, p: nat, col: nat, pivots: seq<nat>)
    requires Reduced(rows, w, rank, col, pivots) && rank <= p < |rows|
    requires rows' == rows[rank := rows[p]][p := rows[rank]]
    ensures Reduced(rows', w, rank, col, pivots)
  {
  }

  /** The first row at or below `rank` with a one in `col`. */
  method FindPivot(mat: array<Row>, rank: nat, col: nat, w: nat) returns (p: nat)
    requires rank <= mat.Length && col < w && Matrix(mat[..], w)
    ensures rank <= p <= mat.Length && (p < mat.Length ==> mat[p][col])
    ensures forall k :: rank <= k < p ==> !mat[k][col]
  {
    p := rank;
    while p < mat.Length && !mat[p][col]
      invariant rank <= p <= mat.Length
      invariant forall k :: rank <= k < p ==> !mat[k][col]
    {
      p := p + 1;
    }
  }

  method ClearColumn(mat: array<Row>, rank: nat, col: nat, w: nat)
    requires rank < mat.Length && col < w && Matrix(mat[..], w)
    modifies mat
    ensures Cleared(old(mat[..]), mat[..], w, rank, col)
  {
    ghost var was := mat[..];
    for r := 0 to mat.Length
      invariant forall k :: 0 <= k < r ==> mat[k] == if k != rank && was[k][col] then Add(was[k], was[rank]) else was[k]
      invariant forall k :: r <= k < mat.Length ==> mat[k] == was[k]
      invariant mat[rank] == was[rank]
    {
      if r != rank && mat[r][col] {
        mat[r] := Add(mat[r], mat[rank]);
      }
    }
  }

  /** The dimension of the row space, which elimination leaves unchanged. */
  method Gf2Rank(mat: array<Row>, w: nat) returns (rank: nat)
    requires Matrix(mat[..], w)
    modifies mat
    ensures Matrix(mat[..], w) && RowSpace(mat[..], w) == RowSpace(old(mat[..]), w)
    ensures |RowSpace(old(mat[..]), w)| == Pow2(rank)
    ensures rank <= mat.Length && Independent(mat[..rank], w)
    ensures forall k :: rank <= k < mat.Length ==> mat[k] == Zero(w)
  {
    rank := 0;
    ghost var pivots: seq<nat> := [];
    ghost var space := RowSpace(mat[..], w);
    for col := 0 to w
      invariant Reduced(mat[..], w, rank, col, pivots)
      invariant RowSpace(mat[..], w) == space
    {
      var p := FindPivot(mat, rank, col, w);
      if p < mat.Length {
        UsePivot(mat, rank, p, col, w, pivots);
        pivots := pivots + [col];
        rank := rank + 1;
      } else {
        NoPivot(mat[..], w, rank, col, pivots);
      }
    }
    RankIsDimension(mat[..], w, rank, pivots);
    assert mat[..][..rank] == mat[..rank];
  }

  /** Swap the pivot row up and clear its column. */
  method UsePivot(mat: array<Row>, rank: nat, p: nat, col: nat, w: nat, ghost pivots: seq<nat>)
    requires Reduced(mat[..], w, rank, col, pivots) && col < w && rank <= p < mat.Length && mat[p][col]
    modifies mat
    ensures Reduced(mat[..], w, rank + 1, col + 1, pivots + [col])
    ensures RowSpace(mat[..], w) == RowSpace(old(mat[..]), w)
  {
    ghost var before := mat[..];
    mat[rank], mat[p] := mat[p], mat[rank];
    SwapKeepsSpace(before, mat[..], w, rank, p);
    SwapKeepsReduced(before, mat[..], w, rank, p, col, pivots);
    ghost var swapped := mat[..];
    ClearColumn(mat, rank, col, w);
    ClearingKeepsSpace(swapped, mat[..], w, rank, col);
    PivotStep(swapped, mat[..], w, rank, col, pivots);
  }

  lemma RankIsDimension(rows: seq<Row>, w: nat, rank: nat, pivots: seq<nat>)
    requires Reduced(rows, w, rank, w, pivots)
    ensures Independent(rows[..rank], w) && |RowSpace(rows, w)| == Pow2(rank)
    ensures forall k :: rank <= k < |rows| ==> rows[k] == Zero(w)
  {
    ReducedIndependent(rows, w, rank, pivots);
    ZeroRows(rows, w, rank);
    IndependentSize(rows[..rank], w);
  }
}
