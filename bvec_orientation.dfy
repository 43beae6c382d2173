/**
 The b-vector table as `np.loadtxt` hands it over, and its orientation into
 one row per vector component and one column per volume.

 A table is either one-dimensional (the file held a single line or a single
 column) or two-dimensional with an explicit shape. The column count is kept
 as a field so that a table with no rows still has a second dimension, as a
 numpy array of shape (0, 3) has.
 */
module BvecOrientation {

  /** A two-dimensional table of shape (|rows|, cols). */
  datatype Matrix = Matrix(rows: seq<seq<real>>, cols: nat) {
    ghost predicate Valid() {
      forall r :: 0 <= r < |rows| ==> |rows[r]| == cols
    }
  }

  datatype BvecTable = Flat(values: seq<real>) | TwoD(grid: Matrix)

  /**
   What the orientation step accepts without numpy raising: a rectangular
   table, or a flat one whose length splits into three equal rows.
   */
  ghost predicate Loadable(t: BvecTable) {
    match t
    case Flat(values) => |values| % 3 == 0
    case TwoD(grid) => grid.Valid()
  }

  /** `shape[0] != 3 and shape[1] == 3`: the table is stored one vector per row. */
  predicate ShouldTranspose(grid: Matrix) {
    |grid.rows| != 3 && grid.cols == 3
  }

  /** `reshape((3, -1))` of a one-dimensional array, row-major. */
  function ReshapeToThreeRows(values: seq<real>): (m: Matrix)
    requires |values| % 3 == 0
    ensures m.Valid() && |m.rows| == 3 && 3 * m.cols == |values|
  {
    var w := |values| / 3;
    Matrix([values[..w], values[w..2 * w], values[2 * w..]], w)
  }

  /** `.T` */
  function Transpose(m: Matrix): (t: Matrix)
    requires m.Valid()
    ensures t.Valid() && |t.rows| == m.cols && t.cols == |m.rows|
  {
    Matrix(seq(m.cols, i requires 0 <= i < m.cols => seq(|m.rows|, j requires 0 <= j < |m.rows| => m.rows[j][i])),
           |m.rows|)
  }

  /** The rows laid end to end: the inverse of the row-major reshape. */
  function Flatten(rows: seq<seq<real>>): seq<real> {
    if rows == [] then [] else rows[0] + Flatten(rows[1..])
  }

  /** The orientation step: reshape a flat table, transpose an N-by-3 one, keep anything else. */
  function Canonicalize(t: BvecTable): (m: Matrix)
    requires Loadable(t)
    ensures m.Valid()
    ensures t.Flat? ==> |m.rows| == 3 && 3 * m.cols == |t.values|
    ensures t.TwoD? && ShouldTranspose(t.grid) ==>
      && |m.rows| == 3 && m.cols == |t.grid.rows|
      && forall i, j :: 0 <= i < 3 && 0 <= j < m.cols ==> m.rows[i][j] == t.grid.rows[j][i]
    ensures t.TwoD? && !ShouldTranspose(t.grid) ==> m == t.grid
  {
    match t
    case Flat(values) => ReshapeToThreeRows(values)
    case TwoD(grid) => if ShouldTranspose(grid) then Transpose(grid) else grid
  }

  // ---------------------------------------------------------------------
  // Properties

  /** Element (r, c) of the reshaped table is `flat[r * M + c]`, with M = |flat| / 3. */
  lemma ReshapeIsRowMajor(values: seq<real>, r: nat, c: nat)
    requires |values| % 3 == 0
    requires r < 3 && c < |values| / 3
    ensures r * (|values| / 3) + c < |values|
    ensures ReshapeToThreeRows(values).rows[r][c] == values[r * (|values| / 3) + c]
  {
  }

  lemma FlattenThreeRows(rows: seq<seq<real>>)
    requires |rows| == 3
    ensures Flatten(rows) == rows[0] + rows[1] + rows[2]
  {
    assert Flatten(rows[2..]) == rows[2] + Flatten(rows[3..]);
    assert rows[1..][1..] == rows[2..] && rows[2..][1..] == rows[3..] == [];
    assert Flatten(rows[1..]) == rows[1] + Flatten(rows[2..]);
  }

  /** Laying the three reshaped rows end to end gives the flat table back. */
  lemma FlattenReshape(values: seq<real>)
    requires |values| % 3 == 0
    ensures Flatten(ReshapeToThreeRows(values).rows) == values
  {
    var w := |values| / 3;
    FlattenThreeRows(ReshapeToThreeRows(values).rows);
    assert values == values[..w] + values[w..2 * w] + values[2 * w..];
  }

  /** Reshaping the flattened rows of a three-row table gives the table back. */
  lemma ReshapeFlatten(m: Matrix)
    requires m.Valid() && |m.rows| == 3
    ensures |Flatten(m.rows)| % 3 == 0
    ensures ReshapeToThreeRows(Flatten(m.rows)) == m
  {
    var flat := Flatten(m.rows);
    FlattenThreeRows(m.rows);
    assert |flat| == 3 * m.cols;
    var back := ReshapeToThreeRows(flat);
    assert back.rows[0] == m.rows[0] && back.rows[1] == m.rows[1] && back.rows[2] == m.rows[2];
    assert back.rows == m.rows;
  }

  /** Transposing twice gives the table back, shape included. */
  lemma TransposeInvolutive(m: Matrix)
    requires m.Valid()
    ensures Transpose(Transpose(m)) == m
  {
    var tt := Transpose(Transpose(m));
    assert |tt.rows| == |m.rows|;
    forall j | 0 <= j < |m.rows| ensures tt.rows[j] == m.rows[j] {
      assert |tt.rows[j]| == m.cols;
    }
    assert tt.rows == m.rows;
  }

  /**
   A 3-by-N table with N != 3 comes out the same whether it was stored as
   3 rows, as N rows of 3, or as one flat line.
   */
  lemma OrientationsAgree(m: Matrix)
    requires m.Valid() && |m.rows| == 3 && m.cols != 3
    ensures Canonicalize(TwoD(m)) == m
    ensures Loadable(TwoD(Transpose(m))) && Canonicalize(TwoD(Transpose(m))) == m
    ensures Loadable(Flat(Flatten(m.rows))) && Canonicalize(Flat(Flatten(m.rows))) == m
  {
    TransposeInvolutive(m);
    ReshapeFlatten(m);
  }

  /**
   A 3-by-3 table is never transposed: read as it is even when the file
   held one vector per row.
   */
  lemma SquareTableNotTransposed(m: Matrix)
    requires m.Valid() && |m.rows| == 3 && m.cols == 3
    ensures Canonicalize(TwoD(m)) == m
    ensures Canonicalize(TwoD(Transpose(m))) == Transpose(m)
  {
  }

  /** The oriented table never has the one-vector-per-row shape, so orienting it again changes nothing. */
  lemma CanonicalIsFixedPoint(t: BvecTable)
    requires Loadable(t)
    ensures !ShouldTranspose(Canonicalize(t))
    ensures Canonicalize(TwoD(Canonicalize(t))) == Canonicalize(t)
  {
  }
}
