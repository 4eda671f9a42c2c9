/** Matrix transposition. A matrix with `cols` columns and `rows` rows is the
    sequence of its `cols` column vectors, each of `rows` scalars, so `m[j][i]`
    is the entry in column `j` and row `i`. */
module MatrixMath {

  /** `m` has `cols` columns of `rows` entries each. */
  predicate Shape<T>(m: seq<seq<T>>, cols: nat, rows: nat)
  {
    |m| == cols && forall j :: 0 <= j < |m| ==> |m[j]| == rows
  }

  /** The matrix flipped over its diagonal: column `i` of the result is row
      `i` of `m`. */
  function Transposed<T>(m: seq<seq<T>>, cols: nat, rows: nat): (r: seq<seq<T>>)
    requires Shape(m, cols, rows)
    ensures Shape(r, rows, cols)
    ensures forall i, j :: 0 <= i < rows && 0 <= j < cols ==> r[i][j] == m[j][i]
  {
    seq(rows, i requires 0 <= i < rows => seq(cols, j requires 0 <= j < cols => m[j][i]))
  }

  /** The generic `transpose`: for each row `i` of `m` a vector is filled
      with the entries of that row and stored as column `i` of the result. */
  method Transpose<T>(m: seq<seq<T>>, cols: nat, rows: nat) returns (r: seq<seq<T>>)
    requires Shape(m, cols, rows)
    ensures r == Transposed(m, cols, rows)
  {
    r := [];
    for i := 0 to rows
      invariant |r| == i
      invariant forall k :: 0 <= k < i ==> r[k] == Transposed(m, cols, rows)[k]
    {
      var v: seq<T> := [];
      for j := 0 to cols
        invariant |v| == j
        invariant forall k :: 0 <= k < j ==> v[k] == m[k][i]
      {
        v := v + [m[j][i]];
      }
      r := r + [v];
    }
  }

  /** The 3x3 overload, written out column by column. */
  function Transpose3<T>(m: seq<seq<T>>): (r: seq<seq<T>>)
    requires Shape(m, 3, 3)
    ensures Shape(r, 3, 3)
    ensures forall i, j :: 0 <= i < 3 && 0 <= j < 3 ==> r[i][j] == m[j][i]
  {
    [ [m[0][0], m[1][0], m[2][0]],
      [m[0][1], m[1][1], m[2][1]],
      [m[0][2], m[1][2], m[2][2]] ]
  }

  /** The value the 3x4 overload builds: four columns of three entries, the
      entries of each row of `m`. */
  function Transpose3x4Built<T>(m: seq<seq<T>>): (r: seq<seq<T>>)
    requires Shape(m, 3, 4)
    ensures Shape(r, 4, 3)
    ensures forall i, j :: 0 <= i < 4 && 0 <= j < 3 ==> r[i][j] == m[j][i]
  {
    [ [m[0][0], m[1][0], m[2][0]],
      [m[0][1], m[1][1], m[2][1]],
      [m[0][2], m[1][2], m[2][2]],
      [m[0][3], m[1][3], m[2][3]] ]
  }

  /** The 3x4 overload as declared: its result type promises a matrix of
      three columns of four rows, the shape of its argument. */
  predicate DeclaredShape3x4<T>(r: seq<seq<T>>)
  {
    Shape(r, 3, 4)
  }

  /** The 3x4 overload with its result type corrected to four columns of
      three rows: the generic transpose of a 3x4 matrix. */
  function Transpose3x4<T>(m: seq<seq<T>>): (r: seq<seq<T>>)
    requires Shape(m, 3, 4)
    ensures Shape(r, 4, 3)
    ensures r == Transposed(m, 3, 4)
  {
    var r := Transpose3x4Built(m);
    TransposedIs(m, 3, 4, r);
    r
  }

  /** The 4x4 overload, written out column by column. */
  function Transpose4<T>(m: seq<seq<T>>): (r: seq<seq<T>>)
    requires Shape(m, 4, 4)
    ensures Shape(r, 4, 4)
    ensures forall i, j :: 0 <= i < 4 && 0 <= j < 4 ==> r[i][j] == m[j][i]
  {
    [ [m[0][0], m[1][0], m[2][0], m[3][0]],
      [m[0][1], m[1][1], m[2][1], m[3][1]],
      [m[0][2], m[1][2], m[2][2], m[3][2]],
      [m[0][3], m[1][3], m[2][3], m[3][3]] ]
  }

  //---------------------------------------------------------------------------
  // Lemmas
  //---------------------------------------------------------------------------

  /** A matrix of the transposed shape with the transposed entries is the
      transpose. */
  lemma TransposedIs<T>(m: seq<seq<T>>, cols: nat, rows: nat, r: seq<seq<T>>)
    requires Shape(m, cols, rows) && Shape(r, rows, cols)
    requires forall i, j :: 0 <= i < rows && 0 <= j < cols ==> r[i][j] == m[j][i]
    ensures r == Transposed(m, cols, rows)
  {
    var t := Transposed(m, cols, rows);
    forall i | 0 <= i < rows ensures r[i] == t[i] {
      assert |r[i]| == |t[i]|;
    }
  }

  /** Transposing twice gives the matrix back. */
  lemma TransposeInvolution<T>(m: seq<seq<T>>, cols: nat, rows: nat)
    requires Shape(m, cols, rows)
    ensures Transposed(Transposed(m, cols, rows), rows, cols) == m
  {
    var t := Transposed(Transposed(m, cols, rows), rows, cols);
    forall j | 0 <= j < cols ensures t[j] == m[j] {
      assert |t[j]| == |m[j]|;
    }
  }

  /** The 3x3 overload agrees with the generic transpose. */
  lemma Transpose3Generic<T>(m: seq<seq<T>>)
    requires Shape(m, 3, 3)
    ensures Transpose3(m) == Transposed(m, 3, 3)
  {
    TransposedIs(m, 3, 3, Transpose3(m));
  }

  /** The 4x4 overload agrees with the generic transpose. */
  lemma Transpose4Generic<T>(m: seq<seq<T>>)
    requires Shape(m, 4, 4)
    ensures Transpose4(m) == Transposed(m, 4, 4)
  {
    TransposedIs(m, 4, 4, Transpose4(m));
  }

  /** The value the 3x4 overload builds never has the shape its declared
      result type promises. */
  lemma Transpose3x4DeclaredMismatch<T>(m: seq<seq<T>>)
    requires Shape(m, 3, 4)
    ensures !DeclaredShape3x4(Transpose3x4Built(m))
  {
  }
}
