/**
 * The fixed layout of the numbers in a tab file: a property table is stored
 * column by column (temperature varies fastest), and the fluid header's
 * numbers are the pressure axis followed by the temperature axis, the
 * bubble-point pressures and the dew-point pressures.
 */
module Grid {

  /** np.zeros(n). */
  function Zeros(n: nat): (z: seq<real>)
    ensures |z| == n && forall k :: 0 <= k < n ==> z[k] == 0.0
  {
    seq(n, _ => 0.0)
  }

  /** Where the value of row j, column i lies in a stream stored column by column. */
  function Offset(rows: nat, i: nat, j: nat): nat
  {
    i * rows + j
  }

  lemma OffsetInside(rows: nat, cols: nat, i: nat, j: nat)
    requires i < cols && j < rows
    ensures Offset(rows, i, j) < rows * cols
  {
    assert i * rows + j < i * rows + rows == (i + 1) * rows;
    assert (i + 1) * rows <= cols * rows;
  }

  lemma OffsetStep(rows: nat, i: nat, j: nat)
    requires i > 0
    ensures Offset(rows, i, j) == rows + Offset(rows, i - 1, j)
  {
    assert i * rows == (i - 1) * rows + rows;
  }

  lemma OffsetDecode(rows: nat, k: nat)
    requires rows > 0
    ensures Offset(rows, k / rows, k % rows) == k
  {
  }

  lemma QuotientBound(k: nat, rows: nat, cols: nat)
    requires k < rows * cols
    ensures rows > 0 && k / rows < cols
  {
    assert (k / rows) * rows <= k;
  }

  lemma MulStep(a: nat, b: nat)
    requires b > 0
    ensures a * b == a + a * (b - 1)
  {
  }

  /** Cuts flat into cols consecutive blocks of rows values: the columns of the table. */
  function Columns(flat: seq<real>, rows: nat, cols: nat): (c: seq<seq<real>>)
    requires |flat| == rows * cols
    ensures |c| == cols
    ensures forall i :: 0 <= i < cols ==> |c[i]| == rows
    decreases cols
  {
    if cols == 0 then []
    else
      MulStep(rows, cols);
      [flat[..rows]] + Columns(flat[rows..], rows, cols - 1)
  }

  lemma {:induction false} ColumnsAt(flat: seq<real>, rows: nat, cols: nat, i: nat, j: nat)
    requires |flat| == rows * cols && i < cols && j < rows
    ensures Offset(rows, i, j) < |flat|
    ensures Columns(flat, rows, cols)[i][j] == flat[Offset(rows, i, j)]
    decreases cols
  {
    OffsetInside(rows, cols, i, j);
    MulStep(rows, cols);
    if i > 0 {
      ColumnsAt(flat[rows..], rows, cols - 1, i - 1, j);
      OffsetStep(rows, i, j);
    }
  }

  /**
   * np.reshape(flat, (rows, cols), order='F'): the table with rows rows and
   * cols columns whose first rows values fill column 0, the next rows values
   * column 1, and so on.
   */
  function Reshape(flat: seq<real>, rows: nat, cols: nat): (g: seq<seq<real>>)
    requires |flat| == rows * cols
    ensures |g| == rows
    ensures forall j :: 0 <= j < rows ==> |g[j]| == cols
    ensures forall j, i :: 0 <= j < rows && 0 <= i < cols ==>
      Offset(rows, i, j) < |flat| && g[j][i] == flat[Offset(rows, i, j)]
  {
    var c := Columns(flat, rows, cols);
    var g := seq(rows, j requires 0 <= j < rows => seq(cols, i requires 0 <= i < cols => c[i][j]));
    assert forall j, i :: 0 <= j < rows && 0 <= i < cols ==>
      Offset(rows, i, j) < |flat| && g[j][i] == flat[Offset(rows, i, j)] by {
      forall j, i | 0 <= j < rows && 0 <= i < cols
        ensures Offset(rows, i, j) < |flat| && g[j][i] == flat[Offset(rows, i, j)]
      {
        ColumnsAt(flat, rows, cols, i, j);
      }
    }
    g
  }

  /** Every row of g has cols entries. */
  predicate Shaped(g: seq<seq<real>>, cols: nat)
  {
    forall j :: 0 <= j < |g| ==> |g[j]| == cols
  }

  /** Column i of g, top to bottom. */
  function Column(g: seq<seq<real>>, cols: nat, i: nat): (c: seq<real>)
    requires Shaped(g, cols) && i < cols
    ensures |c| == |g|
  {
    seq(|g|, j requires 0 <= j < |g| => g[j][i])
  }

  /** Columns from..cols-1 of g, one after the other. */
  function SerializeFrom(g: seq<seq<real>>, cols: nat, from: nat): (s: seq<real>)
    requires Shaped(g, cols) && from <= cols
    decreases cols - from
  {
    if from == cols then [] else Column(g, cols, from) + SerializeFrom(g, cols, from + 1)
  }

  lemma {:induction false} SerializeFromLength(g: seq<seq<real>>, cols: nat, from: nat)
    requires Shaped(g, cols) && from <= cols
    ensures |SerializeFrom(g, cols, from)| == |g| * (cols - from)
    decreases cols - from
  {
    if from < cols {
      SerializeFromLength(g, cols, from + 1);
      MulStep(|g|, cols - from);
    }
  }

  lemma {:induction false} SerializeFromAt(g: seq<seq<real>>, cols: nat, from: nat, i: nat, j: nat)
    requires Shaped(g, cols) && from <= i < cols && j < |g|
    ensures |SerializeFrom(g, cols, from)| == |g| * (cols - from)
    ensures Offset(|g|, i - from, j) < |SerializeFrom(g, cols, from)|
    ensures SerializeFrom(g, cols, from)[Offset(|g|, i - from, j)] == g[j][i]
    decreases cols - from
  {
    SerializeFromLength(g, cols, from);
    OffsetInside(|g|, cols - from, i - from, j);
    if i > from {
      SerializeFromAt(g, cols, from + 1, i, j);
      OffsetStep(|g|, i - from, j);
    }
  }

  /** The table written back in the file's order: column by column. */
  function Serialize(g: seq<seq<real>>, cols: nat): (s: seq<real>)
    requires Shaped(g, cols)
    ensures |s| == |g| * cols
    ensures forall j, i :: 0 <= j < |g| && 0 <= i < cols ==>
      Offset(|g|, i, j) < |s| && s[Offset(|g|, i, j)] == g[j][i]
  {
    var s := SerializeFrom(g, cols, 0);
    SerializeFromLength(g, cols, 0);
    assert forall j, i :: 0 <= j < |g| && 0 <= i < cols ==>
      Offset(|g|, i, j) < |s| && s[Offset(|g|, i, j)] == g[j][i] by {
      forall j, i | 0 <= j < |g| && 0 <= i < cols
        ensures Offset(|g|, i, j) < |s| && s[Offset(|g|, i, j)] == g[j][i]
      {
        SerializeFromAt(g, cols, 0, i, j);
      }
    }
    s
  }

  /** Reading back a serialized table gives the table. */
  lemma ReshapeSerialize(g: seq<seq<real>>, cols: nat)
    requires Shaped(g, cols)
    ensures Reshape(Serialize(g, cols), |g|, cols) == g
  {
    var h := Reshape(Serialize(g, cols), |g|, cols);
    forall j | 0 <= j < |g| ensures h[j] == g[j] {
      assert forall i :: 0 <= i < cols ==> h[j][i] == g[j][i];
    }
  }

  /** Serializing a reshaped stream gives the stream. */
  lemma SerializeReshape(flat: seq<real>, rows: nat, cols: nat)
    requires |flat| == rows * cols
    ensures Serialize(Reshape(flat, rows, cols), cols) == flat
  {
    var g := Reshape(flat, rows, cols);
    var s := Serialize(g, cols);
    forall k | 0 <= k < |flat| ensures s[k] == flat[k] {
      var i, j := k / rows, k % rows;
      OffsetDecode(rows, k);
      QuotientBound(k, rows, cols);
      assert g[j][i] == flat[Offset(rows, i, j)];
    }
  }

  /** The four sequences of the fluid header's numeric stream. */
  datatype Axes = Axes(pp: seq<real>, tt: seq<real>, pbb: seq<real>, pdew: seq<real>)

  /**
   * Cuts the ntabp + 3 * ntabt header numbers into the pressure axis (ntabp
   * values) and the temperature axis, bubble-point and dew-point pressures
   * (ntabt values each), in that order.
   */
  function SplitAxes(data: seq<real>, ntabp: nat, ntabt: nat): (a: Axes)
    requires |data| == ntabp + 3 * ntabt
    ensures |a.pp| == ntabp && |a.tt| == ntabt && |a.pbb| == ntabt && |a.pdew| == ntabt
    ensures a.pp + a.tt + a.pbb + a.pdew == data
  {
    var a := Axes(data[..ntabp], data[ntabp..ntabp + ntabt],
                  data[ntabp + ntabt..ntabp + 2 * ntabt], data[ntabp + 2 * ntabt..ntabp + 3 * ntabt]);
    assert data == data[..ntabp] + data[ntabp..ntabp + ntabt]
                   + data[ntabp + ntabt..ntabp + 2 * ntabt] + data[ntabp + 2 * ntabt..];
    a
  }

  /** Splitting the concatenation of four sequences of the right lengths gives them back. */
  lemma SplitJoin(a: Axes)
    requires |a.tt| == |a.pbb| == |a.pdew|
    ensures SplitAxes(a.pp + a.tt + a.pbb + a.pdew, |a.pp|, |a.tt|) == a
  {
    var b := SplitAxes(a.pp + a.tt + a.pbb + a.pdew, |a.pp|, |a.tt|);
    assert b.pp + b.tt + b.pbb + b.pdew == a.pp + a.tt + a.pbb + a.pdew;
    assert b.pp == a.pp;
    assert b.tt == a.tt;
    assert b.pbb == a.pbb;
  }
}
