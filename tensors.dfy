/**
  * The tensors the converter handles: 0-dimensional scalars (the alpha values) and
  * 2-dimensional matrices (the LoRA factors), with elements modelled as reals.
  * Provides what the merge needs: shapes, the zero-filled block-diagonal factor
  * built in place, row-wise concatenation, scaling by a constant and Python's
  * truth value of a tensor.
  */
module Tensors {
  import opened Wrappers

  datatype RawTensor =
    | Scalar(value: real)
    | Matrix(cols: nat, cells: seq<seq<real>>)

  /** Every row of a matrix has `cols` entries; a matrix with no rows still has a width. */
  predicate Rectangular(x: RawTensor) {
    x.Matrix? ==> forall i :: 0 <= i < |x.cells| ==> |x.cells[i]| == x.cols
  }

  type Tensor = t: RawTensor | Rectangular(t) witness Scalar(0.0)

  /** Both are matrices of the same shape (rows, cols). */
  predicate SameShape(a: Tensor, b: Tensor) {
    a.Matrix? && b.Matrix? && |a.cells| == |b.cells| && a.cols == b.cols
  }

  function Zeros(n: nat): (r: seq<real>)
    ensures |r| == n && forall j | 0 <= j < n :: r[j] == 0.0
  {
    seq(n, j => 0.0)
  }

  /** An all-zero grid of `rows` rows and `cols` columns (`torch.zeros(rows, cols)`). */
  function ZeroGrid(rows: nat, cols: nat): (g: seq<seq<real>>)
    ensures |g| == rows && forall i :: 0 <= i < rows ==> g[i] == Zeros(cols)
  {
    seq(rows, i => Zeros(cols))
  }

  /** Each row of `m` with `left` zeros in front and `right` zeros behind. */
  function PadRows(m: seq<seq<real>>, left: nat, right: nat): (p: seq<seq<real>>)
    ensures |p| == |m| && forall i :: 0 <= i < |m| ==> |p[i]| == left + |m[i]| + right
    ensures forall i, j :: 0 <= i < |m| && 0 <= j < left + |m[i]| + right ==>
      p[i][j] == if left <= j < left + |m[i]| then m[i][j - left] else 0.0
  {
    seq(|m|, i requires 0 <= i < |m| => PadRow(m[i], left, right))
  }

  /** `row` with `left` zeros in front and `right` zeros behind. */
  function PadRow(row: seq<real>, left: nat, right: nat): (p: seq<real>)
    ensures |p| == left + |row| + right
    ensures forall j :: 0 <= j < |p| ==> p[j] == if left <= j < left + |row| then row[j - left] else 0.0
  {
    Zeros(left) + row + Zeros(right)
  }

  /** Entry (i, j) of a (3h, 3r) matrix lies in one of the three diagonal (h, r) blocks. */
  predicate OnDiagonalBlock(i: int, j: int, h: nat, r: nat) {
    || (0 <= i < h && 0 <= j < r)
    || (h <= i < 2 * h && r <= j < 2 * r)
    || (2 * h <= i < 3 * h && 2 * r <= j < 3 * r)
  }

  /**
    * The fused up-projection factor: q, k and v (each of shape (h, r)) stacked
    * along the diagonal of a (3h, 3r) matrix, every other entry zero.
    */
  function BlockDiagonal(q: Tensor, k: Tensor, v: Tensor): (b: Tensor)
    requires q.Matrix? && SameShape(k, q) && SameShape(v, q)
    ensures b.Matrix? && |b.cells| == 3 * |q.cells| && b.cols == 3 * q.cols
    ensures forall i, j :: 0 <= i < |q.cells| && 0 <= j < q.cols ==> b.cells[i][j] == q.cells[i][j]
    ensures forall i, j :: 0 <= i < |q.cells| && 0 <= j < q.cols ==> b.cells[|q.cells| + i][q.cols + j] == k.cells[i][j]
    ensures forall i, j :: 0 <= i < |q.cells| && 0 <= j < q.cols ==> b.cells[2 * |q.cells| + i][2 * q.cols + j] == v.cells[i][j]
    ensures forall i, j :: 0 <= i < 3 * |q.cells| && 0 <= j < 3 * q.cols && !OnDiagonalBlock(i, j, |q.cells|, q.cols) ==>
      b.cells[i][j] == 0.0
  {
    var h, r := |q.cells|, q.cols;
    var top, mid, bottom := PadRows(q.cells, 0, 2 * r), PadRows(k.cells, r, r), PadRows(v.cells, 2 * r, 0);
    var cells := top + mid + bottom;
    assert forall i :: 0 <= i < h ==> cells[i] == top[i] && cells[h + i] == mid[i] && cells[2 * h + i] == bottom[i];
    Matrix(3 * r, cells)
  }

  /** `torch.cat([a, b, c], dim=0)`: the rows of a, then of b, then of c. */
  function ConcatRows(a: Tensor, b: Tensor, c: Tensor): (m: Tensor)
    requires a.Matrix? && b.Matrix? && c.Matrix? && b.cols == a.cols && c.cols == a.cols
    ensures m.Matrix? && m.cols == a.cols
    ensures |m.cells| == |a.cells| + |b.cells| + |c.cells|
    ensures m.cells[..|a.cells|] == a.cells
    ensures m.cells[|a.cells|..|a.cells| + |b.cells|] == b.cells
    ensures m.cells[|a.cells| + |b.cells|..] == c.cells
  {
    Matrix(a.cols, a.cells + b.cells + c.cells)
  }

  /** `t * c`: every element multiplied by the constant, the shape kept. */
  function Scale(t: Tensor, c: real): (r: Tensor)
    ensures r.Scalar? <==> t.Scalar?
    ensures t.Scalar? ==> r.value == c * t.value
    ensures t.Matrix? ==> r.cols == t.cols && |r.cells| == |t.cells|
    ensures t.Matrix? ==> forall i, j | 0 <= i < |t.cells| && 0 <= j < t.cols :: r.cells[i][j] == c * t.cells[i][j]
  {
    match t
    case Scalar(x) => Scalar(c * x)
    case Matrix(n, m) =>
      Matrix(n, seq(|m|, i requires 0 <= i < |m| => seq(n, j requires 0 <= j < n => c * m[i][j])))
  }

  /**
    * Whether torch's broadcasting fits `t` into an h-by-r block: a scalar always
    * does; a matrix does when each of its dimensions equals the block's or is 1.
    */
  predicate BroadcastsTo(t: Tensor, h: nat, r: nat) {
    t.Scalar? || ((|t.cells| == h || |t.cells| == 1) && (t.cols == r || t.cols == 1))
  }

  /** `t` stretched to an h-by-r block: a dimension of size 1 is repeated along the block. */
  function Broadcast(t: Tensor, h: nat, r: nat): (b: Tensor)
    requires BroadcastsTo(t, h, r)
    ensures b.Matrix? && |b.cells| == h && b.cols == r
    ensures t.Scalar? ==> forall i, j :: 0 <= i < h && 0 <= j < r ==> b.cells[i][j] == t.value
    ensures t.Matrix? ==> forall i, j :: 0 <= i < h && 0 <= j < r ==>
      b.cells[i][j] == t.cells[if |t.cells| == 1 then 0 else i][if t.cols == 1 then 0 else j]
  {
    Matrix(r, seq(h, i requires 0 <= i < h => BroadcastRow(t, h, r, i)))
  }

  /** Row `i` of `t` stretched to an h-by-r block. */
  function BroadcastRow(t: Tensor, h: nat, r: nat, i: nat): (row: seq<real>)
    requires BroadcastsTo(t, h, r) && i < h
    ensures |row| == r
    ensures t.Scalar? ==> forall j :: 0 <= j < r ==> row[j] == t.value
    ensures t.Matrix? ==> forall j :: 0 <= j < r ==>
      row[j] == t.cells[if |t.cells| == 1 then 0 else i][if t.cols == 1 then 0 else j]
  {
    match t
    case Scalar(x) => seq(r, j => x)
    case Matrix(n, m) =>
      var src := m[if |m| == 1 then 0 else i];
      seq(r, j requires 0 <= j < r => src[if n == 1 then 0 else j])
  }

  /** A matrix that already has the block's shape is placed unchanged. */
  lemma BroadcastOwnShape(t: Tensor)
    requires t.Matrix?
    ensures BroadcastsTo(t, |t.cells|, t.cols) && Broadcast(t, |t.cells|, t.cols) == t
  {
    var b := Broadcast(t, |t.cells|, t.cols);
    forall i | 0 <= i < |t.cells|
      ensures b.cells[i] == t.cells[i]
    {
      assert forall j :: 0 <= j < t.cols ==> b.cells[i][j] == t.cells[i][j];
    }
  }

  /**
    * Python's `bool(t)`: defined only for a tensor holding exactly one element, true
    * when that element is non-zero; None stands for the error any other tensor raises.
    */
  function Truth(t: Tensor): (b: Option<bool>)
    ensures b.Some? <==> t.Scalar? || (|t.cells| == 1 && t.cols == 1)
    ensures t.Scalar? ==> b == Some(t.value != 0.0)
    ensures t.Matrix? && b.Some? ==> b.value == (t.cells[0][0] != 0.0)
  {
    match t
    case Scalar(x) => Some(x != 0.0)
    case Matrix(n, m) => if |m| == 1 && n == 1 then Some(m[0][0] != 0.0) else None
  }

  /** The contents of a 2-dimensional array, row by row. */
  function Grid(a: array2<real>): (g: seq<seq<real>>)
    reads a
    ensures |g| == a.Length0 && forall i :: 0 <= i < a.Length0 ==> |g[i]| == a.Length1
    ensures forall i, j :: 0 <= i < a.Length0 && 0 <= j < a.Length1 ==> g[i][j] == a[i, j]
  {
    seq(a.Length0, i requires 0 <= i < a.Length0 reads a =>
      seq(a.Length1, j requires 0 <= j < a.Length1 reads a => a[i, j]))
  }

  /** `g` with the (|m|, cols) block whose top-left corner is (top, left) replaced by `m`. */
  function Overlay(g: seq<seq<real>>, m: seq<seq<real>>, cols: nat, top: nat, left: nat): (o: seq<seq<real>>)
    requires forall i :: 0 <= i < |m| ==> |m[i]| == cols
    ensures |o| == |g| && forall i :: 0 <= i < |g| ==> |o[i]| == |g[i]|
    ensures forall i, j :: 0 <= i < |g| && 0 <= j < |g[i]| ==>
      o[i][j] == if top <= i < top + |m| && left <= j < left + cols then m[i - top][j - left] else g[i][j]
  {
    seq(|g|, i requires 0 <= i < |g| =>
      seq(|g[i]|, j requires 0 <= j < |g[i]| =>
        if top <= i < top + |m| && left <= j < left + cols then m[i - top][j - left] else g[i][j]))
  }

  /** The slice assignment `a[top:top+h, left:left+cols] = m`, done in place. */
  method CopyBlock(a: array2<real>, m: seq<seq<real>>, cols: nat, top: nat, left: nat)
    requires forall i | 0 <= i < |m| :: |m[i]| == cols
    requires top + |m| <= a.Length0 && left + cols <= a.Length1
    modifies a
    ensures Grid(a) == Overlay(old(Grid(a)), m, cols, top, left)
  {
    ghost var before := Grid(a);
    for i := 0 to |m|
      invariant forall i', j | top <= i' < top + i && left <= j < left + cols :: a[i', j] == m[i' - top][j - left]
      invariant forall i', j | 0 <= i' < a.Length0 && 0 <= j < a.Length1 && !(top <= i' < top + i && left <= j < left + cols) ::
        a[i', j] == before[i'][j]
    {
      var row := top + i;
      for j := 0 to cols
        invariant forall i', j' | top <= i' < top + i && left <= j' < left + cols :: a[i', j'] == m[i' - top][j' - left]
        invariant forall j' | left <= j' < left + j :: a[row, j'] == m[i][j' - left]
        invariant forall i', j' | 0 <= i' < a.Length0 && 0 <= j' < a.Length1 && !(top <= i' < top + i && left <= j' < left + cols)
            && !(i' == row && left <= j' < left + j) ::
          a[i', j'] == before[i'][j']
      {
        a[row, left + j] := m[i][j];
      }
    }
    var after, expected := Grid(a), Overlay(before, m, cols, top, left);
    assert forall i :: 0 <= i < a.Length0 ==> after[i] == expected[i];
  }

  /** A zero (3h, 3r) grid with q, then k, then v copied onto its diagonal blocks. */
  function DiagonalOverlay(q: Tensor, k: Tensor, v: Tensor): (o: seq<seq<real>>)
    requires q.Matrix? && SameShape(k, q) && SameShape(v, q)
    ensures |o| == 3 * |q.cells| && forall i :: 0 <= i < |o| ==> |o[i]| == 3 * q.cols
  {
    var h, r := |q.cells|, q.cols;
    Overlay(Overlay(Overlay(ZeroGrid(3 * h, 3 * r), q.cells, r, 0, 0), k.cells, r, h, r), v.cells, r, 2 * h, 2 * r)
  }

  /** Entry (i, j) of the block-diagonal factor, read off the block it falls in. */
  function DiagonalEntry(q: Tensor, k: Tensor, v: Tensor, i: nat, j: nat): real
    requires q.Matrix? && SameShape(k, q) && SameShape(v, q)
    requires i < 3 * |q.cells| && j < 3 * q.cols
  {
    var h, r := |q.cells|, q.cols;
    if 2 * h <= i && 2 * r <= j then v.cells[i - 2 * h][j - 2 * r]
    else if h <= i < 2 * h && r <= j < 2 * r then k.cells[i - h][j - r]
    else if i < h && j < r then q.cells[i][j]
    else 0.0
  }

  lemma BlockDiagonalAt(q: Tensor, k: Tensor, v: Tensor, i: nat, j: nat)
    requires q.Matrix? && SameShape(k, q) && SameShape(v, q)
    requires i < 3 * |q.cells| && j < 3 * q.cols
    ensures BlockDiagonal(q, k, v).cells[i][j] == DiagonalEntry(q, k, v, i, j)
  {
    var h, r := |q.cells|, q.cols;
    var d := BlockDiagonal(q, k, v);
    var top, mid, bottom := PadRows(q.cells, 0, 2 * r), PadRows(k.cells, r, r), PadRows(v.cells, 2 * r, 0);
    assert d.cells == top + mid + bottom;
    if i < h {
      assert d.cells[i] == top[i];
    } else if i < 2 * h {
      assert d.cells[i] == mid[i - h];
    } else {
      assert d.cells[i] == bottom[i - 2 * h];
    }
  }

  lemma DiagonalOverlayAt(q: Tensor, k: Tensor, v: Tensor, i: nat, j: nat)
    requires q.Matrix? && SameShape(k, q) && SameShape(v, q)
    requires i < 3 * |q.cells| && j < 3 * q.cols
    ensures DiagonalOverlay(q, k, v)[i][j] == BlockDiagonal(q, k, v).cells[i][j]
  {
    var h, r := |q.cells|, q.cols;
    var o1 := Overlay(ZeroGrid(3 * h, 3 * r), q.cells, r, 0, 0);
    var o2 := Overlay(o1, k.cells, r, h, r);
    var o := Overlay(o2, v.cells, r, 2 * h, 2 * r);
    assert o == DiagonalOverlay(q, k, v);
    assert |ZeroGrid(3 * h, 3 * r)[i]| == 3 * r;
    assert |o1[i]| == 3 * r && |o2[i]| == 3 * r;
    assert o1[i][j] == if i < h && j < r then q.cells[i][j] else 0.0;
    assert o2[i][j] == if h <= i < 2 * h && r <= j < 2 * r then k.cells[i - h][j - r] else o1[i][j];
    assert o[i][j] == if 2 * h <= i && 2 * r <= j then v.cells[i - 2 * h][j - 2 * r] else o2[i][j];
    BlockDiagonalAt(q, k, v, i, j);
  }

  /** Overlaying q, k and v on the diagonal of a zero (3h, 3r) grid gives the block-diagonal factor. */
  lemma DiagonalOverlayIsBlockDiagonal(q: Tensor, k: Tensor, v: Tensor)
    requires q.Matrix? && SameShape(k, q) && SameShape(v, q)
    ensures DiagonalOverlay(q, k, v) == BlockDiagonal(q, k, v).cells
  {
    var o, d := DiagonalOverlay(q, k, v), BlockDiagonal(q, k, v);
    forall i | 0 <= i < 3 * |q.cells|
      ensures o[i] == d.cells[i]
    {
      forall j | 0 <= j < 3 * q.cols
        ensures o[i][j] == d.cells[i][j]
      {
        DiagonalOverlayAt(q, k, v, i, j);
      }
    }
  }

  /**
    * The fused up-projection factor as the converter builds it: a (3h, 3r) array of
    * zeros into which q, k and v are copied block by block.
    */
  method FillBlockDiagonal(q: Tensor, k: Tensor, v: Tensor) returns (b: Tensor)
    requires q.Matrix? && SameShape(k, q) && SameShape(v, q)
    ensures b == BlockDiagonal(q, k, v)
  {
    var h, r := |q.cells|, q.cols;
    var a := new real[3 * h, 3 * r]((i, j) => 0.0);
    assert Grid(a) == ZeroGrid(3 * h, 3 * r) by {
      var g := Grid(a);
      assert forall i :: 0 <= i < 3 * h ==> g[i] == Zeros(3 * r);
    }
    CopyBlock(a, q.cells, r, 0, 0);
    CopyBlock(a, k.cells, r, h, r);
    CopyBlock(a, v.cells, r, 2 * h, 2 * r);
    DiagonalOverlayIsBlockDiagonal(q, k, v);
    b := Matrix(3 * r, Grid(a));
  }
}
