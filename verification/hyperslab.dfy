/** Selections along the frame axis of an HDF5 dataset, as `create_interleave_vds`
    uses them: `h5py.MultiBlockSlice(start, stride, count, block)` and plain
    slices `lo:hi`. A selection lists its indices in increasing order; a
    virtual-dataset mapping pairs the `r`-th index of the target selection with
    the `r`-th index of the source selection. */
module Hyperslab {
  import opened Arith

  datatype Selection =
    | MultiBlock(start: nat, stride: nat, count: nat, block: nat)
    | Slice(lo: nat, hi: nat)
  {
    /** Blocks of a multi-block selection do not overlap. */
    predicate Valid()
    {
      MultiBlock? ==> block <= stride
    }

    /** Number of indices selected; a slice with `lo > hi` is empty, as in Python. */
    function Size(): nat
    {
      match this
      case MultiBlock(_, _, count, block) => count * block
      case Slice(lo, hi) => if lo <= hi then hi - lo else 0
    }

    /** The `r`-th selected index. */
    function Element(r: nat): nat
      requires r < Size()
    {
      match this
      case MultiBlock(start, stride, count, block) =>
        MulPositive(count, block);
        MulMonotone(0, r / block, stride);
        start + r / block * stride + r % block
      case Slice(lo, _) => lo + r
    }

    /** Whether index `x` is selected. */
    predicate Selects(x: nat)
    {
      match this
      case MultiBlock(start, stride, count, block) =>
        start <= x && stride > 0 && (x - start) / stride < count && (x - start) % stride < block
      case Slice(lo, hi) => lo <= x < hi
    }

    /** The position of a selected index among the selected indices. */
    function IndexOf(x: nat): nat
      requires Selects(x)
    {
      match this
      case MultiBlock(start, stride, _, block) =>
        MulMonotone(0, (x - start) / stride, block);
        (x - start) / stride * block + (x - start) % stride
      case Slice(lo, _) => x - lo
    }
  }

  /** Every listed index is selected, at the position it is listed. */
  lemma ElementSelected(sel: Selection, r: nat)
    requires sel.Valid() && r < sel.Size()
    ensures sel.Selects(sel.Element(r))
    ensures sel.IndexOf(sel.Element(r)) == r
  {
    if sel.MultiBlock? {
      var q, o := r / sel.block, r % sel.block;
      assert r == q * sel.block + o;
      LexLess(q, o, sel.count, 0, sel.block);
      DivModOf(q, o, sel.stride);
    }
  }

  /** Every selected index is listed, at its position. */
  lemma IndexOfSelected(sel: Selection, x: nat)
    requires sel.Valid() && sel.Selects(x)
    ensures sel.IndexOf(x) < sel.Size()
    ensures sel.Element(sel.IndexOf(x)) == x
  {
    if sel.MultiBlock? {
      var d := x - sel.start;
      var q, o := d / sel.stride, d % sel.stride;
      assert d == q * sel.stride + o;
      LexLess(q, o, sel.count, 0, sel.block);
      DivModOf(q, o, sel.block);
    }
  }

  /** Indices are listed in strictly increasing order. */
  lemma ElementIncreasing(sel: Selection, r: nat, r': nat)
    requires sel.Valid() && r < r' < sel.Size()
    ensures sel.Element(r) < sel.Element(r')
  {
    if sel.MultiBlock? {
      var b := sel.block;
      var q, o, q', o' := r / b, r % b, r' / b, r' % b;
      assert r == q * b + o && r' == q' * b + o';
      LexLess(q', o', q, o, b);
      if q < q' {
        MulMonotone(q + 1, q', sel.stride);
        assert (q + 1) * sel.stride == q * sel.stride + sel.stride;
      }
    }
  }
}
