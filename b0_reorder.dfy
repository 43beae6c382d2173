/**
 The whole b=0 reordering transform on values already loaded: the image's
 volumes, the b-value list and the oriented b-vector table are permuted by
 the same `new_order`; the image's affine and header pass through.

 Loading and saving (NIfTI and text files) are outside the model: the
 transform starts from what `get_fdata` and `np.loadtxt` return and ends
 with what is handed to `Nifti1Image` and `np.savetxt`.
 */
module B0Reorder {
  import opened VolumeOrder
  import opened BvecOrientation

  /** A 4-D image as a sequence of 3-D volumes, with its spatial frame kept opaque. */
  datatype NiftiImage<V, A, H> = NiftiImage(volumes: seq<V>, affine: A, header: H)

  /** The three outputs of one run. */
  datatype Reordered<V, A, H> = Reordered(image: NiftiImage<V, A, H>, bvals: seq<real>, bvecs: Matrix)

  /** What one volume index refers to: its image volume, b-value and b-vector column. */
  datatype Acquisition<V> = Acquisition(volume: V, bval: real, bvec: seq<real>)

  /**
   Inputs on which numpy neither fails nor broadcasts: one volume, one b-value
   and one b-vector column per index. A single b-value loads as a
   0-dimensional array, which `bvals[new_order]` cannot index, so a series of
   exactly one volume is rejected.
   */
  ghost predicate Consistent<V, A, H>(img: NiftiImage<V, A, H>, bvals: seq<real>, table: BvecTable) {
    && |bvals| != 1
    && Loadable(table)
    && |img.volumes| == |bvals|
    && Canonicalize(table).cols == |bvals|
  }

  /** `bvecs[:, order]` */
  function GatherColumns(m: Matrix, order: seq<nat>): (g: Matrix)
    requires m.Valid() && InRange(order, m.cols)
    ensures g.Valid() && |g.rows| == |m.rows| && g.cols == |order|
  {
    Matrix(seq(|m.rows|, r requires 0 <= r < |m.rows| => Gather(m.rows[r], order)), |order|)
  }

  /** `bvecs[:, c]`: entry r of the column is entry c of row r. */
  function Column(m: Matrix, c: nat): (col: seq<real>)
    requires m.Valid() && c < m.cols
    ensures |col| == |m.rows|
    ensures forall r :: 0 <= r < |m.rows| ==> col[r] == m.rows[r][c]
  {
    seq(|m.rows|, r requires 0 <= r < |m.rows| => m.rows[r][c])
  }

  /** The acquisitions in volume order, one per index. */
  function Acquisitions<V, A, H>(img: NiftiImage<V, A, H>, bvals: seq<real>, bvecs: Matrix): seq<Acquisition<V>>
    requires |img.volumes| == |bvals| && bvecs.Valid() && bvecs.cols == |bvals|
  {
    seq(|bvals|, i requires 0 <= i < |bvals| => Acquisition(img.volumes[i], bvals[i], Column(bvecs, i)))
  }

  /**
   Orient the b-vectors, compute `new_order`, and index the image's volume
   axis, the b-values and the b-vector columns with it.
   */
  function Reorder<V, A, H>(img: NiftiImage<V, A, H>, bvals: seq<real>, table: BvecTable): (out: Reordered<V, A, H>)
    requires Consistent(img, bvals, table)
    ensures out.image.affine == img.affine && out.image.header == img.header
    ensures |out.image.volumes| == |bvals| && |out.bvals| == |bvals|
    ensures out.bvecs.Valid() && |out.bvecs.rows| == |Canonicalize(table).rows| && out.bvecs.cols == |bvals|
  {
    var bvecs := Canonicalize(table);
    var order := NewOrder(bvals);
    NewOrderIsPermutation(bvals);
    Reordered(NiftiImage(Gather(img.volumes, order), img.affine, img.header),
              Gather(bvals, order),
              GatherColumns(bvecs, order))
  }

  // ---------------------------------------------------------------------
  // Properties

  lemma ColumnOfGather(m: Matrix, order: seq<nat>, k: nat)
    requires m.Valid() && InRange(order, m.cols) && k < |order|
    ensures Column(GatherColumns(m, order), k) == Column(m, order[k])
  {
  }

  /**
   Output position k of the image, the b-values and the b-vectors all come
   from the same original acquisition, `new_order[k]`.
   */
  lemma Alignment<V, A, H>(img: NiftiImage<V, A, H>, bvals: seq<real>, table: BvecTable)
    requires Consistent(img, bvals, table)
    ensures InRange(NewOrder(bvals), |bvals|)
    ensures var out := Reorder(img, bvals, table);
      Acquisitions(out.image, out.bvals, out.bvecs) == Gather(Acquisitions(img, bvals, Canonicalize(table)), NewOrder(bvals))
  {
    NewOrderIsPermutation(bvals);
    var out := Reorder(img, bvals, table);
    var order := NewOrder(bvals);
    var m := Canonicalize(table);
    var after := Acquisitions(out.image, out.bvals, out.bvecs);
    var before := Gather(Acquisitions(img, bvals, m), order);
    forall k | 0 <= k < |bvals| ensures after[k] == before[k] {
      ColumnOfGather(m, order, k);
    }
  }

  /** Reordering moves acquisitions and b-values without adding, losing or altering any. */
  lemma AcquisitionsPreserved<V, A, H>(img: NiftiImage<V, A, H>, bvals: seq<real>, table: BvecTable)
    requires Consistent(img, bvals, table)
    ensures var out := Reorder(img, bvals, table);
      && multiset(Acquisitions(out.image, out.bvals, out.bvecs)) == multiset(Acquisitions(img, bvals, Canonicalize(table)))
      && multiset(out.bvals) == multiset(bvals)
      && multiset(out.image.volumes) == multiset(img.volumes)
  {
    Alignment(img, bvals, table);
    GatherNewOrderMultiset(Acquisitions(img, bvals, Canonicalize(table)), bvals);
    GatherNewOrderMultiset(bvals, bvals);
    GatherNewOrderMultiset(img.volumes, bvals);
  }

  lemma GatherColumnsIdentity(m: Matrix)
    requires m.Valid()
    ensures InRange(Identity(m.cols), m.cols)
    ensures GatherColumns(m, Identity(m.cols)) == m
  {
    var g := GatherColumns(m, Identity(m.cols));
    forall r | 0 <= r < |m.rows| ensures g.rows[r] == m.rows[r] {
      GatherIdentity(m.rows[r]);
    }
  }

  /** Input that already has every baseline first passes through unchanged. */
  lemma PartitionedInputUnchanged<V, A, H>(img: NiftiImage<V, A, H>, bvals: seq<real>, table: BvecTable)
    requires Consistent(img, bvals, table) && IsPartitioned(bvals)
    ensures Reorder(img, bvals, table) == Reordered(img, bvals, Canonicalize(table))
  {
    PartitionedKeepsOrder(bvals);
    GatherIdentity(img.volumes);
    GatherIdentity(bvals);
    GatherColumnsIdentity(Canonicalize(table));
  }

  /** Running the transform on its own output (b-vectors read back as a 2-D table) is a no-op. */
  lemma ReorderIdempotent<V, A, H>(img: NiftiImage<V, A, H>, bvals: seq<real>, table: BvecTable)
    requires Consistent(img, bvals, table)
    ensures var out := Reorder(img, bvals, table);
      && Consistent(out.image, out.bvals, TwoD(out.bvecs))
      && Reorder(out.image, out.bvals, TwoD(out.bvecs)) == out
  {
    var out := Reorder(img, bvals, table);
    CanonicalIsFixedPoint(table);
    assert !ShouldTranspose(out.bvecs);
    ReorderedIsPartitioned(bvals);
    PartitionedInputUnchanged(out.image, out.bvals, TwoD(out.bvecs));
  }

  /**
   The worked example: the b-values [0, 1000, 0, 1000, 1000] are written as
   [0, 0, 1000, 1000, 1000]. As in `WorkedExample`, the b-values are a
   parameter fixed by the requires clause rather than a literal.
   */
  lemma WorkedExampleBvals<V, A, H>(img: NiftiImage<V, A, H>, bvals: seq<real>, table: BvecTable)
    requires Consistent(img, bvals, table)
    requires bvals == [0.0, 1000.0, 0.0, 1000.0, 1000.0]
    ensures Reorder(img, bvals, table).bvals == [0.0, 0.0, 1000.0, 1000.0, 1000.0]
  {
    WorkedExample(bvals);
  }
}
