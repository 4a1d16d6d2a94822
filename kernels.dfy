/** The forward and backward kernels of sequence pooling over packed row-major buffers.
    A buffer of rows x w values is an array2<real>, the same matrix view that the kernels build
    with EigenMatrix::From; sequence i is the block of rows [lod0[i], lod0[i+1]). */
module SequencePool {
  import opened LoDLayout
  import opened PoolPolicy

  // ---------------------------------------------------------------------------------------
  // Views of a buffer

  /** Column c of the rows [lo, hi) of a buffer: one column of one sequence's slice. */
  ghost function Column(x: array2<real>, lo: nat, hi: nat, c: nat): (col: seq<real>)
    requires lo <= hi <= x.Length0 && c < x.Length1
    reads x
    ensures |col| == hi - lo
    ensures forall j :: 0 <= j < hi - lo ==> col[j] == x[lo + j, c]
  {
    seq(hi - lo, j requires 0 <= j < hi - lo reads x => x[lo + j, c])
  }

  /** Row i of a buffer, as a vector of its w values. */
  function RowOf(a: array2<real>, i: nat): (row: seq<real>)
    requires i < a.Length0
    reads a
    ensures |row| == a.Length1
    ensures forall c :: 0 <= c < a.Length1 ==> row[c] == a[i, c]
  {
    seq(a.Length1, c requires 0 <= c < a.Length1 reads a => a[i, c])
  }

  /** Row i of a buffer divided elementwise by d. */
  function ScaledRow(a: array2<real>, i: nat, d: real): (row: seq<real>)
    requires i < a.Length0 && d != 0.0
    reads a
    ensures |row| == a.Length1
    ensures forall c :: 0 <= c < a.Length1 ==> row[c] * d == a[i, c]
  {
    seq(a.Length1, c requires 0 <= c < a.Length1 reads a => a[i, c] / d)
  }

  // ---------------------------------------------------------------------------------------
  // Column reductions

  /** The column sum of one sequence's slice (in_e.sum along dimension 0, one column). */
  method ColumnSum(x: array2<real>, lo: nat, hi: nat, c: nat) returns (s: real)
    requires lo <= hi <= x.Length0 && c < x.Length1
    ensures s == Total(Column(x, lo, hi, c))
  {
    ghost var col := Column(x, lo, hi, c);
    s := 0.0;
    var j := 0;
    while j < hi - lo
      invariant 0 <= j <= hi - lo
      invariant s == Total(col[..j])
    {
      assert col[..j + 1][..j] == col[..j];
      s := s + x[lo + j, c];
      j := j + 1;
    }
    assert col[..hi - lo] == col;
  }

  /** The row (relative to lo) and value of the maximum of one column of a slice, as
      maxCoeff(&row_id) reports it. A later row replaces the candidate only when strictly
      greater, so among equal maxima the first is reported. */
  method ColumnArgMax(x: array2<real>, lo: nat, hi: nat, c: nat) returns (row: nat, m: real)
    requires lo < hi <= x.Length0 && c < x.Length1
    ensures row == ArgMax(Column(x, lo, hi, c))
    ensures IsFirstMax(Column(x, lo, hi, c), row)
    ensures m == x[lo + row, c] && m == Maximum(Column(x, lo, hi, c))
  {
    ghost var col := Column(x, lo, hi, c);
    row, m := 0, x[lo, c];
    var j := 1;
    assert col[..1] == [col[0]];
    while j < hi - lo
      invariant 1 <= j <= hi - lo
      invariant row == ArgMax(col[..j]) && m == col[row]
    {
      assert col[..j + 1][..j] == col[..j];
      if x[lo + j, c] > m {
        row, m := j, x[lo + j, c];
      }
      j := j + 1;
    }
    assert col[..hi - lo] == col;
    ArgMaxIsFirstMax(col);
  }

  /** One output value of the forward kernel: the policy's reduction of one column of a slice. */
  method ReduceColumn(pool: PoolType, x: array2<real>, lo: nat, hi: nat, c: nat, sqrt: nat -> real)
    returns (v: real)
    requires lo <= hi <= x.Length0 && c < x.Length1
    requires ForwardDefined(pool, hi - lo, sqrt)
    ensures v == Pool(pool, Column(x, lo, hi, c), sqrt)
  {
    match pool
    case Average =>
      var s := ColumnSum(x, lo, hi, c);
      v := s / ((hi - lo) as real);
    case Sum =>
      v := ColumnSum(x, lo, hi, c);
    case Sqrt =>
      var s := ColumnSum(x, lo, hi, c);
      v := s / sqrt(hi - lo);
    case Max =>
      var _, s := ColumnArgMax(x, lo, hi, c);
      v := s;
    case Last =>
      v := x[hi - 1, c];
    case First =>
      v := x[lo, c];
  }

  // ---------------------------------------------------------------------------------------
  // Forward kernel

  /** What the caller guarantees about the slices for the forward kernel: each slice is
      ordered and, for a known policy, has a value (h >= 1 unless SUM; a positive root). */
  ghost predicate ForwardPoolable(p: PoolType, lod0: seq<nat>, sqrt: nat -> real) {
    !p.Unsupported? ==>
      forall i :: 0 <= i < |lod0| - 1 ==>
        lod0[i] <= lod0[i + 1] && ForwardDefined(p, lod0[i + 1] - lod0[i], sqrt)
  }

  /** SequencePoolKernel::Compute. The layout is checked first (one LoD level, no more
      sequences than rows), then one output row per sequence is written, and an unknown
      policy name fails when the first sequence is reached. */
  method Forward(x: array2<real>, lod: seq<seq<nat>>, pooltype: string, sqrt: nat -> real)
    returns (res: Result<array2<real>>)
    requires x.Length0 >= 1
    requires |lod| == 1 ==> |lod[0]| >= 1
    requires |lod| == 1 && |lod[0]| - 1 <= x.Length0 ==> ValidOffsets(lod[0], x.Length0)
    requires |lod| == 1 && |lod[0]| - 1 <= x.Length0 ==> ForwardPoolable(ParsePoolType(pooltype), lod[0], sqrt)
    ensures |lod| != 1 ==> res == Err(NotOneLevel)
    ensures |lod| == 1 && x.Length0 < |lod[0]| - 1 ==> res == Err(BatchExceedsRows)
    ensures |lod| == 1 && |lod[0]| - 1 <= x.Length0 ==>
      (res == Err(UnsupportedPoolType) <==> ParsePoolType(pooltype).Unsupported? && |lod[0]| > 1)
    ensures res.Ok? <==>
      |lod| == 1 && |lod[0]| - 1 <= x.Length0 && (ParsePoolType(pooltype).Unsupported? ==> |lod[0]| == 1)
    ensures res.Ok? ==>
      && fresh(res.value)
      && res.value.Length0 == |lod[0]| - 1
      && res.value.Length1 == x.Length1
    ensures res.Ok? ==>
      forall i, c :: 0 <= i < |lod[0]| - 1 && 0 <= c < x.Length1 ==>
        res.value[i, c] == Pool(ParsePoolType(pooltype), Column(x, lod[0][i], lod[0][i + 1], c), sqrt)
  {
    var pool := ParsePoolType(pooltype);
    var layout := CheckLayout(x.Length0, lod);
    if layout.Err? {
      return Err(layout.error);
    }
    var lod0 := lod[0];
    var batch := layout.value;
    var out := new real[batch, x.Length1];
    var i := 0;
    while i < batch
      invariant 0 <= i <= batch
      invariant i > 0 ==> !pool.Unsupported?
      invariant forall i', c :: 0 <= i' < i && 0 <= c < x.Length1 ==>
        out[i', c] == Pool(pool, Column(x, lod0[i'], lod0[i' + 1], c), sqrt)
    {
      if pool.Unsupported? {
        return Err(UnsupportedPoolType);
      }
      var lo, hi := lod0[i], lod0[i + 1];
      var c := 0;
      while c < x.Length1
        invariant 0 <= c <= x.Length1
        invariant forall i', c' :: 0 <= i' < i && 0 <= c' < x.Length1 ==>
          out[i', c'] == Pool(pool, Column(x, lod0[i'], lod0[i' + 1], c'), sqrt)
        invariant forall c' :: 0 <= c' < c ==> out[i, c'] == Pool(pool, Column(x, lo, hi, c'), sqrt)
      {
        var v := ReduceColumn(pool, x, lo, hi, c, sqrt);
        out[i, c] := v;
        c := c + 1;
      }
      i := i + 1;
    }
    return Ok(out);
  }

  // ---------------------------------------------------------------------------------------
  // Backward kernel

  /** math::SetConstant(in_g, 0): every cell of the buffer becomes zero. */
  method ZeroFill(a: array2<real>)
    modifies a
    ensures forall r, c :: 0 <= r < a.Length0 && 0 <= c < a.Length1 ==> a[r, c] == 0.0
  {
    var r := 0;
    while r < a.Length0
      invariant 0 <= r <= a.Length0
      invariant forall r', c :: 0 <= r' < r && 0 <= c < a.Length1 ==> a[r', c] == 0.0
    {
      var c := 0;
      while c < a.Length1
        invariant 0 <= c <= a.Length1
        invariant forall r', c' :: 0 <= r' < r && 0 <= c' < a.Length1 ==> a[r', c'] == 0.0
        invariant forall c' :: 0 <= c' < c ==> a[r, c'] == 0.0
      {
        a[r, c] := 0.0;
        c := c + 1;
      }
      r := r + 1;
    }
  }

  /** in_g_e = row.broadcast({h, 1}): every row of [lo, hi) becomes row; nothing else changes. */
  method BroadcastRows(a: array2<real>, lo: nat, hi: nat, row: seq<real>)
    requires lo <= hi <= a.Length0 && |row| == a.Length1
    modifies a
    ensures forall r, c :: 0 <= r < a.Length0 && 0 <= c < a.Length1 ==>
      a[r, c] == (if lo <= r < hi then row[c] else old(a[r, c]))
  {
    var r := lo;
    while r < hi
      invariant lo <= r <= hi
      invariant forall r', c :: 0 <= r' < a.Length0 && 0 <= c < a.Length1 ==>
        a[r', c] == (if lo <= r' < r then row[c] else old(a[r', c]))
    {
      var c := 0;
      while c < a.Length1
        invariant 0 <= c <= a.Length1
        invariant forall r', c' :: 0 <= r' < a.Length0 && 0 <= c' < a.Length1 ==>
          a[r', c'] == (if lo <= r' < r || (r' == r && c' < c) then row[c'] else old(a[r', c']))
      {
        a[r, c] := row[c];
        c := c + 1;
      }
      r := r + 1;
    }
  }

  /** in_g_e.chip(k, 0) = out_g_e: row k becomes row; nothing else changes. */
  method WriteRow(a: array2<real>, k: nat, row: seq<real>)
    requires k < a.Length0 && |row| == a.Length1
    modifies a
    ensures forall r, c :: 0 <= r < a.Length0 && 0 <= c < a.Length1 ==>
      a[r, c] == (if r == k then row[c] else old(a[r, c]))
  {
    var c := 0;
    while c < a.Length1
      invariant 0 <= c <= a.Length1
      invariant forall r, c' :: 0 <= r < a.Length0 && 0 <= c' < a.Length1 ==>
        a[r, c'] == (if r == k && c' < c then row[c'] else old(a[r, c']))
    {
      a[k, c] := row[c];
      c := c + 1;
    }
  }

  /** The MAX branch for sequence i: per column, find the row of the slice's maximum again
      and copy the output gradient into that single cell; every other cell keeps its value.
      The source builds this column view with a default (column-major) Eigen::Map over the
      row-major slice, which reads the wrong cells when w > 1; the model uses the per-column
      maximum that the forward kernel pooled. */
  method ScatterMax(g: array2<real>, x: array2<real>, lo: nat, hi: nat, outGrad: array2<real>, i: nat)
    requires g != x && g != outGrad
    requires lo < hi <= x.Length0 && g.Length0 == x.Length0 && g.Length1 == x.Length1
    requires i < outGrad.Length0 && outGrad.Length1 == x.Length1
    modifies g
    ensures forall r, c :: 0 <= r < g.Length0 && 0 <= c < g.Length1 ==>
      g[r, c] == (if lo <= r < hi && r - lo == ArgMax(Column(x, lo, hi, c)) then outGrad[i, c] else old(g[r, c]))
  {
    var c := 0;
    while c < x.Length1
      invariant 0 <= c <= x.Length1
      invariant forall r, c' :: 0 <= r < g.Length0 && 0 <= c' < g.Length1 ==>
        g[r, c'] == (if c' < c && lo <= r < hi && r - lo == ArgMax(Column(x, lo, hi, c')) then outGrad[i, c'] else old(g[r, c']))
    {
      var row, _ := ColumnArgMax(x, lo, hi, c);
      g[lo + row, c] := outGrad[i, c];
      c := c + 1;
    }
  }

  /** The value a cell outside every slice ends with: LAST and FIRST zero the whole buffer
      first, the other policies leave it as it was. */
  function Background(p: PoolType, v: real): real
  {
    if p.Last? || p.First? then 0.0 else v
  }

  /** Row r lies between the first sequence's start and the last sequence's end. */
  predicate InSlices(lod0: seq<nat>, r: nat) {
    |lod0| >= 1 && lod0[0] <= r < lod0[|lod0| - 1]
  }

  /** What the caller guarantees for the backward kernel: a positive root for SQRT, and a
      row in every slice for the policies that select a row. */
  ghost predicate BackwardPoolable(p: PoolType, lod0: seq<nat>, sqrt: nat -> real) {
    && (p.Sqrt? ==> PositiveRoot(sqrt))
    && (p.Max? || p.Last? || p.First? ==> NonEmptySlices(lod0))
  }

  /** The loop body of the backward kernel for one sequence with rows [lo, hi): every cell of
      the slice becomes its gradient, computed from the cell's value before the call; for LAST
      and FIRST the slice has been zeroed. Nothing outside the slice changes. */
  method DistributeSequence(pool: PoolType, x: array2<real>, outGrad: array2<real>, i: nat,
                            lo: nat, hi: nat, sqrt: nat -> real, inGrad: array2<real>)
    requires BackwardDefined(pool, sqrt)
    requires lo <= hi <= x.Length0 && (pool.Max? || pool.Last? || pool.First? ==> lo < hi)
    requires i < outGrad.Length0 && outGrad.Length1 == x.Length1
    requires inGrad.Length0 == x.Length0 && inGrad.Length1 == x.Length1
    requires inGrad != x && inGrad != outGrad
    requires pool.Last? || pool.First? ==>
      forall r, c :: lo <= r < hi && 0 <= c < inGrad.Length1 ==> inGrad[r, c] == 0.0
    modifies inGrad
    ensures forall r, c :: 0 <= r < inGrad.Length0 && 0 <= c < inGrad.Length1 && !(lo <= r < hi) ==>
      inGrad[r, c] == old(inGrad[r, c])
    ensures forall r, c :: lo <= r < hi && 0 <= c < inGrad.Length1 ==>
      inGrad[r, c] == Grad(pool, Column(x, lo, hi, c), outGrad[i, c], r - lo, old(inGrad[r, c]), sqrt)
  {
    match pool
    case Average =>
      if lo < hi {
        BroadcastRows(inGrad, lo, hi, ScaledRow(outGrad, i, (hi - lo) as real));
      }
    case Sum =>
      BroadcastRows(inGrad, lo, hi, RowOf(outGrad, i));
    case Sqrt =>
      if lo < hi {
        BroadcastRows(inGrad, lo, hi, ScaledRow(outGrad, i, sqrt(hi - lo)));
      }
    case Max =>
      ScatterMax(inGrad, x, lo, hi, outGrad, i);
    case Last =>
      WriteRow(inGrad, hi - 1, RowOf(outGrad, i));
    case First =>
      WriteRow(inGrad, lo, RowOf(outGrad, i));
  }

  /** SequencePoolGradKernel::Compute. The layout is not checked here (the forward kernel
      did, and an empty offsets table is accepted: it is a batch of no sequences); LAST and FIRST zero the input gradient first, then each sequence's slice receives
      its policy's gradient, and an unknown policy name fails at the first sequence. MAX does
      not zero the buffer, so its unselected cells keep whatever they held. */
  method Backward(x: array2<real>, outGrad: array2<real>, lod: seq<seq<nat>>, pooltype: string,
                  sqrt: nat -> real, inGrad: array2<real>)
    returns (res: Outcome)
    requires x.Length0 >= 1
    requires |lod| >= 1
    requires |lod[0]| >= 1 ==> ValidOffsets(lod[0], x.Length0)
    requires |lod[0]| >= 1 ==> outGrad.Length0 == |lod[0]| - 1 && outGrad.Length1 == x.Length1
    requires inGrad.Length0 == x.Length0 && inGrad.Length1 == x.Length1
    requires inGrad != x && inGrad != outGrad
    requires BackwardPoolable(ParsePoolType(pooltype), lod[0], sqrt)
    modifies inGrad
    ensures res.Fail? <==> ParsePoolType(pooltype).Unsupported? && |lod[0]| > 1
    ensures res.Fail? ==> res.error == UnsupportedPoolType
    ensures res.Fail? ==>
      forall r, c :: 0 <= r < inGrad.Length0 && 0 <= c < inGrad.Length1 ==> inGrad[r, c] == old(inGrad[r, c])
    ensures res.Pass? ==>
      forall i, r, c :: 0 <= i < |lod[0]| - 1 && lod[0][i] <= r < lod[0][i + 1] && 0 <= c < inGrad.Length1 ==>
        inGrad[r, c] == Grad(ParsePoolType(pooltype), Column(x, lod[0][i], lod[0][i + 1], c),
                             outGrad[i, c], r - lod[0][i], old(inGrad[r, c]), sqrt)
    ensures res.Pass? ==>
      forall r, c :: 0 <= r < inGrad.Length0 && 0 <= c < inGrad.Length1 && !InSlices(lod[0], r) ==>
        inGrad[r, c] == Background(ParsePoolType(pooltype), old(inGrad[r, c]))
  {
    var pool := ParsePoolType(pooltype);
    var lod0 := lod[0];
    if pool.Last? || pool.First? {
      ZeroFill(inGrad);
    }
    // static_cast<int>(lod.size()) - 1 is -1 for an empty table: the loop does not run.
    var batch := if |lod0| == 0 then 0 else |lod0| - 1;
    var i := 0;
    while i < batch
      invariant 0 <= i <= batch
      invariant i > 0 ==> !pool.Unsupported?
      invariant forall j, r, c :: 0 <= j < i && lod0[j] <= r < lod0[j + 1] && 0 <= c < inGrad.Length1 ==>
        inGrad[r, c] == Grad(pool, Column(x, lod0[j], lod0[j + 1], c), outGrad[j, c], r - lod0[j], old(inGrad[r, c]), sqrt)
      invariant forall r, c :: 0 <= r < inGrad.Length0 && 0 <= c < inGrad.Length1 && !(|lod0| >= 1 && lod0[0] <= r < lod0[i]) ==>
        inGrad[r, c] == Background(pool, old(inGrad[r, c]))
    {
      if pool.Unsupported? {
        return Fail(UnsupportedPoolType);
      }
      var lo, hi := lod0[i], lod0[i + 1];
      DistributeSequence(pool, x, outGrad, i, lo, hi, sqrt, inGrad);
      i := i + 1;
    }
    return Pass;
  }
}
