/** The one-level sequence layout (LoD) that partitions a packed batch.
    Sequence i of the batch occupies rows [lod0[i], lod0[i+1]) of the packed buffer. */
module LoDLayout {

  /** The two failures the operator pair can raise. */
  datatype PoolError =
    | NotOneLevel          // the input carries more than one (or no) LoD level
    | BatchExceedsRows     // fewer input rows than sequences in the batch
    | UnsupportedPoolType  // the pooltype attribute names no known policy

  datatype Result<T> = Ok(value: T) | Err(error: PoolError)

  datatype Outcome = Pass | Fail(error: PoolError)

  /** An offsets table with batch + 1 entries, non-decreasing, every entry a row of the buffer.
      The kernels rely on this without checking it. */
  predicate ValidOffsets(lod0: seq<nat>, rows: nat) {
    && |lod0| >= 1
    && (forall i, j :: 0 <= i <= j < |lod0| ==> lod0[i] <= lod0[j])
    && (forall i :: 0 <= i < |lod0| ==> lod0[i] <= rows)
  }

  /** Every sequence of the batch has at least one row. */
  predicate NonEmptySlices(lod0: seq<nat>) {
    forall i :: 0 <= i < |lod0| - 1 ==> lod0[i] < lod0[i + 1]
  }

  /** The number of sequences the offsets table describes. */
  function BatchSize(lod0: seq<nat>): nat
    requires |lod0| >= 1
  {
    |lod0| - 1
  }

  /** The forward kernel's shape inference: exactly one LoD level, and no more sequences
      than input rows. On success, the leading dimension of the output. */
  function CheckLayout(rows: nat, lod: seq<seq<nat>>): (r: Result<nat>)
    requires |lod| == 1 ==> |lod[0]| >= 1
    ensures r == Err(NotOneLevel) <==> |lod| != 1
    ensures r == Err(BatchExceedsRows) <==> |lod| == 1 && rows < |lod[0]| - 1
    ensures r.Ok? ==> r.value + 1 == |lod[0]| && r.value <= rows
    ensures r.Ok? || r.error != UnsupportedPoolType
  {
    if |lod| != 1 then Err(NotOneLevel)
    else if rows < |lod[0]| - 1 then Err(BatchExceedsRows)
    else Ok(BatchSize(lod[0]))
  }
}
