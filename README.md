# Sequence pooling: forward and backward kernels

The model covers the sequence-pooling operator pair of PaddlePaddle. A batch of variable-length
sequences is packed row-wise into one dense buffer of `rows x w` values. A one-level offsets
table, the LoD, says where each sequence lies: sequence `i` is rows `[lod0[i], lod0[i+1])`.

- The forward kernel, `SequencePoolKernel::Compute`, does two things:
  - it checks the layout;
  - it writes one pooled row per sequence into a `batch x w` output, using one of six policies:
    AVERAGE, SUM, SQRT, MAX, LAST, FIRST.
- The backward kernel, `SequencePoolGradKernel::Compute`, writes the output gradient back into
  the input-gradient buffer:
  - AVERAGE, SUM and SQRT broadcast it over every row of the slice;
  - LAST and FIRST zero the whole buffer first, then write one row;
  - MAX finds the arg-max row of every column again and writes one cell per column.

How the model is laid out:

- `layout.dfy` (module `LoDLayout`) holds the offsets table, its validity predicates and the
  forward kernel's two layout checks.
- `policy.dfy` (module `PoolPolicy`) holds the policies themselves, as functions on one column
  of a sequence:
  - `Pool` is the forward value and `Grad` the backward value;
  - `ArgMax` is the first row attaining the maximum;
  - the lemmas prove the properties of these functions. One of them, `PoolIsGradDotInput`, says
    that for every policy the gradient column, paired with the input column, is g times the
    forward value. Which row MAX sends the gradient to is fixed separately, by
    `ArgMaxCharacterized` and `MaxGradLandsOnForwardMax`.
- `kernels.dfy` (module `SequencePool`) holds the two kernels as imperative methods over
  `array2<real>` buffers. They are proved against the functions of `PoolPolicy` by loop
  invariants. The reductions (column sum, column arg-max) are loops too.

Modelling choices:
- A buffer is an `array2<real>`. This is the `rows x w` row-major matrix view that the kernels
  build with `EigenMatrix::From`. The row width `w = numel / dims[0]` is `Length1`.
- Elements are `real`, since the element type of both kernels is floating point. So AVERAGE is
  an exact division.
- The policy attribute is parsed once into `PoolType`. A name that matches no policy becomes
  `Unsupported(name)`, and the kernels raise their error at the point where the source throws:
  when the first sequence is processed. With an empty batch, no error is raised.
- SQRT's `std::sqrt` is a parameter `sqrt: nat -> real`. The only thing assumed of it is that
  it is positive on positive arguments.
- Some preconditions are relied on but never checked by the source. They are `requires`, not
  modelled errors:
  - `dims[0] >= 1` (the divide that computes `w`);
  - offsets that are non-decreasing and at most the row count;
  - at least one row per sequence where the policy needs one (AVERAGE, SQRT, MAX, LAST and
    FIRST in the forward kernel; MAX, LAST and FIRST in the backward kernel);
  - the backward kernel reads `lod()[0]` with no level check;
  - the forward kernel needs a non-empty offsets table.

## Model

| member | source | states |
|---|---|---|
| `LoDLayout.CheckLayout` | paddle/operators/sequence_pool_op.h:45-51 | fails with NotOneLevel exactly when there is not one LoD level, and with BatchExceedsRows exactly when there are fewer rows than sequences; on success the output's leading dimension is `lod0.size - 1`, which is at most the row count |
| `PoolPolicy.ParsePoolType` | paddle/operators/sequence_pool_op.h:65-79 | the parsed policy names the attribute it came from; it is Unsupported exactly when the name is none of the six |
| `PoolPolicy.ParseOfName` | paddle/operators/sequence_pool_op.h:65-77 | parsing a policy's name gives that policy back |
| `PoolPolicy.ArgMaxIsFirstMax` | paddle/operators/sequence_pool_op.h:129 | the arg-max row holds a value at least every other value of the column, and no earlier row holds that value |
| `PoolPolicy.ArgMaxCharacterized` | paddle/operators/sequence_pool_op.h:129 | a row is the first row attaining the maximum if and only if it is the arg-max |
| `PoolPolicy.MaxIsColumnMaximum` | paddle/operators/sequence_pool_op.h:72-73 | the MAX value is at least every value of the column and equals one of them |
| `PoolPolicy.AverageTimesLength` | paddle/operators/sequence_pool_op.h:65-68 | h times the AVERAGE value is the SUM value |
| `PoolPolicy.AverageGradIsSumGradOverLength` | paddle/operators/sequence_pool_op.h:114-117 | each AVERAGE gradient cell is the SUM gradient cell divided by h |
| `PoolPolicy.MaxGradLandsOnForwardMax` | paddle/operators/sequence_pool_op.h:121-134 | the MAX gradient goes to a row exactly when that row is the first maximum, whose value is the forward output; every other row keeps its previous value |
| `PoolPolicy.BroadcastGradDot` | paddle/operators/sequence_pool_op.h:112-120 | for SUM, AVERAGE and SQRT, pairing the gradient column with the first n input rows gives the broadcast value times their total |
| `PoolPolicy.SelectGradDot` | paddle/operators/sequence_pool_op.h:121-138 | for MAX, LAST and FIRST, pairing the gradient column with the first n input rows picks out the selected row and nothing else |
| `PoolPolicy.PoolIsGradDotInput` | paddle/operators/sequence_pool_op.h:65-138 | for every policy, the zero-background gradient column paired with the input column is g times the forward value |
| `PoolPolicy.ScenarioOneSequence` | paddle/operators/sequence_pool_op.h:65-77 | for the column [1, 5, 2]: SUM 8, AVERAGE 8/3, MAX 5, LAST 2, FIRST 1, and the gradient cells of each policy for g = 1 |
| `PoolPolicy.ScenarioTwoSequences` | paddle/operators/sequence_pool_op.h:57-77 | for the sequences [1, 3] and [2, 4, 6]: SUM 4 and 12, AVERAGE 2 and 4, MAX 3 and 6 |
| `PoolPolicy.ColumnMajorArgMax` | paddle/operators/sequence_pool_op.h:124-129 | the row_id the source computes through its column-major map is a row of the slice |
| `PoolPolicy.ColumnMajorAgreesWhenWidthOne` | paddle/operators/sequence_pool_op.h:124-125 | with one column, the map's column is the row-major column of the slice, so the map's arg-max is the true arg-max |
| `PoolPolicy.ColumnMajorMisplacesGradient` | paddle/operators/sequence_pool_op.h:124-133 | for the slice stored as [1, 0, 5, 9] (rows [1, 0] and [5, 9]), the row-major column 0 is [1, 5]; the map picks row 0 for it, while its first maximum is row 1 |
| `SequencePool.ColumnSum` | paddle/operators/sequence_pool_op.h:68 | the loop's sum is the total of the slice's column |
| `SequencePool.ColumnArgMax` | paddle/operators/sequence_pool_op.h:129 | the loop reports the first row attaining the column's maximum, and that maximum |
| `SequencePool.ReduceColumn` | paddle/operators/sequence_pool_op.h:65-77 | the value written for one column of one sequence is the policy's value of that column |
| `SequencePool.Forward` | paddle/operators/sequence_pool_op.h:35-82 | the layout errors come first, for any offsets table; offset validity and row counts are demanded only of inputs that pass the layout checks; then UnsupportedPoolType exactly when the policy is unknown and the batch is not empty; on success a fresh `batch x w` buffer whose cell (i, c) is the policy's value of column c of sequence i |
| `SequencePool.ZeroFill` | paddle/operators/sequence_pool_op.h:99-103 | every cell of the buffer becomes 0 |
| `SequencePool.BroadcastRows` | paddle/operators/sequence_pool_op.h:112-120 | every row of the slice becomes the given row; no other cell changes |
| `SequencePool.WriteRow` | paddle/operators/sequence_pool_op.h:135-138 | the chosen row becomes the given row; no other cell changes |
| `SequencePool.ScatterMax` | paddle/operators/sequence_pool_op.h:121-134 | per column, only the cell at the column's first-maximum row gets the output gradient; every other cell keeps its value |
| `SequencePool.DistributeSequence` | paddle/operators/sequence_pool_op.h:106-141 | every cell of one slice becomes its policy gradient; no cell outside the slice changes |
| `SequencePool.Backward` | paddle/operators/sequence_pool_op.h:88-143 | accepts an empty offsets table as a batch of no sequences; fails exactly when the policy is unknown and the batch is not empty, and then changes nothing; otherwise every slice cell holds its policy gradient, and every cell outside the slices is 0 for LAST and FIRST and unchanged otherwise |

## Left out

- Device dispatch (`GetEigenDevice`, `.device(place)`), `mutable_data` allocation, the execution context's input, output and attribute lookup, and operator registration are framework plumbing and are not modelled. The forward output is a fresh array.
- `math::SetConstant` is a library call; it is modelled only as the loop `ZeroFill`.
- Floating-point rounding, NaN and infinity are not modelled: elements are exact reals.
- `std::sqrt` is a parameter of the model, assumed positive on positive arguments.
- The tie-breaking of Eigen's `maxCoeff` is not visible; the model assumes it reports the first row attaining the maximum.
- MAX in the backward kernel follows the intended per-column arg-max over the row-major slice. The source's column-major `Eigen::Map` is modelled only on its own, under Findings.
- `dims[0] == 0` (a division by zero when `w` is computed) is excluded by a precondition.
- An empty offsets table is excluded by a precondition in the forward kernel only, because there `lod0.size - 1` is computed on the unsigned size and wraps around. The backward kernel casts the size to `int` before subtracting, so an empty table is a batch of no sequences; the model does the same.
- Offsets and row indices are `nat`. The source's narrowing of offsets to `int` and its `int row_id` are not modelled, so values above 2^31 - 1 are outside the model.
- Zero-width buffers, and the stride arithmetic of `Slice` and `Flatten`, are not modelled beyond the row-major matrix view.

## Findings

| source | as written | input that shows it | evidently intended | confidence | as-written member | corrected member |
|---|---|---|---|---|---|---|
| paddle/operators/sequence_pool_op.h:124-129 | MAX backward views the row-major slice through a default (column-major) `Eigen::Map` of h x w, so column c is the contiguous run `mem[c*h .. c*h+h)` | w = 2, slice rows [1, 0] and [5, 9]: the map's column 0 is [1, 0], so row 0 gets the gradient, while the forward maximum of column 0 (5) is in row 1 | the gradient of column c goes to the row of that column's maximum, the row the forward kernel pooled | not executed | `PoolPolicy.ColumnMajorMisplacesGradient` | `SequencePool.ColumnArgMax` |
