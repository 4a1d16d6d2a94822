/** The six pooling policies: how a sequence's column of values is reduced to one value
    (forward), and how one output-gradient value is distributed back over the column (backward).
    Everything here is over plain sequences; the kernels in module SequencePool read the columns
    out of the packed buffers and are proved against these definitions. */
module PoolPolicy {

  datatype PoolType = Average | Sum | Sqrt | Max | Last | First | Unsupported(name: string)

  const KnownNames: set<string> := {"AVERAGE", "SUM", "SQRT", "MAX", "LAST", "FIRST"}

  /** The attribute string that selects a policy. */
  function PoolName(p: PoolType): string {
    match p
    case Average => "AVERAGE"
    case Sum => "SUM"
    case Sqrt => "SQRT"
    case Max => "MAX"
    case Last => "LAST"
    case First => "FIRST"
    case Unsupported(n) => n
  }

  /** The kernels' chain of string comparisons on the pooltype attribute, done once.
      A name that matches none of the six is kept, as Unsupported, so that the kernels can
      raise their error at the point the source does. */
  function ParsePoolType(name: string): (p: PoolType)
    ensures PoolName(p) == name
    ensures p.Unsupported? <==> name !in KnownNames
  {
    if name == "AVERAGE" then Average
    else if name == "SUM" then Sum
    else if name == "SQRT" then Sqrt
    else if name == "MAX" then Max
    else if name == "LAST" then Last
    else if name == "FIRST" then First
    else Unsupported(name)
  }

  /** A policy value that a parse can produce: Unsupported never carries a known name. */
  predicate Canonical(p: PoolType) {
    p.Unsupported? ==> p.name !in KnownNames
  }

  lemma ParseOfName(p: PoolType)
    requires Canonical(p)
    ensures ParsePoolType(PoolName(p)) == p
  {
  }

  // ---------------------------------------------------------------------------------------
  // Reductions over one column of a sequence

  /** The column total, accumulated front to back. */
  function Total(s: seq<real>): real
  {
    if |s| == 0 then 0.0 else Total(s[..|s| - 1]) + s[|s| - 1]
  }

  /** The index of the first maximal element: a later element replaces the current best only
      when it is strictly larger. This is the one "maximum with index" primitive that both
      the forward maximum and the backward arg-max recomputation use. */
  function ArgMax(s: seq<real>): (k: nat)
    requires |s| > 0
    ensures k < |s|
  {
    if |s| == 1 then 0
    else
      var k := ArgMax(s[..|s| - 1]);
      if s[|s| - 1] > s[k] then |s| - 1 else k
  }

  function Maximum(s: seq<real>): real
    requires |s| > 0
  {
    s[ArgMax(s)]
  }

  /** Independent description of the first maximal position. */
  predicate IsFirstMax(s: seq<real>, k: nat) {
    && k < |s|
    && (forall j :: 0 <= j < |s| ==> s[j] <= s[k])
    && (forall j :: 0 <= j < k ==> s[j] < s[k])
  }

  lemma {:induction false} ArgMaxIsFirstMax(s: seq<real>)
    requires |s| > 0
    ensures IsFirstMax(s, ArgMax(s))
  {
    if |s| > 1 {
      var t := s[..|s| - 1];
      ArgMaxIsFirstMax(t);
      assert forall j :: 0 <= j < |t| ==> s[j] == t[j];
    }
  }

  /** ArgMax is exactly the first maximal position: both directions. */
  lemma ArgMaxCharacterized(s: seq<real>, k: nat)
    requires |s| > 0
    ensures IsFirstMax(s, k) <==> k == ArgMax(s)
  {
    ArgMaxIsFirstMax(s);
  }

  // ---------------------------------------------------------------------------------------
  // Forward reduction and backward distribution per policy

  /** The square root is a library call; the model only needs it positive where it divides. */
  ghost predicate PositiveRoot(sqrt: nat -> real) {
    forall n: nat :: n >= 1 ==> sqrt(n) > 0.0
  }

  /** When the forward reduction has a value: a known policy, and at least one row unless the
      policy is SUM (the mean and root-normalised sum of no rows are NaN, and the maximum,
      last and first row of no rows do not exist). */
  ghost predicate ForwardDefined(p: PoolType, h: nat, sqrt: nat -> real) {
    && !p.Unsupported?
    && (p.Sum? || h >= 1)
    && (p.Sqrt? ==> PositiveRoot(sqrt))
  }

  /** What the forward kernel writes for one column of one sequence. */
  function Pool(p: PoolType, col: seq<real>, sqrt: nat -> real): real
    requires ForwardDefined(p, |col|, sqrt)
  {
    match p
    case Average => Total(col) / (|col| as real)
    case Sum => Total(col)
    case Sqrt => Total(col) / sqrt(|col|)
    case Max => Maximum(col)
    case Last => col[|col| - 1]
    case First => col[0]
  }

  ghost predicate BackwardDefined(p: PoolType, sqrt: nat -> real) {
    !p.Unsupported? && (p.Sqrt? ==> PositiveRoot(sqrt))
  }

  /** What the backward kernel leaves in row j of one column of a sequence's input gradient,
      given the input column col, the output gradient value g and the cell's previous value.
      LAST and FIRST zero the buffer first; MAX does not, so its other cells keep prev. */
  function Grad(p: PoolType, col: seq<real>, g: real, j: nat, prev: real, sqrt: nat -> real): real
    requires BackwardDefined(p, sqrt) && j < |col|
  {
    match p
    case Average => g / (|col| as real)
    case Sum => g
    case Sqrt => g / sqrt(|col|)
    case Max => if j == ArgMax(col) then g else prev
    case Last => if j == |col| - 1 then g else 0.0
    case First => if j == 0 then g else 0.0
  }

  /** The pairing of the zero-background gradient column with the input column over its first
      n rows: the sum of Grad(j) * col[j] for j < n. */
  function GradDot(p: PoolType, col: seq<real>, g: real, sqrt: nat -> real, n: nat): real
    requires BackwardDefined(p, sqrt) && n <= |col|
  {
    if n == 0 then 0.0 else GradDot(p, col, g, sqrt, n - 1) + Grad(p, col, g, n - 1, 0.0, sqrt) * col[n - 1]
  }

  // ---------------------------------------------------------------------------------------
  // Properties of the policies

  /** MAX: the pooled value bounds every element of the column and is one of them. */
  lemma MaxIsColumnMaximum(col: seq<real>, sqrt: nat -> real)
    requires |col| >= 1
    ensures forall j :: 0 <= j < |col| ==> col[j] <= Pool(Max, col, sqrt)
    ensures exists j :: 0 <= j < |col| && col[j] == Pool(Max, col, sqrt)
  {
    ArgMaxIsFirstMax(col);
  }

  /** AVERAGE: h times the pooled value is the column total. */
  lemma AverageTimesLength(col: seq<real>, sqrt: nat -> real)
    requires |col| >= 1
    ensures (|col| as real) * Pool(Average, col, sqrt) == Pool(Sum, col, sqrt)
  {
  }

  /** The AVERAGE gradient is the SUM gradient divided by h, cell by cell. */
  lemma AverageGradIsSumGradOverLength(col: seq<real>, g: real, j: nat, prev: real, sqrt: nat -> real)
    requires j < |col|
    ensures Grad(Average, col, g, j, prev, sqrt) == Grad(Sum, col, g, j, prev, sqrt) / (|col| as real)
  {
  }

  /** MAX round trip: the row of a column that receives the output gradient is the row holding
      the first maximum, whose value is exactly the forward output; every other row keeps its
      previous value. */
  lemma MaxGradLandsOnForwardMax(col: seq<real>, g: real, j: nat, prev: real, sqrt: nat -> real)
    requires j < |col|
    ensures Grad(Max, col, g, j, prev, sqrt) == (if IsFirstMax(col, j) then g else prev)
    ensures IsFirstMax(col, j) ==> col[j] == Pool(Max, col, sqrt)
  {
    ArgMaxCharacterized(col, j);
  }

  /** The value SUM, AVERAGE and SQRT broadcast over every row of the sequence. */
  function BroadcastValue(p: PoolType, h: nat, g: real, sqrt: nat -> real): real
    requires (p.Sum? || p.Average? || p.Sqrt?) && ForwardDefined(p, h, sqrt)
  {
    if p.Sum? then g else if p.Average? then g / (h as real) else g / sqrt(h)
  }

  lemma {:induction false} BroadcastGradDot(p: PoolType, col: seq<real>, g: real, sqrt: nat -> real, n: nat)
    requires (p.Sum? || p.Average? || p.Sqrt?) && ForwardDefined(p, |col|, sqrt) && n <= |col|
    ensures GradDot(p, col, g, sqrt, n) == BroadcastValue(p, |col|, g, sqrt) * Total(col[..n])
  {
    if n > 0 {
      BroadcastGradDot(p, col, g, sqrt, n - 1);
      assert col[..n][..n - 1] == col[..n - 1];
      assert Grad(p, col, g, n - 1, 0.0, sqrt) == BroadcastValue(p, |col|, g, sqrt);
    }
  }

  /** The row MAX, LAST and FIRST send the gradient to. */
  function SelectedRow(p: PoolType, col: seq<real>): (k: nat)
    requires (p.Max? || p.Last? || p.First?) && |col| >= 1
    ensures k < |col|
  {
    if p.Max? then ArgMax(col) else if p.Last? then |col| - 1 else 0
  }

  lemma {:induction false} SelectGradDot(p: PoolType, col: seq<real>, g: real, sqrt: nat -> real, n: nat)
    requires (p.Max? || p.Last? || p.First?) && |col| >= 1 && n <= |col|
    ensures GradDot(p, col, g, sqrt, n) == if SelectedRow(p, col) < n then g * col[SelectedRow(p, col)] else 0.0
  {
    if n > 0 {
      SelectGradDot(p, col, g, sqrt, n - 1);
      assert Grad(p, col, g, n - 1, 0.0, sqrt) == if n - 1 == SelectedRow(p, col) then g else 0.0;
    }
  }

  lemma DivTimes(g: real, t: real, d: real)
    requires d != 0.0
    ensures (g / d) * t == g * (t / d)
  {
  }

  /** Forward and backward agree: distributing an output gradient g over a zeroed column and
      pairing it with the input column gives back g times the forward value. Every one of the
      policies is linear or selects one row, and this identity says the backward rule is the
      derivative of the forward one. */
  lemma PoolIsGradDotInput(p: PoolType, col: seq<real>, g: real, sqrt: nat -> real)
    requires ForwardDefined(p, |col|, sqrt)
    ensures GradDot(p, col, g, sqrt, |col|) == g * Pool(p, col, sqrt)
  {
    match p
    case Sum => SumIdentity(col, g, sqrt);
    case Average => AverageIdentity(col, g, sqrt);
    case Sqrt => SqrtIdentity(col, g, sqrt);
    case Max => SelectGradDot(p, col, g, sqrt, |col|);
    case Last => SelectGradDot(p, col, g, sqrt, |col|);
    case First => SelectGradDot(p, col, g, sqrt, |col|);
  }

  lemma SumIdentity(col: seq<real>, g: real, sqrt: nat -> real)
    ensures GradDot(Sum, col, g, sqrt, |col|) == g * Pool(Sum, col, sqrt)
  {
    assert col[..|col|] == col;
    BroadcastGradDot(Sum, col, g, sqrt, |col|);
  }

  lemma AverageIdentity(col: seq<real>, g: real, sqrt: nat -> real)
    requires |col| >= 1
    ensures GradDot(Average, col, g, sqrt, |col|) == g * Pool(Average, col, sqrt)
  {
    assert col[..|col|] == col;
    BroadcastGradDot(Average, col, g, sqrt, |col|);
    DivTimes(g, Total(col), |col| as real);
  }

  lemma SqrtIdentity(col: seq<real>, g: real, sqrt: nat -> real)
    requires |col| >= 1 && PositiveRoot(sqrt)
    ensures GradDot(Sqrt, col, g, sqrt, |col|) == g * Pool(Sqrt, col, sqrt)
  {
    assert col[..|col|] == col;
    BroadcastGradDot(Sqrt, col, g, sqrt, |col|);
    DivTimes(g, Total(col), sqrt(|col|));
  }

  /** The single-sequence scenario: one column [1, 5, 2]. */
  lemma ScenarioOneSequence(sqrt: nat -> real)
    ensures Pool(Sum, [1.0, 5.0, 2.0], sqrt) == 8.0
    ensures Pool(Average, [1.0, 5.0, 2.0], sqrt) == 8.0 / 3.0
    ensures Pool(Max, [1.0, 5.0, 2.0], sqrt) == 5.0
    ensures Pool(Last, [1.0, 5.0, 2.0], sqrt) == 2.0
    ensures Pool(First, [1.0, 5.0, 2.0], sqrt) == 1.0
    ensures forall j :: 0 <= j < 3 ==> Grad(Max, [1.0, 5.0, 2.0], 1.0, j, 0.0, sqrt) == [0.0, 1.0, 0.0][j]
    ensures forall j :: 0 <= j < 3 ==> Grad(Last, [1.0, 5.0, 2.0], 1.0, j, 0.0, sqrt) == [0.0, 0.0, 1.0][j]
    ensures forall j :: 0 <= j < 3 ==> Grad(First, [1.0, 5.0, 2.0], 1.0, j, 0.0, sqrt) == [1.0, 0.0, 0.0][j]
    ensures forall j :: 0 <= j < 3 ==> Grad(Sum, [1.0, 5.0, 2.0], 1.0, j, 0.0, sqrt) == 1.0
    ensures forall j :: 0 <= j < 3 ==> Grad(Average, [1.0, 5.0, 2.0], 1.0, j, 0.0, sqrt) == 1.0 / 3.0
  {
    var s := [1.0, 5.0, 2.0];
    assert s[..2] == [1.0, 5.0] && s[..2][..1] == [1.0] && [1.0][..0] == [];
    assert Total([1.0]) == 1.0 && Total([1.0, 5.0]) == 6.0;
    assert ArgMax(s) == 1;
  }

  /** The two-sequence scenario: offsets [0, 2, 5] over the column [1, 3, 2, 4, 6]. */
  lemma ScenarioTwoSequences(sqrt: nat -> real)
    ensures Pool(Sum, [1.0, 3.0], sqrt) == 4.0 && Pool(Sum, [2.0, 4.0, 6.0], sqrt) == 12.0
    ensures Pool(Average, [1.0, 3.0], sqrt) == 2.0 && Pool(Average, [2.0, 4.0, 6.0], sqrt) == 4.0
    ensures Pool(Max, [1.0, 3.0], sqrt) == 3.0 && Pool(Max, [2.0, 4.0, 6.0], sqrt) == 6.0
  {
    var a, b := [1.0, 3.0], [2.0, 4.0, 6.0];
    assert a[..1] == [1.0] && [1.0][..0] == [];
    assert b[..2] == [2.0, 4.0] && b[..2][..1] == [2.0] && [2.0][..0] == [];
    assert Total([2.0]) == 2.0 && Total([2.0, 4.0]) == 6.0;
  }

  // ---------------------------------------------------------------------------------------
  // The arg-max as the backward kernel writes it (sequence_pool_op.h:124-129)

  /** The backward MAX branch wraps the slice's memory in an Eigen::Map of a default, hence
      column-major, dynamic matrix of h rows and w columns. The slice memory is row-major, so
      "column c" of that map is the contiguous run mem[c*h .. c*h + h), not the c-th entry of
      every row. */
  function ColumnMajorColumn(mem: seq<real>, h: nat, c: nat): (col: seq<real>)
    requires c * h + h <= |mem|
    ensures |col| == h
  {
    mem[c * h .. c * h + h]
  }

  /** What column c of the slice is: entry c of each of the h rows of width w. */
  function RowMajorColumn(mem: seq<real>, h: nat, w: nat, c: nat): (col: seq<real>)
    requires c < w && |mem| == h * w
    ensures |col| == h
  {
    seq(h, j requires 0 <= j < h => RowMajorIndex(h, w, j, c); mem[j * w + c])
  }

  /** Entry c of row j of an h x w row-major block lies inside the block. */
  lemma RowMajorIndex(h: nat, w: nat, j: nat, c: nat)
    requires j < h && c < w
    ensures j * w + c < h * w
  {
    assert (j + 1) * w <= h * w by {
      MulMonotone(j + 1, h, w);
    }
  }

  lemma {:induction false} MulMonotone(a: nat, b: nat, w: nat)
    requires a <= b
    ensures a * w <= b * w
  {
    if a < b {
      MulMonotone(a, b - 1, w);
      assert (b - 1) * w + w == b * w;
    }
  }

  /** The row_id the source computes for column c (as written). */
  function ColumnMajorArgMax(mem: seq<real>, h: nat, c: nat): (k: nat)
    requires h >= 1 && c * h + h <= |mem|
    ensures k < h
  {
    ArgMax(ColumnMajorColumn(mem, h, c))
  }

  /** With one feature column the map reads the true column, so it picks the true arg-max. */
  lemma ColumnMajorAgreesWhenWidthOne(mem: seq<real>)
    ensures ColumnMajorColumn(mem, |mem|, 0) == RowMajorColumn(mem, |mem|, 1, 0)
    ensures |mem| >= 1 ==> ColumnMajorArgMax(mem, |mem|, 0) == ArgMax(RowMajorColumn(mem, |mem|, 1, 0))
  {
    assert ColumnMajorColumn(mem, |mem|, 0) == RowMajorColumn(mem, |mem|, 1, 0);
  }

  /** A slice of two rows [1, 0] and [5, 9], stored as [1, 0, 5, 9]: the true column 0 is
      [1, 5], maximal at row 1, but the map's column 0 is [1, 0], maximal at row 0, so the
      gradient lands on row 0, which does not hold the forward maximum. */
  lemma ColumnMajorMisplacesGradient()
    ensures var mem := [1.0, 0.0, 5.0, 9.0];
            && RowMajorColumn(mem, 2, 2, 0) == [1.0, 5.0]
            && ColumnMajorArgMax(mem, 2, 0) == 0
            && ArgMax(RowMajorColumn(mem, 2, 2, 0)) == 1
            && !IsFirstMax(RowMajorColumn(mem, 2, 2, 0), ColumnMajorArgMax(mem, 2, 0))
  {
    var mem := [1.0, 0.0, 5.0, 9.0];
    assert RowMajorColumn(mem, 2, 2, 0) == [1.0, 5.0];
    assert ColumnMajorColumn(mem, 2, 0) == [1.0, 0.0];
  }
}
