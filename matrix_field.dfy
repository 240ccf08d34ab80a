/**
 * Matrix fields as values: a stack of small matrices, one `rows`×`cols`
 * matrix per mesh node. This is the algebra that the normal-mode code of
 * finmag builds on (`_mult_one`, `mf_mult`, `mf_transpose`, `mf_cross` and
 * the constant fields of `compute_tangential_space_basis`); the array-based
 * operations in module FieldArrays are proved against the functions here.
 */
module MatrixField {

  /** The ways the matrix-field operations fail. */
  datatype Error =
    | AssertionFailed    // a shape `assert` of the operation does not hold
    | IndexOutOfBounds   // `a[0, 0, 0]` is read on an array with an empty axis
    | TooFewArguments    // `mf_mult` was given fewer than two fields
    | BroadcastMismatch  // the per-node operand of `mf_cross` is not shaped like `a`

  datatype Result<T> = Success(value: T) | Failure(error: Error)

  /** The shape `(rows, cols, nodes)` of an `r×c×n` array. */
  datatype Shape = Shape(rows: nat, cols: nat, nodes: nat)

  /**
   * An `rows×cols×nodes` array: entry (i, j) of the matrix at node l is
   * `at[i][j][l]`. The shape is kept explicitly so that an array with an
   * empty axis still has its other extents.
   */
  datatype Field = Field(rows: nat, cols: nat, nodes: nat, at: seq<seq<seq<real>>>)
  {
    predicate Valid() {
      && |at| == rows
      && (forall i | 0 <= i < rows :: |at[i]| == cols)
      && (forall i, j | 0 <= i < rows && 0 <= j < cols :: |at[i][j]| == nodes)
    }

    function Dims(): Shape {
      Shape(rows, cols, nodes)
    }
  }

  /** Two fields are equal as soon as their shapes and all their entries agree. */
  lemma Extensionality(f: Field, g: Field)
    requires f.Valid() && g.Valid() && f.Dims() == g.Dims()
    requires forall i, j, l | 0 <= i < f.rows && 0 <= j < f.cols && 0 <= l < f.nodes ::
      f.at[i][j][l] == g.at[i][j][l]
    ensures f == g
  {
    forall i | 0 <= i < f.rows
      ensures f.at[i] == g.at[i]
    {
      forall j | 0 <= j < f.cols
        ensures f.at[i][j] == g.at[i][j]
      {
        assert forall l | 0 <= l < f.nodes :: f.at[i][j][l] == g.at[i][j][l];
      }
    }
  }

  // ---------------------------------------------------------------------
  // Node-wise matrix product (`_mult_one`)
  // ---------------------------------------------------------------------

  /** The shape asserts of `_mult_one`: equal node counts, inner extents that agree, all extents at most 3. */
  predicate ShapesMultiply(s: Shape, t: Shape) {
    && s.nodes == t.nodes
    && s.cols == t.rows
    && s.rows <= 3 && s.cols <= 3
    && t.rows <= 3 && t.cols <= 3
  }

  /** Whether `a[0, 0, 0]` can be read: no axis is empty. */
  predicate HasEntries(s: Shape) {
    s.rows > 0 && s.cols > 0 && s.nodes > 0
  }

  /**
   * `Σ_{k < m} f[i,k,l] * g[k,j,l]`, accumulated from zero in increasing `k`,
   * the order in which the loop of `_mult_one` adds the terms.
   */
  function Sum(f: Field, g: Field, i: nat, j: nat, l: nat, m: nat): real
    requires f.Valid() && g.Valid()
    requires i < f.rows && j < g.cols && l < f.nodes && l < g.nodes
    requires m <= f.cols && m <= g.rows
  {
    if m == 0 then 0.0
    else Sum(f, g, i, j, l, m - 1) + Term(f, g, i, j, l, m - 1)
  }

  /** The `k`-th term `f[i,k,l] * g[k,j,l]` of entry `(i, j)` at node `l`. */
  function Term(f: Field, g: Field, i: nat, j: nat, l: nat, m: nat): real
    requires f.Valid() && g.Valid()
    requires i < f.rows && j < g.cols && l < f.nodes && l < g.nodes
    requires m < f.cols && m < g.rows
  {
    f.at[i][m][l] * g.at[m][j][l]
  }

  /** The node-wise matrix product: at every node, the ordinary product of the two matrices. */
  function Product(f: Field, g: Field): (r: Field)
    requires f.Valid() && g.Valid() && f.cols == g.rows && f.nodes == g.nodes
    ensures r.Valid() && r.Dims() == Shape(f.rows, g.cols, f.nodes)
    ensures forall i, j, l | 0 <= i < r.rows && 0 <= j < r.cols && 0 <= l < r.nodes ::
      r.at[i][j][l] == Sum(f, g, i, j, l, f.cols)
  {
    Field(f.rows, g.cols, f.nodes,
      seq(f.rows, i requires 0 <= i < f.rows =>
        seq(g.cols, j requires 0 <= j < g.cols =>
          seq(f.nodes, l requires 0 <= l < f.nodes => Sum(f, g, i, j, l, f.cols)))))
  }

  /** What `_mult_one(a, b)` does on the values of its arguments: fail on a shape assert, then on an empty axis, else multiply. */
  function MultOneSpec(f: Field, g: Field): (r: Result<Field>)
    requires f.Valid() && g.Valid()
    ensures r.Success? ==> r.value.Valid() && r.value.Dims() == Shape(f.rows, g.cols, f.nodes)
  {
    if !ShapesMultiply(f.Dims(), g.Dims()) then Failure(AssertionFailed)
    else if !(HasEntries(f.Dims()) && HasEntries(g.Dims())) then Failure(IndexOutOfBounds)
    else Success(Product(f, g))
  }

  // ---------------------------------------------------------------------
  // Products of several fields (`mf_mult`)
  // ---------------------------------------------------------------------

  predicate AllValid(fs: seq<Field>) {
    forall k | 0 <= k < |fs| :: fs[k].Valid()
  }

  /**
   * `acc · rest[0] · rest[1] · …`, multiplied from the left, stopping at the
   * first failure; a product has the rows of `acc` and the columns of the
   * last factor.
   */
  function FoldProduct(acc: Field, rest: seq<Field>): (r: Result<Field>)
    requires acc.Valid() && AllValid(rest)
    ensures r.Success? ==> r.value.Valid() && r.value.nodes == acc.nodes && r.value.rows == acc.rows
    ensures r.Success? ==> r.value.cols == if rest == [] then acc.cols else rest[|rest| - 1].cols
    decreases |rest|
  {
    if rest == [] then Success(acc)
    else
      match MultOneSpec(acc, rest[0])
      case Failure(e) => Failure(e)
      case Success(p) => FoldProduct(p, rest[1..])
  }

  /**
   * What `mf_mult(*args)` computes on the values of its arguments: fewer than
   * two arguments is an error; otherwise the product has the rows of the
   * first field, the columns of the last one and their node count.
   */
  function MultAll(fs: seq<Field>): (r: Result<Field>)
    requires AllValid(fs)
    ensures |fs| < 2 ==> r == Failure(TooFewArguments)
    ensures r.Success? ==> r.value.Valid() && r.value.Dims() == Shape(fs[0].rows, fs[|fs| - 1].cols, fs[0].nodes)
  {
    if |fs| < 2 then Failure(TooFewArguments)
    else FoldProduct(fs[0], fs[1..])
  }

  /**
   * An argument list that `mf_mult` accepts: at least two fields, every
   * extent between 1 and 3, one node count, and neighbouring inner extents
   * that agree.
   */
  predicate Chain(fs: seq<Field>) {
    && |fs| >= 2
    && fs[0].nodes > 0
    && (forall k | 0 <= k < |fs| ::
          1 <= fs[k].rows <= 3 && 1 <= fs[k].cols <= 3 && fs[k].nodes == fs[0].nodes)
    && (forall k | 0 <= k < |fs| - 1 :: fs[k].cols == fs[k + 1].rows)
  }

  // ---------------------------------------------------------------------
  // Transpose (`mf_transpose`)
  // ---------------------------------------------------------------------

  /** Swaps the first two axes: the matrix at every node is transposed. */
  function Transpose(f: Field): (r: Field)
    requires f.Valid()
    ensures r.Valid() && r.Dims() == Shape(f.cols, f.rows, f.nodes)
    ensures forall i, j, l | 0 <= i < f.rows && 0 <= j < f.cols && 0 <= l < f.nodes ::
      r.at[j][i][l] == f.at[i][j][l]
  {
    Field(f.cols, f.rows, f.nodes,
      seq(f.cols, j requires 0 <= j < f.cols =>
        seq(f.rows, i requires 0 <= i < f.rows => f.at[i][j])))
  }

  // ---------------------------------------------------------------------
  // Cross product (`mf_cross`)
  // ---------------------------------------------------------------------

  datatype Vec3 = Vec3(x: real, y: real, z: real)

  function Cross3(u: Vec3, v: Vec3): Vec3 {
    Vec3(u.y * v.z - u.z * v.y, u.z * v.x - u.x * v.z, u.x * v.y - u.y * v.x)
  }

  function Dot3(u: Vec3, v: Vec3): real {
    u.x * v.x + u.y * v.y + u.z * v.z
  }

  function Component(v: Vec3, c: nat): real
    requires c < 3
  {
    if c == 0 then v.x else if c == 1 then v.y else v.z
  }

  /** A field of column 3-vectors, shape `(3, 1, n)`. */
  predicate IsVectorField(f: Field) {
    f.Valid() && f.rows == 3 && f.cols == 1
  }

  /** The 3-vector held at node `l` of a vector field. */
  function Column(f: Field, l: nat): Vec3
    requires IsVectorField(f) && l < f.nodes
  {
    Vec3(f.at[0][0][l], f.at[1][0][l], f.at[2][0][l])
  }

  /** The second argument of `mf_cross`: one 3-vector for all nodes, or a vector field. */
  datatype Operand = Constant(v: Vec3) | PerNode(f: Field)

  /** The operand can be combined with a vector field over `n` nodes. */
  predicate Fits(b: Operand, n: nat) {
    b.PerNode? ==> IsVectorField(b.f) && b.f.nodes == n
  }

  function OperandAt(b: Operand, l: nat): Vec3
    requires b.PerNode? ==> IsVectorField(b.f) && l < b.f.nodes
  {
    match b
    case Constant(v) => v
    case PerNode(g) => Column(g, l)
  }

  /** Two vector fields are equal as soon as their columns agree at every node. */
  lemma ColumnExtensionality(f: Field, g: Field)
    requires IsVectorField(f) && IsVectorField(g) && f.nodes == g.nodes
    requires forall l | 0 <= l < f.nodes :: Column(f, l) == Column(g, l)
    ensures f == g
  {
    forall c, j, l | 0 <= c < 3 && 0 <= j < 1 && 0 <= l < f.nodes
      ensures f.at[c][j][l] == g.at[c][j][l]
    {
      assert Column(f, l) == Column(g, l);
    }
    Extensionality(f, g);
  }

  /** The node-wise cross product `a × b`. */
  function CrossField(f: Field, b: Operand): (r: Field)
    requires IsVectorField(f) && Fits(b, f.nodes)
    ensures IsVectorField(r) && r.nodes == f.nodes
    ensures forall l | 0 <= l < f.nodes :: Column(r, l) == Cross3(Column(f, l), OperandAt(b, l))
  {
    Field(3, 1, f.nodes,
      seq(3, c requires 0 <= c < 3 =>
        [seq(f.nodes, l requires 0 <= l < f.nodes => Component(Cross3(Column(f, l), OperandAt(b, l)), c))]))
  }

  /** What `mf_cross(a, b)` does on values: the shape assert on `a`, then the operand check, then the product. */
  function CrossSpec(f: Field, b: Operand): (r: Result<Field>)
    requires f.Valid() && (b.PerNode? ==> b.f.Valid())
    ensures r.Success? ==> IsVectorField(r.value) && r.value.nodes == f.nodes
  {
    if !(f.rows == 3 && f.cols == 1) then Failure(AssertionFailed)
    else if !Fits(b, f.nodes) then Failure(BroadcastMismatch)
    else Success(CrossField(f, b))
  }

  // ---------------------------------------------------------------------
  // Constant fields of `compute_tangential_space_basis`
  // ---------------------------------------------------------------------

  /** The `d×d` identity at each of `n` nodes. */
  function Identity(d: nat, n: nat): (r: Field)
    ensures r.Valid() && r.Dims() == Shape(d, d, n)
  {
    Field(d, d, n, seq(d, i => seq(d, j => seq(n, l => if i == j then 1.0 else 0.0))))
  }

  /** `S`: the injection of the tangent plane (2 coordinates) into 3-space, at each of `n` nodes. */
  function Injection(n: nat): (r: Field)
    ensures r.Valid() && r.Dims() == Shape(3, 2, n)
  {
    Field(3, 2, n, seq(3, i => seq(2, j => seq(n, l => if i == j then 1.0 else 0.0))))
  }

  /** `Mcross`: the 2×2 matrix of "m0 ×" in tangent-plane coordinates, at each of `n` nodes. */
  function CrossGenerator(n: nat): (r: Field)
    ensures r.Valid() && r.Dims() == Shape(2, 2, n)
  {
    Field(2, 2, n, seq(2, i => seq(2, j => seq(n, l =>
      if i == 0 && j == 1 then -1.0 else if i == 1 && j == 0 then 1.0 else 0.0))))
  }
}
