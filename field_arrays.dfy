/**
 * The matrix-field operations on arrays, as the normal-mode code runs them:
 * an `r×c×n` numpy array is an `array3<real>`. Each method allocates its
 * result, fills it in place, and is proved to produce the field that the
 * corresponding function of MatrixField describes.
 */
module FieldArrays {
  import opened MatrixField

  /** The field an array holds. */
  function Snapshot(a: array3<real>): (f: Field)
    reads a
    ensures f.Valid() && f.Dims() == Shape(a.Length0, a.Length1, a.Length2)
    ensures forall i, j, l | 0 <= i < a.Length0 && 0 <= j < a.Length1 && 0 <= l < a.Length2 ::
      f.at[i][j][l] == a[i, j, l]
  {
    Field(a.Length0, a.Length1, a.Length2,
      seq(a.Length0, i requires 0 <= i < a.Length0 reads a =>
        seq(a.Length1, j requires 0 <= j < a.Length1 reads a =>
          seq(a.Length2, l requires 0 <= l < a.Length2 reads a => a[i, j, l]))))
  }

  /** The fields a list of arrays holds, in order. */
  function Snapshots(args: seq<array3<real>>): (fs: seq<Field>)
    reads set k | 0 <= k < |args| :: args[k]
    ensures |fs| == |args| && AllValid(fs)
    ensures forall k | 0 <= k < |args| :: fs[k] == Snapshot(args[k])
  {
    seq(|args|, k requires 0 <= k < |args| reads if 0 <= k < |args| then {args[k]} else {} => Snapshot(args[k]))
  }

  // ---------------------------------------------------------------------
  // `_mult_one`
  // ---------------------------------------------------------------------

  /**
   * How many terms `_mult_one` has added into entry `(i', j')` once its loops
   * stand at `(i, j, k)`: all `inner` of them for entries visited before,
   * `k` for the current one, none for those still ahead.
   */
  function Added(i': nat, j': nat, i: nat, j: nat, k: nat, inner: nat): nat {
    if i' < i || (i' == i && j' < j) then inner
    else if i' == i && j' == j then k
    else 0
  }

  /** Every entry of `res` holds the partial sum the loops have accumulated into it so far. */
  ghost predicate Accumulated(res: array3<real>, f: Field, g: Field, i: nat, j: nat, k: nat)
    reads res
  {
    && f.Valid() && g.Valid() && f.cols == g.rows && f.nodes == g.nodes
    && res.Length0 == f.rows && res.Length1 == g.cols && res.Length2 == f.nodes
    && k <= f.cols
    && forall i', j', l | 0 <= i' < res.Length0 && 0 <= j' < res.Length1 && 0 <= l < res.Length2 ::
         res[i', j', l] == Sum(f, g, i', j', l, Added(i', j', i, j, k, f.cols))
  }

  /** The entry the loops have just finished counts as done when they move on to the next column. */
  lemma NextColumn(res: array3<real>, f: Field, g: Field, i: nat, j: nat)
    requires Accumulated(res, f, g, i, j, f.cols)
    ensures Accumulated(res, f, g, i, j + 1, 0)
  {
    forall i', j', l | 0 <= i' < res.Length0 && 0 <= j' < res.Length1 && 0 <= l < res.Length2
      ensures res[i', j', l] == Sum(f, g, i', j', l, Added(i', j', i, j + 1, 0, f.cols))
    {
      assert Added(i', j', i, j, f.cols, f.cols) == Added(i', j', i, j + 1, 0, f.cols);
    }
  }

  /** Once a whole row is done the loops move on to the next row. */
  lemma NextRow(res: array3<real>, f: Field, g: Field, i: nat)
    requires Accumulated(res, f, g, i, g.cols, 0)
    ensures Accumulated(res, f, g, i + 1, 0, 0)
  {
    forall i', j', l | 0 <= i' < res.Length0 && 0 <= j' < res.Length1 && 0 <= l < res.Length2
      ensures res[i', j', l] == Sum(f, g, i', j', l, Added(i', j', i + 1, 0, 0, f.cols))
    {
      assert Added(i', j', i, g.cols, 0, f.cols) == Added(i', j', i + 1, 0, 0, f.cols);
    }
  }

  /** When every row is done, the array holds the node-wise product. */
  lemma AllAccumulated(res: array3<real>, f: Field, g: Field)
    requires Accumulated(res, f, g, f.rows, 0, 0)
    ensures Snapshot(res) == Product(f, g)
  {
    Extensionality(Snapshot(res), Product(f, g));
  }

  /** The products `a[i, k, :] * b[k, j, :]` are the terms of the node-wise product. */
  lemma TermsRead(a: array3<real>, b: array3<real>, f: Field, g: Field, i: nat, j: nat, k: nat)
    requires f == Snapshot(a) && g == Snapshot(b)
    requires i < a.Length0 && k < a.Length1 && k < b.Length0 && j < b.Length1 && a.Length2 == b.Length2
    ensures forall l | 0 <= l < a.Length2 :: a[i, k, l] * b[k, j, l] == Term(f, g, i, j, l, k)
  {
  }

  /** `res[i, j, :] += a[i, k, :] * b[k, j, :]`: one term added into entry `(i, j)` at every node at once. */
  method AddTerm(res: array3<real>, a: array3<real>, b: array3<real>, i: nat, j: nat, k: nat, ghost f: Field, ghost g: Field)
    requires res != a && res != b
    requires Accumulated(res, f, g, i, j, k) && i < f.rows && j < g.cols && k < f.cols
    requires i < a.Length0 && k < a.Length1 && k < b.Length0 && j < b.Length1
    requires a.Length2 == res.Length2 && b.Length2 == res.Length2
    requires forall l | 0 <= l < res.Length2 :: a[i, k, l] * b[k, j, l] == Term(f, g, i, j, l, k)
    modifies res
    ensures Accumulated(res, f, g, i, j, k + 1)
  {
    forall l | 0 <= l < res.Length2 {
      res[i, j, l] := res[i, j, l] + a[i, k, l] * b[k, j, l];
    }
    forall i', j', l | 0 <= i' < res.Length0 && 0 <= j' < res.Length1 && 0 <= l < res.Length2
      ensures res[i', j', l] == Sum(f, g, i', j', l, Added(i', j', i, j, k + 1, f.cols))
    {
      if i' == i && j' == j {
        assert res[i, j, l] == Sum(f, g, i, j, l, k) + Term(f, g, i, j, l, k);
        assert Added(i', j', i, j, k + 1, f.cols) == k + 1;
      } else {
        assert Added(i', j', i, j, k, f.cols) == Added(i', j', i, j, k + 1, f.cols);
      }
    }
  }

  /** The innermost loop of `_mult_one`: all terms `k` of entry `(i, j)`, in increasing `k`. */
  method AccumulateEntry(res: array3<real>, a: array3<real>, b: array3<real>, i: nat, j: nat, ghost f: Field, ghost g: Field)
    requires res != a && res != b
    requires f == Snapshot(a) && g == Snapshot(b)
    requires Accumulated(res, f, g, i, j, 0) && i < f.rows && j < g.cols
    modifies res
    ensures Accumulated(res, f, g, i, j + 1, 0)
  {
    for k := 0 to a.Length1
      invariant f == Snapshot(a) && g == Snapshot(b)
      invariant Accumulated(res, f, g, i, j, k)
    {
      TermsRead(a, b, f, g, i, j, k);
      AddTerm(res, a, b, i, j, k, f, g);
    }
    NextColumn(res, f, g, i, j);
  }

  /**
   * `_mult_one(a, b)`: the node-wise product of two matrix fields. The shape
   * asserts fail first, then reading `a[0, 0, 0] + b[0, 0, 0]` (done to pick
   * the element type) fails on an empty axis; otherwise a zero array of shape
   * `(a.rows, b.cols, n)` is filled by the triple loop `res[i, j, :] += a[i, k, :] * b[k, j, :]`.
   */
  method MultOne(a: array3<real>, b: array3<real>) returns (r: Result<array3<real>>)
    ensures r.Failure? ==> MultOneSpec(Snapshot(a), Snapshot(b)) == Failure(r.error)
    ensures r.Success? ==> fresh(r.value) && MultOneSpec(Snapshot(a), Snapshot(b)) == Success(Snapshot(r.value))
  {
    ghost var f, g := Snapshot(a), Snapshot(b);
    if !ShapesMultiply(Shape(a.Length0, a.Length1, a.Length2), Shape(b.Length0, b.Length1, b.Length2)) {
      return Failure(AssertionFailed);
    }
    if !(HasEntries(Shape(a.Length0, a.Length1, a.Length2)) && HasEntries(Shape(b.Length0, b.Length1, b.Length2))) {
      return Failure(IndexOutOfBounds);
    }
    var rows, cols, inner, nodes := a.Length0, b.Length1, a.Length1, a.Length2;
    var res := new real[rows, cols, nodes]((_, _, _) => 0.0);
    for i := 0 to rows
      invariant f == Snapshot(a) && g == Snapshot(b)
      invariant Accumulated(res, f, g, i, 0, 0)
    {
      for j := 0 to cols
        invariant f == Snapshot(a) && g == Snapshot(b)
        invariant Accumulated(res, f, g, i, j, 0)
      {
        AccumulateEntry(res, a, b, i, j, f, g);
      }
      NextRow(res, f, g, i);
    }
    AllAccumulated(res, f, g);
    return Success(res);
  }

  // ---------------------------------------------------------------------
  // `mf_mult`
  // ---------------------------------------------------------------------

  /** One step of the left fold: multiply by the next factor, or stop at its failure. */
  lemma FoldStep(acc: Field, rest: seq<Field>)
    requires acc.Valid() && AllValid(rest) && rest != []
    ensures AllValid(rest[1..])
    ensures FoldProduct(acc, rest) ==
      match MultOneSpec(acc, rest[0])
      case Failure(e) => Failure(e)
      case Success(p) => FoldProduct(p, rest[1..])
  {
  }

  /**
   * `mf_mult(*args)`: fewer than two arguments is an error; otherwise the
   * arguments are multiplied from the left with `_mult_one`, and its first
   * failure is the result.
   */
  method MfMult(args: seq<array3<real>>) returns (r: Result<array3<real>>)
    ensures r.Failure? ==> MultAll(Snapshots(args)) == Failure(r.error)
    ensures r.Success? ==> fresh(r.value) && MultAll(Snapshots(args)) == Success(Snapshot(r.value))
  {
    ghost var fs := Snapshots(args);
    if |args| < 2 {
      return Failure(TooFewArguments);
    }
    var res := args[0];
    ghost var acc := fs[0];
    for i := 1 to |args|
      invariant fs == Snapshots(args)
      invariant Snapshot(res) == acc
      invariant i > 1 ==> fresh(res)
      invariant FoldProduct(acc, fs[i..]) == MultAll(fs)
    {
      FoldStep(acc, fs[i..]);
      var step := MultOne(res, args[i]);
      if step.Failure? {
        return Failure(step.error);
      }
      res := step.value;
      acc := Snapshot(res);
    }
    assert fs[|args|..] == [];
    return Success(res);
  }

  // ---------------------------------------------------------------------
  // `mf_cross`
  // ---------------------------------------------------------------------

  /** The second argument of `mf_cross`: a plain 3-vector, or an array holding a vector field. */
  datatype CrossArg = VectorArg(v: Vec3) | FieldArg(b: array3<real>)

  function ArgValue(arg: CrossArg): (op: Operand)
    reads if arg.FieldArg? then {arg.b} else {}
    ensures op.PerNode? ==> op.f.Valid()
  {
    match arg
    case VectorArg(v) => Constant(v)
    case FieldArg(b) => PerNode(Snapshot(b))
  }

  /** The vector `x[:, 0, l]` that a `(3, 1, n)` array holds at node `l`. */
  function VectorAt(x: array3<real>, l: nat): Vec3
    reads x
    requires x.Length0 == 3 && x.Length1 == 1 && l < x.Length2
  {
    Vec3(x[0, 0, l], x[1, 0, l], x[2, 0, l])
  }

  /** The operand's vector at node `l`. */
  function ArgVector(arg: CrossArg, l: nat): Vec3
    reads if arg.FieldArg? then {arg.b} else {}
    requires arg.FieldArg? ==> arg.b.Length0 == 3 && arg.b.Length1 == 1 && l < arg.b.Length2
  {
    match arg
    case VectorArg(v) => v
    case FieldArg(b) => VectorAt(b, l)
  }

  /** An array that holds `a[:, 0, l] × b` at every node `l` holds the cross-product field. */
  lemma CrossWritten(a: array3<real>, arg: CrossArg, res: array3<real>)
    requires a.Length0 == 3 && a.Length1 == 1
    requires arg.FieldArg? ==> arg.b.Length0 == 3 && arg.b.Length1 == 1 && arg.b.Length2 == a.Length2
    requires res.Length0 == 3 && res.Length1 == 1 && res.Length2 == a.Length2
    requires forall l | 0 <= l < a.Length2 :: VectorAt(res, l) == Cross3(VectorAt(a, l), ArgVector(arg, l))
    ensures Fits(ArgValue(arg), a.Length2)
    ensures Snapshot(res) == CrossField(Snapshot(a), ArgValue(arg))
  {
    var f, op := Snapshot(a), ArgValue(arg);
    var written, product := Snapshot(res), CrossField(f, op);
    forall l | 0 <= l < a.Length2
      ensures Column(written, l) == Column(product, l)
    {
      assert Column(f, l) == VectorAt(a, l);
      assert OperandAt(op, l) == ArgVector(arg, l);
      assert Column(written, l) == VectorAt(res, l);
    }
    ColumnExtensionality(written, product);
  }

  /**
   * `mf_cross(a, b)`: asserts that `a` has shape `(3, 1, n)` and writes the
   * three components of `a × b` (as `Cross3` spells them out) into a fresh
   * array of that shape, one component over all nodes at a time.
   */
  method MfCross(a: array3<real>, arg: CrossArg) returns (r: Result<array3<real>>)
    ensures r.Failure? ==> CrossSpec(Snapshot(a), ArgValue(arg)) == Failure(r.error)
    ensures r.Success? ==> fresh(r.value) && CrossSpec(Snapshot(a), ArgValue(arg)) == Success(Snapshot(r.value))
  {
    if !(a.Length0 == 3 && a.Length1 == 1) {
      return Failure(AssertionFailed);
    }
    var n := a.Length2;
    if arg.FieldArg? && !(arg.b.Length0 == 3 && arg.b.Length1 == 1 && arg.b.Length2 == n) {
      return Failure(BroadcastMismatch);
    }
    var res := new real[3, 1, n];
    forall l | 0 <= l < n {
      res[0, 0, l] := Cross3(VectorAt(a, l), ArgVector(arg, l)).x;
    }
    forall l | 0 <= l < n {
      res[1, 0, l] := Cross3(VectorAt(a, l), ArgVector(arg, l)).y;
    }
    forall l | 0 <= l < n {
      res[2, 0, l] := Cross3(VectorAt(a, l), ArgVector(arg, l)).z;
    }
    CrossWritten(a, arg, res);
    return Success(res);
  }

  // ---------------------------------------------------------------------
  // The constant fields of `compute_tangential_space_basis`
  // ---------------------------------------------------------------------

  /** `S = zeros((3, 2, n))` with `S[0, 0, :] = S[1, 1, :] = 1`. */
  method NewInjection(n: nat) returns (s: array3<real>)
    ensures fresh(s) && Snapshot(s) == Injection(n)
  {
    s := new real[3, 2, n]((_, _, _) => 0.0);
    forall l | 0 <= l < n {
      s[0, 0, l] := 1.0;
    }
    forall l | 0 <= l < n {
      s[1, 1, l] := 1.0;
    }
    assert forall i, j, l | 0 <= i < 3 && 0 <= j < 2 && 0 <= l < n :: s[i, j, l] == if i == j then 1.0 else 0.0;
    Extensionality(Snapshot(s), Injection(n));
  }

  /** `Mcross = zeros((2, 2, n))` with `Mcross[0, 1, :] = -1` and `Mcross[1, 0, :] = 1`. */
  method NewCrossGenerator(n: nat) returns (mcross: array3<real>)
    ensures fresh(mcross) && Snapshot(mcross) == CrossGenerator(n)
  {
    mcross := new real[2, 2, n]((_, _, _) => 0.0);
    forall l | 0 <= l < n {
      mcross[0, 1, l] := -1.0;
    }
    forall l | 0 <= l < n {
      mcross[1, 0, l] := 1.0;
    }
    assert forall i, j, l | 0 <= i < 2 && 0 <= j < 2 && 0 <= l < n ::
      mcross[i, j, l] == if i == 0 && j == 1 then -1.0 else if i == 1 && j == 0 then 1.0 else 0.0;
    Extensionality(Snapshot(mcross), CrossGenerator(n));
  }

  /** The injection `S` and the rotation `Mcross` that `compute_tangential_space_basis` returns. */
  datatype TangentConstants = TangentConstants(s: array3<real>, mcross: array3<real>)

  /**
   * The shape check on `m0` and the set-up of `S` and `Mcross` in
   * `compute_tangential_space_basis(m0)`, over the `n` nodes of `m0`. With
   * no nodes the shape check passes, but the later `Q = mf_mult(R, S)` reads
   * `R[0, 0, 0]` of an empty array and raises (see BasisProductNeedsNodes),
   * so the set-up fails with an index error.
   */
  method TangentialConstants(m0: array3<real>) returns (r: Result<TangentConstants>)
    ensures r.Failure? <==> !(m0.Length0 == 3 && m0.Length1 == 1) || m0.Length2 == 0
    ensures r.Failure? ==> r.error == if !(m0.Length0 == 3 && m0.Length1 == 1) then AssertionFailed else IndexOutOfBounds
    ensures r.Success? ==> fresh(r.value.s) && fresh(r.value.mcross) && r.value.s != r.value.mcross
    ensures r.Success? ==> Snapshot(r.value.s) == Injection(m0.Length2)
    ensures r.Success? ==> Snapshot(r.value.mcross) == CrossGenerator(m0.Length2)
  {
    if !(m0.Length0 == 3 && m0.Length1 == 1) {
      return Failure(AssertionFailed);
    }
    if m0.Length2 == 0 {
      return Failure(IndexOutOfBounds);
    }
    var s := NewInjection(m0.Length2);
    var mcross := NewCrossGenerator(m0.Length2);
    return Success(TangentConstants(s, mcross));
  }
}
