/**
 * Properties of the matrix-field algebra: transposition, products of
 * several fields, the cross product, and the constant fields `S` and
 * `Mcross` of the tangent-plane basis.
 */
module MatrixFieldLemmas {
  import opened MatrixField

  // ---------------------------------------------------------------------
  // Transpose
  // ---------------------------------------------------------------------

  /** Transposing twice gives the field back. */
  lemma TransposeInvolution(f: Field)
    requires f.Valid()
    ensures Transpose(Transpose(f)) == f
  {
    Extensionality(Transpose(Transpose(f)), f);
  }

  lemma {:induction false} SumTransposed(f: Field, g: Field, i: nat, j: nat, l: nat, m: nat)
    requires f.Valid() && g.Valid() && f.cols == g.rows && f.nodes == g.nodes
    requires i < f.rows && j < g.cols && l < f.nodes && m <= f.cols
    ensures Sum(Transpose(g), Transpose(f), j, i, l, m) == Sum(f, g, i, j, l, m)
  {
    if m > 0 {
      SumTransposed(f, g, i, j, l, m - 1);
    }
  }

  /** The transpose of a node-wise product is the product of the transposes in reverse order. */
  lemma TransposeOfProduct(f: Field, g: Field)
    requires f.Valid() && g.Valid() && f.cols == g.rows && f.nodes == g.nodes
    ensures Transpose(Product(f, g)) == Product(Transpose(g), Transpose(f))
  {
    var lhs, rhs := Transpose(Product(f, g)), Product(Transpose(g), Transpose(f));
    forall j, i, l | 0 <= j < lhs.rows && 0 <= i < lhs.cols && 0 <= l < lhs.nodes
      ensures lhs.at[j][i][l] == rhs.at[j][i][l]
    {
      SumTransposed(f, g, i, j, l, f.cols);
    }
    Extensionality(lhs, rhs);
  }

  // ---------------------------------------------------------------------
  // Products of several fields
  // ---------------------------------------------------------------------

  /** Two fields are a chain exactly when `_mult_one` accepts them. */
  lemma ChainOfTwo(f: Field, g: Field)
    requires f.Valid() && g.Valid()
    ensures Chain([f, g]) <==> MultOneSpec(f, g).Success?
  {
    var fs := [f, g];
    assert fs[0] == f && fs[1] == g;
  }

  /** Once the first product of a chain of three or more is taken, the rest is a chain again. */
  lemma ChainStep(acc: Field, rest: seq<Field>)
    requires acc.Valid() && AllValid(rest) && |rest| >= 2
    requires MultOneSpec(acc, rest[0]).Success?
    ensures Chain([acc] + rest) <==> Chain([MultOneSpec(acc, rest[0]).value] + rest[1..])
  {
    var p := MultOneSpec(acc, rest[0]).value;
    var fs, gs := [acc] + rest, [p] + rest[1..];
    assert |gs| == |fs| - 1;
    assert gs[0] == p && fs[0] == acc && fs[1] == rest[0];
    assert p.rows == acc.rows && p.cols == rest[0].cols && p.nodes == acc.nodes;
    assert forall k | 1 <= k < |gs| :: gs[k] == fs[k + 1];
    if Chain(gs) {
      forall k | 0 <= k < |fs|
        ensures 1 <= fs[k].rows <= 3 && 1 <= fs[k].cols <= 3 && fs[k].nodes == fs[0].nodes
      {
        if k >= 2 {
          assert fs[k] == gs[k - 1];
        }
      }
      forall k | 0 <= k < |fs| - 1
        ensures fs[k].cols == fs[k + 1].rows
      {
        if k >= 1 {
          assert gs[k - 1].cols == gs[k].rows;
        }
      }
    }
    if Chain(fs) {
      forall k | 0 <= k < |gs|
        ensures 1 <= gs[k].rows <= 3 && 1 <= gs[k].cols <= 3 && gs[k].nodes == gs[0].nodes
      {
        if k >= 1 {
          assert gs[k] == fs[k + 1];
        }
      }
      forall k | 0 <= k < |gs| - 1
        ensures gs[k].cols == gs[k + 1].rows
      {
        assert fs[k + 1].cols == fs[k + 2].rows;
      }
    }
  }

  lemma {:induction false} FoldSucceedsIff(acc: Field, rest: seq<Field>)
    requires acc.Valid() && AllValid(rest) && rest != []
    ensures FoldProduct(acc, rest).Success? <==> Chain([acc] + rest)
    decreases |rest|
  {
    ChainOfTwo(acc, rest[0]);
    var fs := [acc] + rest;
    assert fs[0] == acc && fs[1] == rest[0];
    // A chain starts with a product `_mult_one` accepts.
    assert Chain(fs) ==> Chain([acc, rest[0]]);
    var s := MultOneSpec(acc, rest[0]);
    if s.Success? {
      if |rest| == 1 {
        assert fs == [acc, rest[0]];
      } else {
        FoldSucceedsIff(s.value, rest[1..]);
        ChainStep(acc, rest);
      }
    }
  }

  /**
   * `mf_mult` succeeds exactly on chains: at least two fields whose shapes
   * pass every assert of `_mult_one` along the left fold.
   */
  lemma MultAllSucceedsIff(fs: seq<Field>)
    requires AllValid(fs)
    ensures MultAll(fs).Success? <==> Chain(fs)
  {
    if |fs| >= 2 {
      FoldSucceedsIff(fs[0], fs[1..]);
      assert [fs[0]] + fs[1..] == fs;
    }
  }

  lemma {:induction false} FoldSnoc(acc: Field, rest: seq<Field>, g: Field)
    requires acc.Valid() && AllValid(rest) && g.Valid()
    ensures AllValid(rest + [g])
    ensures FoldProduct(acc, rest + [g]) ==
      match FoldProduct(acc, rest)
      case Failure(e) => Failure(e)
      case Success(p) => MultOneSpec(p, g)
    decreases |rest|
  {
    var all := rest + [g];
    assert forall k | 0 <= k < |all| :: all[k] == if k < |rest| then rest[k] else g;
    if rest == [] {
      assert all[1..] == [];
    } else {
      assert all[0] == rest[0] && all[1..] == rest[1..] + [g];
      if MultOneSpec(acc, rest[0]).Success? {
        FoldSnoc(MultOneSpec(acc, rest[0]).value, rest[1..], g);
      }
    }
  }

  /**
   * `mf_mult(*args, g)` is `_mult_one(mf_mult(*args), g)`: the arguments are
   * multiplied as a left fold, the last one applied last.
   */
  lemma MultAllSnoc(fs: seq<Field>, g: Field)
    requires AllValid(fs) && g.Valid() && |fs| >= 2
    ensures AllValid(fs + [g])
    ensures MultAll(fs + [g]) ==
      match MultAll(fs)
      case Failure(e) => Failure(e)
      case Success(p) => MultOneSpec(p, g)
  {
    FoldSnoc(fs[0], fs[1..], g);
    assert (fs + [g])[0] == fs[0] && (fs + [g])[1..] == fs[1..] + [g];
  }

  // ---------------------------------------------------------------------
  // Cross product
  // ---------------------------------------------------------------------

  /** At every node, `a × b` is perpendicular to `a` and to `b`. */
  lemma CrossOrthogonal(f: Field, b: Operand)
    requires IsVectorField(f) && Fits(b, f.nodes)
    ensures forall l | 0 <= l < f.nodes ::
      Dot3(Column(f, l), Column(CrossField(f, b), l)) == 0.0 &&
      Dot3(OperandAt(b, l), Column(CrossField(f, b), l)) == 0.0
  {
  }

  /** `a × a` vanishes at every node. */
  lemma CrossWithItself(f: Field)
    requires IsVectorField(f)
    ensures forall l | 0 <= l < f.nodes :: Column(CrossField(f, PerNode(f)), l) == Vec3(0.0, 0.0, 0.0)
  {
  }

  /** Swapping the factors negates the product at every node. */
  lemma CrossAnticommutes(f: Field, g: Field)
    requires IsVectorField(f) && IsVectorField(g) && f.nodes == g.nodes
    ensures forall l | 0 <= l < f.nodes ::
      var u, v := Column(CrossField(f, PerNode(g)), l), Column(CrossField(g, PerNode(f)), l);
      u == Vec3(-v.x, -v.y, -v.z)
  {
  }

  // ---------------------------------------------------------------------
  // The constant fields S and Mcross
  // ---------------------------------------------------------------------

  lemma SumOfTwo(f: Field, g: Field, i: nat, j: nat, l: nat)
    requires f.Valid() && g.Valid() && f.cols == 2 && g.rows == 2
    requires i < f.rows && j < g.cols && l < f.nodes && l < g.nodes
    ensures Sum(f, g, i, j, l, 2) == f.at[i][0][l] * g.at[0][j][l] + f.at[i][1][l] * g.at[1][j][l]
  {
    assert Sum(f, g, i, j, l, 1) == Term(f, g, i, j, l, 0);
    assert Sum(f, g, i, j, l, 2) == Term(f, g, i, j, l, 0) + Term(f, g, i, j, l, 1);
  }

  lemma SumOfThree(f: Field, g: Field, i: nat, j: nat, l: nat)
    requires f.Valid() && g.Valid() && f.cols == 3 && g.rows == 3
    requires i < f.rows && j < g.cols && l < f.nodes && l < g.nodes
    ensures Sum(f, g, i, j, l, 3) ==
      f.at[i][0][l] * g.at[0][j][l] + f.at[i][1][l] * g.at[1][j][l] + f.at[i][2][l] * g.at[2][j][l]
  {
    assert Sum(f, g, i, j, l, 1) == Term(f, g, i, j, l, 0);
    assert Sum(f, g, i, j, l, 2) == Term(f, g, i, j, l, 0) + Term(f, g, i, j, l, 1);
    assert Sum(f, g, i, j, l, 3) == Term(f, g, i, j, l, 0) + Term(f, g, i, j, l, 1) + Term(f, g, i, j, l, 2);
  }

  /** Projecting after injecting is the identity on the tangent plane: `transpose(S) · S = I₂` at every node. */
  lemma ProjectionAfterInjection(n: nat)
    ensures Product(Transpose(Injection(n)), Injection(n)) == Identity(2, n)
  {
    var s := Injection(n);
    var p := Product(Transpose(s), s);
    forall i, j, l | 0 <= i < 2 && 0 <= j < 2 && 0 <= l < n
      ensures p.at[i][j][l] == Identity(2, n).at[i][j][l]
    {
      SumOfThree(Transpose(s), s, i, j, l);
    }
    Extensionality(p, Identity(2, n));
  }

  /**
   * `Q = mf_mult(R, S)` with a 3×3 basis field `R`: it fails, with the index
   * error of reading `R[0, 0, 0]`, exactly when there are no nodes.
   */
  lemma BasisProductNeedsNodes(r: Field)
    requires r.Valid() && r.rows == 3 && r.cols == 3
    ensures AllValid([r, Injection(r.nodes)])
    ensures MultAll([r, Injection(r.nodes)]).Failure? <==> r.nodes == 0
    ensures r.nodes == 0 ==> MultAll([r, Injection(r.nodes)]) == Failure(IndexOutOfBounds)
  {
    var s := Injection(r.nodes);
    var fs := [r, s];
    assert fs[0] == r && fs[1..] == [s];
    assert ShapesMultiply(r.Dims(), s.Dims());
    assert MultAll(fs) == FoldProduct(r, [s]);
    if r.nodes > 0 {
      assert MultOneSpec(r, s) == Success(Product(r, s));
      assert [s][1..] == [];
      assert FoldProduct(r, [s]) == FoldProduct(Product(r, s), []);
      assert FoldProduct(Product(r, s), []).Success?;
    }
  }

  /** `Mcross · Mcross = −I₂`: turning twice by a right angle in the tangent plane reverses every vector. */
  lemma CrossGeneratorSquared(n: nat)
    ensures var p := Product(CrossGenerator(n), CrossGenerator(n));
      forall i, j, l | 0 <= i < 2 && 0 <= j < 2 && 0 <= l < n ::
        p.at[i][j][l] == -Identity(2, n).at[i][j][l]
  {
    var m := CrossGenerator(n);
    forall i, j, l | 0 <= i < 2 && 0 <= j < 2 && 0 <= l < n
      ensures Product(m, m).at[i][j][l] == -Identity(2, n).at[i][j][l]
    {
      SumOfTwo(m, m, i, j, l);
    }
  }

  /** `S · w` puts the two tangent coordinates first and a zero third. */
  lemma InjectionApplied(w: Field)
    requires w.Valid() && w.rows == 2 && w.cols == 1
    ensures forall l | 0 <= l < w.nodes ::
      Column(Product(Injection(w.nodes), w), l) == Vec3(w.at[0][0][l], w.at[1][0][l], 0.0)
  {
    var v := Product(Injection(w.nodes), w);
    forall l | 0 <= l < w.nodes
      ensures Column(v, l) == Vec3(w.at[0][0][l], w.at[1][0][l], 0.0)
    {
      SumOfTwo(Injection(w.nodes), w, 0, 0, l);
      SumOfTwo(Injection(w.nodes), w, 1, 0, l);
      SumOfTwo(Injection(w.nodes), w, 2, 0, l);
    }
  }

  /** `transpose(S) · v` keeps the first two coordinates of `v`. */
  lemma ProjectionApplied(v: Field)
    requires IsVectorField(v)
    ensures forall i, l | 0 <= i < 2 && 0 <= l < v.nodes ::
      Product(Transpose(Injection(v.nodes)), v).at[i][0][l] == v.at[i][0][l]
  {
    forall i, l | 0 <= i < 2 && 0 <= l < v.nodes
      ensures Product(Transpose(Injection(v.nodes)), v).at[i][0][l] == v.at[i][0][l]
    {
      SumOfThree(Transpose(Injection(v.nodes)), v, i, 0, l);
    }
  }

  /** `Mcross · w` turns `(w0, w1)` into `(−w1, w0)` at every node. */
  lemma CrossGeneratorApplied(w: Field)
    requires w.Valid() && w.rows == 2 && w.cols == 1
    ensures forall l | 0 <= l < w.nodes ::
      Product(CrossGenerator(w.nodes), w).at[0][0][l] == -w.at[1][0][l] &&
      Product(CrossGenerator(w.nodes), w).at[1][0][l] == w.at[0][0][l]
  {
    forall l | 0 <= l < w.nodes
      ensures Product(CrossGenerator(w.nodes), w).at[0][0][l] == -w.at[1][0][l]
      ensures Product(CrossGenerator(w.nodes), w).at[1][0][l] == w.at[0][0][l]
    {
      SumOfTwo(CrossGenerator(w.nodes), w, 0, 0, l);
      SumOfTwo(CrossGenerator(w.nodes), w, 1, 0, l);
    }
  }

  /**
   * `Mcross` is "m0 ×" written in tangent-plane coordinates: for a 2-vector
   * field `w`, `Mcross · w` equals injecting `w` into 3-space with `S`,
   * crossing with `(0, 0, −1)` on the right (the call `mf_cross(m0, [0, 0, -1])`
   * of `compute_tangential_space_basis`, which is `e_z × m0`) and projecting
   * back with `transpose(S)`; in that frame `m0` is `e_z`.
   */
  lemma CrossGeneratorIsCross(w: Field)
    requires w.Valid() && w.rows == 2 && w.cols == 1
    ensures Product(CrossGenerator(w.nodes), w) ==
      Product(Transpose(Injection(w.nodes)), CrossField(Product(Injection(w.nodes), w), Constant(Vec3(0.0, 0.0, -1.0))))
  {
    var n := w.nodes;
    var v := Product(Injection(n), w);
    var c := CrossField(v, Constant(Vec3(0.0, 0.0, -1.0)));
    var lhs, rhs := Product(CrossGenerator(n), w), Product(Transpose(Injection(n)), c);
    InjectionApplied(w);
    ProjectionApplied(c);
    CrossGeneratorApplied(w);
    forall i, j, l | 0 <= i < 2 && 0 <= j < 1 && 0 <= l < n
      ensures lhs.at[i][j][l] == rhs.at[i][j][l]
    {
      assert Column(c, l) == Cross3(Column(v, l), Vec3(0.0, 0.0, -1.0));
    }
    Extensionality(lhs, rhs);
  }
}
