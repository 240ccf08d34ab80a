# Matrix fields of finmag's normal-mode solver

finmag computes the normal modes of a magnetisation configuration `m0` on a
mesh of `n` nodes. Its deprecated normal-mode module stores many small
matrices and vectors as *matrix fields*. A matrix field is a numpy array of
shape `(r, c, n)`: one `r×c` matrix at each node, with `r, c ≤ 3`. This
project models the algebra of those fields and proves properties of it:

- `_mult_one` is the node-wise product of two fields. It is a triple loop
  that adds `a[i, k, :] * b[k, j, :]` into a zero array.
- `mf_mult` multiplies any number of fields from the left. Fewer than two
  arguments is an error.
- `mf_transpose` swaps the first two axes.
- `mf_cross` is the node-wise cross product of a vector field with a
  constant 3-vector or with another vector field.
- `compute_tangential_space_basis` checks the shape of `m0` and sets up two
  constant fields:
  - `S`, the 3×2 injection of the tangent plane into 3-space;
  - `Mcross`, the 2×2 matrix of "m0 ×" in tangent-plane coordinates.
- `get_phaseplot_ticks_and_labels` gives the colour-bar ticks of phase plots.

The project has four modules:

- `MatrixField` (matrix_field.dfy) describes fields as values (`Field`, with
  an explicit shape) and gives the operations as functions. Each operation
  follows the source's failure order: the shape asserts first, then the
  `IndexError` of `a[0, 0, 0]` on an empty axis, then the result.
- `FieldArrays` (field_arrays.dfy) runs the same operations on arrays
  (`array3<real>`), with the loops and in-place writes of the source. Each
  method is proved to leave in its fresh result array exactly the field that
  the corresponding `MatrixField` function describes. `Snapshot(a)` is the
  field that array `a` holds.
- `MatrixFieldLemmas` (matrix_field_lemmas.dfy) proves properties of the
  operations:
  - when `mf_mult` succeeds;
  - the left-fold law of `mf_mult`;
  - transpose laws;
  - cross-product identities;
  - the algebra of `S` and `Mcross`.
- `PhasePlot` (phase_plot.dfy) models the phase-plot ticks.

## Model

All source paths are in `src/finmag/normal_modes/deprecated/normal_modes_deprecated.py`.

| member | source | states |
|---|---|---|
| MatrixField.Product | src/finmag/normal_modes/deprecated/normal_modes_deprecated.py:27-33 | The product has shape `(a.rows, b.cols, n)`. Entry `(i, j)` at node `l` is `Σ_k a[i,k,l]·b[k,j,l]`, summed in the loop's order of `k`. |
| MatrixField.MultOneSpec | src/finmag/normal_modes/deprecated/normal_modes_deprecated.py:17-35 | `_mult_one` on values fails an assert unless node counts agree, inner extents agree and every extent is at most 3. Otherwise it fails with an index error on an empty axis. Otherwise it succeeds with the `(a.rows, b.cols, n)` product. |
| FieldArrays.AddTerm | src/finmag/normal_modes/deprecated/normal_modes_deprecated.py:33 | `res[i, j, :] += a[i, k, :] * b[k, j, :]` adds term `k` into entry `(i, j)` at every node. Entries done before keep their full sums. Entries still ahead stay zero. |
| FieldArrays.AccumulateEntry | src/finmag/normal_modes/deprecated/normal_modes_deprecated.py:32-33 | The innermost loop leaves entry `(i, j)` holding its complete sum at every node. No other entry changes. |
| FieldArrays.MultOne | src/finmag/normal_modes/deprecated/normal_modes_deprecated.py:17-35 | The array `_mult_one` returns holds `MultOneSpec` of the argument arrays' contents, in a fresh array. A failure returned is the error `MultOneSpec` names. |
| MatrixField.FoldProduct | src/finmag/normal_modes/deprecated/normal_modes_deprecated.py:43-45 | Multiplying `acc` by the remaining fields from the left keeps the rows and node count of `acc`. It ends with the columns of the last factor. |
| MatrixField.MultAll | src/finmag/normal_modes/deprecated/normal_modes_deprecated.py:39-47 | `mf_mult` with fewer than two arguments raises. A product it returns has the rows and node count of the first field and the columns of the last. |
| FieldArrays.MfMult | src/finmag/normal_modes/deprecated/normal_modes_deprecated.py:39-47 | The loop `res = _mult_one(res, args[i])` returns exactly `MultAll` of the arguments' contents: the same product, or the same first failure. |
| MatrixFieldLemmas.ChainOfTwo | src/finmag/normal_modes/deprecated/normal_modes_deprecated.py:19-29 | Two fields pass every assert of `_mult_one` and its `a[0, 0, 0]` read exactly when they form a chain. |
| MatrixFieldLemmas.ChainStep | src/finmag/normal_modes/deprecated/normal_modes_deprecated.py:43-45 | After the first successful product, the remaining argument list is a chain exactly when the whole list was. |
| MatrixFieldLemmas.FoldSucceedsIff | src/finmag/normal_modes/deprecated/normal_modes_deprecated.py:43-45 | The left fold succeeds if and only if the accumulator and the remaining factors form a chain. |
| MatrixFieldLemmas.MultAllSucceedsIff | src/finmag/normal_modes/deprecated/normal_modes_deprecated.py:39-47 | `mf_mult` succeeds if and only if its arguments are a chain: at least two fields, one node count (non-zero), every extent in 1..3, and neighbouring inner extents equal. |
| MatrixFieldLemmas.FoldSnoc | src/finmag/normal_modes/deprecated/normal_modes_deprecated.py:43-45 | Appending a factor to the fold multiplies the fold's result by it, or keeps the fold's failure. |
| MatrixFieldLemmas.MultAllSnoc | src/finmag/normal_modes/deprecated/normal_modes_deprecated.py:39-47 | `mf_mult(*args, g)` equals `_mult_one(mf_mult(*args), g)`, failures included. |
| MatrixField.Transpose | src/finmag/normal_modes/deprecated/normal_modes_deprecated.py:51-52 | Swapping the first two axes gives shape `(c, r, n)`, with entry `(j, i)` at node `l` equal to `a[i, j, l]`. |
| MatrixFieldLemmas.TransposeInvolution | src/finmag/normal_modes/deprecated/normal_modes_deprecated.py:51-52 | Transposing twice gives the field back. |
| MatrixFieldLemmas.TransposeOfProduct | src/finmag/normal_modes/deprecated/normal_modes_deprecated.py:51-52 | `transpose(a·b) = transpose(b)·transpose(a)` at every node. This is one of the laws behind using `transpose(Q)` as the projection back from 3-space; the others are `ProjectionAfterInjection` and the orthonormality of `R`, which is not modelled. |
| MatrixField.CrossField | src/finmag/normal_modes/deprecated/normal_modes_deprecated.py:60-63 | The result is a `(3, 1, n)` field whose vector at each node is the cross product of `a`'s vector there with the operand's. |
| MatrixField.CrossSpec | src/finmag/normal_modes/deprecated/normal_modes_deprecated.py:57-64 | `mf_cross` fails its assert unless `a` is `(3, 1, n)`. It fails on an operand that does not broadcast. Otherwise it returns a `(3, 1, n)` vector field. |
| FieldArrays.CrossWritten | src/finmag/normal_modes/deprecated/normal_modes_deprecated.py:60-63 | An array whose three components hold `a × b` at every node holds `CrossField(a, b)`. |
| FieldArrays.MfCross | src/finmag/normal_modes/deprecated/normal_modes_deprecated.py:57-64 | Writing the three components into a fresh array gives exactly `CrossSpec` of the arguments' contents, on success and on each failure. |
| MatrixFieldLemmas.CrossOrthogonal | src/finmag/normal_modes/deprecated/normal_modes_deprecated.py:60-63 | At every node, `a × b` is perpendicular to both `a` and `b`. |
| MatrixFieldLemmas.CrossWithItself | src/finmag/normal_modes/deprecated/normal_modes_deprecated.py:60-63 | `a × a` is zero at every node. |
| MatrixFieldLemmas.CrossAnticommutes | src/finmag/normal_modes/deprecated/normal_modes_deprecated.py:60-63 | `a × b = −(b × a)` at every node. |
| MatrixField.Injection | src/finmag/normal_modes/deprecated/normal_modes_deprecated.py:96-98 | `S` is a `(3, 2, n)` field. |
| MatrixField.CrossGenerator | src/finmag/normal_modes/deprecated/normal_modes_deprecated.py:101-104 | `Mcross` is a `(2, 2, n)` field. |
| FieldArrays.NewInjection | src/finmag/normal_modes/deprecated/normal_modes_deprecated.py:96-98 | The zero array with `S[0, 0, :] = S[1, 1, :] = 1` holds `Injection(n)`. |
| FieldArrays.NewCrossGenerator | src/finmag/normal_modes/deprecated/normal_modes_deprecated.py:101-104 | The zero array with `Mcross[0, 1, :] = -1` and `Mcross[1, 0, :] = 1` holds `CrossGenerator(n)`. |
| FieldArrays.TangentialConstants | src/finmag/normal_modes/deprecated/normal_modes_deprecated.py:73-78 | The shape assert on `m0` fails exactly when `m0` is not `(3, 1, n)`. Otherwise, with no nodes, the set-up fails with the index error that `Q = mf_mult(R, S)` raises. Otherwise the result is two distinct fresh arrays holding `S` and `Mcross` for the `n` nodes of `m0`. |
| MatrixFieldLemmas.BasisProductNeedsNodes | src/finmag/normal_modes/deprecated/normal_modes_deprecated.py:110 | For any 3×3 field `R`, `mf_mult(R, S)` fails exactly when there are no nodes, and then with the index error of `_mult_one`'s `a[0, 0, 0]` read. |
| MatrixFieldLemmas.ProjectionAfterInjection | src/finmag/normal_modes/deprecated/normal_modes_deprecated.py:95-99 | `transpose(S)·S = I₂` at every node: projecting after injecting changes nothing. |
| MatrixFieldLemmas.InjectionApplied | src/finmag/normal_modes/deprecated/normal_modes_deprecated.py:95-98 | `S·w` is `(w0, w1, 0)` at every node. |
| MatrixFieldLemmas.ProjectionApplied | src/finmag/normal_modes/deprecated/normal_modes_deprecated.py:99 | `transpose(S)·v` is `(v0, v1)` at every node. |
| MatrixFieldLemmas.CrossGeneratorApplied | src/finmag/normal_modes/deprecated/normal_modes_deprecated.py:100-104 | `Mcross·w` is `(−w1, w0)` at every node. |
| MatrixFieldLemmas.CrossGeneratorSquared | src/finmag/normal_modes/deprecated/normal_modes_deprecated.py:100-104 | `Mcross·Mcross = −I₂` at every node. |
| MatrixFieldLemmas.CrossGeneratorIsCross | src/finmag/normal_modes/deprecated/normal_modes_deprecated.py:80-82 | `Mcross·w = transpose(S)·((S·w) × (0, 0, −1))`. So `Mcross` is the cross product that line 82 uses, written in tangent-plane coordinates with `m0` along `e_z`. |
| PhasePlot.PhasePlotTicks | src/finmag/normal_modes/deprecated/normal_modes_deprecated.py:672-686 | Ticks exist if and only if the count is 3 or 5. Any other count is a `ValueError` that carries the count. Ticks run evenly and strictly ascending from −π to π, symmetrically about 0. Each label names its own tick. |

## Left out

- Element type. Entries are exact reals.
  - `_mult_one`'s choice of a complex dtype (lines 27-29) is not modelled.
  - Floating-point rounding is not modelled.
- MatrixField.Product: the sums are exact. Floating-point addition is not associative, so the model fixes the loop's order of summation (`Sum`) but does not model rounding.
- FieldArrays.AddTerm: the vectorised `+=` over nodes is a single simultaneous update of all nodes. This is numpy's effect when `res` does not alias `a` or `b`, and `_mult_one` always allocates `res` fresh.
- MatrixField.CrossSpec: the per-node operand must be a `(3, 1, n)` field, or the operand must be a constant 3-vector.
  - Other operand shapes that numpy would also broadcast are reported as `BroadcastMismatch`. Examples are `(3, n)`, `(3, 1, 1)`, and a list with more than three items.
  - FieldArrays.MfCross follows the same rule.
- Arrays with other than three axes cannot be represented. The asserts `len(a.shape) == 3` and `m0.ndim == 3` therefore always hold in the model.
- MatrixField.Transpose: `np.transpose` returns a view that shares memory with its argument. The model returns a new value, so aliasing through the view is not modelled. The callers copy it at once (`.copy()` at line 181).
- The rest of `compute_tangential_space_basis` is not modelled because it relies on floating-point square roots:
  - `m_perp`;
  - the `1e-100` nudge;
  - `mf_normalise`;
  - the basis `R`;
  - `Q = mf_mult(R, S)`.

  The call `mf_cross(m0, [0, 0, -1])` itself is `CrossField`/`CrossSpec` with a `Constant` operand; `CrossGeneratorIsCross` applies that same operand to `S·w` to show that `Mcross` mirrors it.
- FieldArrays.TangentialConstants returns only `S` and `Mcross`, not `Q` and `R`. Of the steps between lines 80 and 110 it keeps only the one failure they can cause, the index error of `Q = mf_mult(R, S)` when there are no nodes.
- Other parts of the module are not modelled:
  - eigenproblem assembly;
  - finite differences;
  - sparse and dense eigensolvers;
  - file export and plotting.
- The `Field` class of finmag, the simulation object, dolfin meshes and the FEM/BEM demagnetisation solver are not part of this model.
- PhasePlot.PhasePlotTicks: tick positions are integers in units of π/2, not the floating-point multiples of `math.pi` that the source returns. Python's `num_ticks == 3` would also accept `3.0`; the model takes an integer count.
