# Circuit unitaries and Hilbert-Schmidt test templates

A Dafny model of two pieces of PennyLane.

**`get_unitary_matrix`** builds the dense matrix of a circuit under an explicit
wire ordering. For each operation it does the following:

- look up the positions of the operation's wires in the ordering;
- compute the unused positions, which give the axis permutation;
- embed the gate's `2^k x 2^k` matrix into the `2^n x 2^n` space with
  `tensordot` against an identity tensor, `moveaxis` and `reshape`;
- multiply the result onto the running matrix from the left.

**The `HilbertSchmidt` and `HilbertSchmidtLocal` templates** cover:

- construction-time validation of the U tape and the V wires;
- the flat gate lists of the full and the local Hilbert-Schmidt test;
- the adjoint of the full test.

## How the model is built

- Matrices are `seq<seq<int>>`. Basis indices are big-endian: `wire_order[0]`
  is the most significant bit.
- `tensordot` is a sum over the contracted bit-strings (`Embedding.Contract`).
  `moveaxis` is a gather or scatter by the permutation. `reshape` is the pair
  `Bits.ToBits` / `Bits.FromBits`.
- The embedding is proved equal to its closed form.
  `Embed(M)[r][c]` is `M[r restricted to p][c restricted to p]` when `r` and
  `c` agree on every unused bit, and 0 otherwise.
- Wire labels are a type parameter in `UnitaryMatrix`.
- Errors the source raises are `Result` values:
  - a repeated label in `Wires(...)`;
  - a wire missing from the ordering;
  - each `QuantumFunctionError` of the constructor;
  - an index past the end of `wires`.
- Gates of the templates are values of a `Gate` datatype. `op.adjoint()` is the
  constructor `Adjoint`.
- Tracing the V function (`make_tape`) is a caller-supplied function value,
  `HilbertSchmidt.Tracer`.

Modules, one per file:

- `Results`
- `Bits`: big-endian bit strings
- `Ranges`: `range`, `reversed`, `zip`
- `WireIndex`: wire positions and unused positions
- `Embedding`: gate embedding, matrix products
- `UnitaryMatrix`: the per-operation fold
- `HilbertSchmidt`: the two templates

## Model

| member | source | states |
|---|---|---|
| Ranges.Range | pennylane/templates/subroutines/hilbert_schmidt.py:70-71 | `range(lo, hi)` is lo, lo + 1, ..., hi - 1, and empty when lo >= hi |
| Ranges.Reversed | pennylane/templates/subroutines/hilbert_schmidt.py:93 | `reversed(s)` has the length of s and holds s[|s| - 1 - i] at i |
| Ranges.Zip | pennylane/templates/subroutines/hilbert_schmidt.py:79 | `zip(a, b)` stops at the shorter list and pairs a[i] with b[i] |
| Bits.ToBitsIsShiftAndMask | pennylane/transforms/get_unitary_matrix.py:56 | reshaping a basis index into n axes of size 2 puts bit (x / 2^(n-1-q)) % 2 on axis q, so axis 0 (wire_order[0]) is the most significant bit |
| Bits.FromBitsToBits | pennylane/transforms/get_unitary_matrix.py:67 | reshaping an index below 2^m into m binary axes and back to one axis returns the index |
| Bits.ToBitsFromBits | pennylane/transforms/get_unitary_matrix.py:56-59 | flattening m binary axes and splitting them again returns the same axis values |
| Bits.FromBitsInjective | pennylane/transforms/get_unitary_matrix.py:67 | two multi-indices of equal length flatten to the same index exactly when they are equal |
| WireIndex.Positions | pennylane/transforms/get_unitary_matrix.py:54 | `wire_order.indices(op.wires)` succeeds exactly when every op wire is in the ordering; then entry i is a position holding op.wires[i], in the op's own order; otherwise the error names the first op wire the ordering lacks |
| WireIndex.IndexOf | pennylane/transforms/get_unitary_matrix.py:54 | the index found holds the wire and no earlier position does |
| WireIndex.IndexOfDistinct | pennylane/transforms/get_unitary_matrix.py:26 | in a repetition-free ordering the index of the wire at position i is i |
| WireIndex.LocatesDistinct | pennylane/transforms/get_unitary_matrix.py:54 | distinct op wires get distinct positions |
| WireIndex.Unused | pennylane/transforms/get_unitary_matrix.py:62 | `unused_idxs` holds q exactly when q < n and q is not an op position, in strictly increasing order |
| WireIndex.PositionsThenUnusedIsPermutation | pennylane/transforms/get_unitary_matrix.py:62-64 | `perm = op_wire_pos + unused_idxs` is a permutation of 0 .. n-1, with n - k unused positions |
| WireIndex.DistinctSubsetLength | pennylane/transforms/get_unitary_matrix.py:62 | a repetition-free list drawn from another list is no longer than it |
| Embedding.ScatterGather | pennylane/transforms/get_unitary_matrix.py:65 | moving axis j to position perm[j] yields x exactly when the moved values are x read at perm |
| Embedding.ContractCollapse | pennylane/transforms/get_unitary_matrix.py:60 | the tensordot sum over the contracted gate-input bits has one non-zero term, the gate entry at the column's bits on the op's positions, and only when the other bits agree |
| Embedding.EmbedClosedForm | pennylane/transforms/get_unitary_matrix.py:56-67 | the embedded entry [r][c] is M[r restricted to p][c restricted to p] when r and c agree on every unused bit, and 0 otherwise |
| Embedding.AgreeOutsideOnUnused | pennylane/transforms/get_unitary_matrix.py:62 | two indices have the same bits at the unused positions exactly when they agree at every bit outside the op's positions |
| Embedding.Embed | pennylane/transforms/get_unitary_matrix.py:67 | the embedded matrix is 2^n x 2^n whatever the gate size |
| Embedding.Identity | pennylane/transforms/get_unitary_matrix.py:49 | `np.eye(2^n)` is a 2^n x 2^n matrix |
| Embedding.Mul | pennylane/transforms/get_unitary_matrix.py:70 | `np.dot` of two d x d matrices is d x d |
| Embedding.EmbedIdentity | pennylane/transforms/get_unitary_matrix.py:56-67 | a 2^k identity gate on any valid positions embeds to the 2^n identity |
| Embedding.MulIdentityLeft | pennylane/transforms/get_unitary_matrix.py:70 | `np.dot(I, B)` is B |
| Embedding.MulIdentityRight | pennylane/transforms/get_unitary_matrix.py:70 | `np.dot(A, I)` is A, so the first folded gate is its own embedding |
| Embedding.GateOnFirstOfTwoWires | pennylane/transforms/get_unitary_matrix.py:56-67 | on two wires, a one-wire gate at position 0 embeds to M (x) I |
| Embedding.GateOnSecondOfTwoWires | pennylane/transforms/get_unitary_matrix.py:56-67 | on two wires, a one-wire gate at position 1 embeds to I (x) M |
| UnitaryMatrix.EmbedOperation | pennylane/transforms/get_unitary_matrix.py:54-67 | one operation embeds to a 2^n square matrix exactly when all its wires are in the ordering, else the error is a missing op wire |
| UnitaryMatrix.Accumulate | pennylane/transforms/get_unitary_matrix.py:51-70 | the fold succeeds exactly when every op's wires are in the ordering and then stays 2^n square; a failure is the first op whose lookup fails, with all earlier ops covered |
| UnitaryMatrix.GetUnitaryMatrix | pennylane/transforms/get_unitary_matrix.py:25-71 | succeeds exactly when the ordering has no repeated label and covers every op; the result is 2^n x 2^n whatever the depth; no ops give the identity; a failure names the first failing op |
| UnitaryMatrix.ComputeUnitaryMatrix | pennylane/transforms/get_unitary_matrix.py:49-71 | the imperative loop over tape.operations, starting from `np.eye`, computes the same result as the fold |
| UnitaryMatrix.AccumulateAppend | pennylane/transforms/get_unitary_matrix.py:51-70 | folding ops + [op] is the fold of ops with embed(op) multiplied on the left |
| UnitaryMatrix.GetUnitaryMatrixAppend | pennylane/transforms/get_unitary_matrix.py:51-70 | the matrix of ops + [op] is embed(op) times the matrix of ops, so later gates multiply on the left |
| UnitaryMatrix.IdentityOperationIsNeutral | pennylane/transforms/get_unitary_matrix.py:56-70 | appending an identity gate on covered wires leaves the result unchanged |
| UnitaryMatrix.WireOrderSelectsKroneckerFactor | pennylane/transforms/get_unitary_matrix.py:54-70 | a one-wire gate on a gives M (x) I under ordering [a, b] and I (x) M under [b, a] |
| UnitaryMatrix.PositionsRelabel | pennylane/transforms/get_unitary_matrix.py:54 | renaming op wires and ordering by the same injective map leaves the found positions unchanged and renames a missing wire |
| UnitaryMatrix.AccumulateRelabel | pennylane/transforms/get_unitary_matrix.py:51-70 | renaming wires injectively leaves the fold unchanged, up to the renamed wire in an error |
| UnitaryMatrix.RelabelInvariance | pennylane/transforms/get_unitary_matrix.py:25-71 | the matrix depends on wire labels only through their positions: renaming circuit and ordering by one injective map gives the same matrix |
| HilbertSchmidt.Create | pennylane/templates/subroutines/hilbert_schmidt.py:27-56 | the failures are reported in source order: missing parameter, U/V wire-count mismatch, a repeated declared V wire (`Wires(v_wires)`), a V tape wire outside v_wires, shared U/V tape wires, each exactly when its check fails; construction succeeds exactly when all checks pass, and then the wires are the union of u_wires and v_wires (u_wires followed by v_wires when these are apart), the stored v_wires are the V tape's own wires, and the flag is not set |
| WireIndex.Union | pennylane/templates/subroutines/hilbert_schmidt.py:54 | `u_wires + v_wires` keeps u_wires as its prefix, then adds each v wire not seen before: every label comes from one side, every v wire is in it, its length lies between |u| and |u| + |v|, it repeats nothing when u repeats nothing, and it is plain concatenation when the sides are apart and v repeats nothing |
| HilbertSchmidt.UnionIsValid | pennylane/templates/subroutines/hilbert_schmidt.py:47-54 | for a V tape inside the declared v_wires and apart from U, the union of u_wires and v_wires starts with u_wires, repeats nothing, has at most 2 |u| labels and holds every V tape wire after the U block |
| HilbertSchmidt.OverlappingDeclaredWiresExample | pennylane/templates/subroutines/hilbert_schmidt.py:41-54 | U on [0, 1] with v_wires [1, 2] and a V tape on wire 2 is accepted, with wires [0, 1, 2]: the declared V wires may overlap U |
| HilbertSchmidt.ConstructionExamples | pennylane/templates/subroutines/hilbert_schmidt.py:41-54 | U on wire 0 with V on wire 1, and U on 2 with V on 3, are accepted with wires [0, 1] and [2, 3] |
| HilbertSchmidt.ConstructionFailureExamples | pennylane/templates/subroutines/hilbert_schmidt.py:41-52 | a two-wire U against one V wire fails the count check; U and V tapes on the same wire fail the shared-wires check |
| HilbertSchmidt.TotalWiresWithinInstance | pennylane/templates/subroutines/hilbert_schmidt.py:47-54 | for a constructed instance, n_wires lies between the U wire count and the instance's wire count |
| HilbertSchmidt.TotalWires | pennylane/templates/subroutines/hilbert_schmidt.py:67 | `len(u_tape.wires + v_tape.wires)` lies between the U wire count and the sum of both wire counts, and is that sum when the tapes are apart |
| HilbertSchmidt.HadamardLayer | pennylane/templates/subroutines/hilbert_schmidt.py:73-76 | one Hadamard on wires[i] for each i below both half and the number of wires, in wire order |
| HilbertSchmidt.FirstCnotLayer | pennylane/templates/subroutines/hilbert_schmidt.py:70-80 | n / 2 CNOTs, the i-th being CNOT(i, i + n / 2) on raw integer labels |
| HilbertSchmidt.SecondCnotLayer | pennylane/templates/subroutines/hilbert_schmidt.py:93-94 | n / 2 CNOTs, the t-th being CNOT(n/2 - 1 - t, n - 1 - t) |
| HilbertSchmidt.SecondCnotLayerMirrorsWhenEven | pennylane/templates/subroutines/hilbert_schmidt.py:79-94 | for an even wire count the second CNOT layer is the first one reversed |
| HilbertSchmidt.OddWireCountBreaksMirror | pennylane/templates/subroutines/hilbert_schmidt.py:93-94 | for three wires the first layer is [CNOT(0,1)] and the second [CNOT(0,2)], which is not its reverse |
| HilbertSchmidt.FullVTapeGivesMirroredLayers | pennylane/templates/subroutines/hilbert_schmidt.py:67-94 | when the V tape touches all declared V wires, the two CNOT layers of the instance mirror each other |
| HilbertSchmidt.AdjointAll | pennylane/templates/subroutines/hilbert_schmidt.py:89-90 | one adjoint per V operation, in tape order, not reversed |
| HilbertSchmidt.Entangle | pennylane/templates/subroutines/hilbert_schmidt.py:73-90 | the opening of the test, the Hadamards, a CNOT block, the U operations and the V adjoints, has min(half, number of wires) + CNOTs + U ops + V ops gates |
| HilbertSchmidt.Decomposition | pennylane/templates/subroutines/hilbert_schmidt.py:63-100 | the full test has 2 * min(half, number of wires) + 2 * half + U ops + V ops gates |
| HilbertSchmidt.DecompositionBlocks | pennylane/templates/subroutines/hilbert_schmidt.py:67-100 | the full test is the six blocks in order: Hadamards, ascending CNOT(i, i + half), U ops, V adjoints in tape order, CNOT(half-1-t, n-1-t), Hadamards |
| HilbertSchmidt.LabelledCnotLayer | pennylane/templates/subroutines/hilbert_schmidt.py:132-133 | the local layer exists exactly when wires has 2 * half entries; then its i-th CNOT is CNOT(wires[i], wires[i + half]) |
| HilbertSchmidt.LabelledCnotLayerStaysInRegister | pennylane/templates/subroutines/hilbert_schmidt.py:132-133 | every CNOT of the local layer has its control among the first half wires and its target among the rest |
| HilbertSchmidt.RawAndLabelledLayersAgreeOnPositions | pennylane/templates/subroutines/hilbert_schmidt.py:79-80 | the raw-integer layer equals the labelled one when wires = [0 .. k-1] |
| HilbertSchmidt.RawCnotLabelsLeaveRegister | pennylane/templates/subroutines/hilbert_schmidt.py:79-80 | for U on wire 2 and V on wire 3 the full test's CNOT acts on wires 0 and 1, the labelled one on 2 and 3 |
| HilbertSchmidt.LocalDecomposition | pennylane/templates/subroutines/hilbert_schmidt.py:117-150 | the local test exists exactly when the indices it reads (wires[2 * half - 1] and wires[half]) exist, and then has min(half, number of wires) + half + U ops + V ops + 2 gates |
| HilbertSchmidt.LocalDecompositionBlocks | pennylane/templates/subroutines/hilbert_schmidt.py:121-150 | whenever the local test exists it is, for any wire labels, the Hadamards on wires[0 .. half-1], CNOT(wires[i], wires[i + half]) for ascending i, the U ops, the V adjoints in tape order, CNOT(wires[0], wires[half]) and H(wires[0]) |
| HilbertSchmidt.LocalSharesFullPrefix | pennylane/templates/subroutines/hilbert_schmidt.py:121-148 | on position labels the local test is the full test's first four blocks followed by CNOT(0, half) and H(0) |
| HilbertSchmidt.LocalDecompositionOfValidInstance | pennylane/templates/subroutines/hilbert_schmidt.py:121-148 | for a constructed instance the local test exists exactly when the instance has wires |
| HilbertSchmidt.OneQubitPairExample | pennylane/templates/subroutines/hilbert_schmidt.py:121-150 | for U on wire 0, V on wire 1 and empty tapes, both tests are [H(0), CNOT(0,1), CNOT(0,1), H(0)] |
| HilbertSchmidt.AdjointOf | pennylane/templates/subroutines/hilbert_schmidt.py:102-110 | a successful adjoint keeps the parameters, U tape and V function, flips the inversion flag, re-traces the V function on the stored v_wires, and has the union of the U wires and the stored v_wires as its wires |
| HilbertSchmidt.AdjointFlipsOnlyInverse | pennylane/templates/subroutines/hilbert_schmidt.py:102-110 | when the V tape touches exactly the declared V wires, the adjoint is the instance with only the flag flipped, and the adjoint of that is the instance |
| HilbertSchmidt.NarrowVTapeExample | pennylane/templates/subroutines/hilbert_schmidt.py:102-110 | U on [0, 1], V declared on [2, 3] with a tape on wire 2: the instance is built with wires [0, 1, 2, 3], its adjoint fails the wire-count check, and the tapes' three wires (n_wires = 3) break the CNOT mirror |
| HilbertSchmidt.CorrectedDecomposition | pennylane/templates/subroutines/hilbert_schmidt.py:63-100 | the corrected full test takes half as the number of U wires; it exists exactly when wires has 2 * half entries, and then has 4 * half + U ops + V ops gates |
| HilbertSchmidt.CorrectedLayersMirror | pennylane/templates/subroutines/hilbert_schmidt.py:79-94 | in the corrected test, for every wire labelling, the i-th CNOT of the first block is CNOT(wires[i], wires[i + half]) and the second CNOT block is the first one reversed |
| HilbertSchmidt.CorrectedTestPairsRegisters | pennylane/templates/subroutines/hilbert_schmidt.py:79-94 | for a constructed instance whose declared V wires are apart from U, the corrected test exists and its i-th CNOT couples U wire i with declared V wire i, even when the V tape touches fewer wires |
| HilbertSchmidt.CorrectedNarrowVTapeExample | pennylane/templates/subroutines/hilbert_schmidt.py:79-94 | for U on [0, 1] and a V tape on wire 2 over wires [0, 1, 2, 3], the corrected test is H(0), H(1), CNOT(0,2), CNOT(1,3), CNOT(1,3), CNOT(0,2), H(0), H(1) |
| HilbertSchmidt.CorrectedAgreesOnPositions | pennylane/templates/subroutines/hilbert_schmidt.py:63-100 | for tapes of equal width that are apart, on position labels with at least 2 * half wires, the corrected test is the test as written |
| HilbertSchmidt.CorrectedDecompositionOfValidInstance | pennylane/templates/subroutines/hilbert_schmidt.py:63-100 | for a constructed instance the corrected test exists exactly when the instance has twice as many wires as U, that is, when the declared V wires are apart from U |
| HilbertSchmidt.CorrectedCreate | pennylane/templates/subroutines/hilbert_schmidt.py:39 | construction with the declared v_wires stored: it succeeds exactly when construction as written does, fails with the same error otherwise, and stores the declared v_wires in a valid instance |
| HilbertSchmidt.CorrectedAdjointOf | pennylane/templates/subroutines/hilbert_schmidt.py:102-110 | a successful corrected adjoint keeps parameters, U tape and V function, flips the flag, keeps the declared v_wires and is a valid instance |
| HilbertSchmidt.CorrectedAdjointIsInvolution | pennylane/templates/subroutines/hilbert_schmidt.py:102-110 | every instance built with the declared v_wires stored has a corrected adjoint, which flips only the flag; applied twice it gives the instance back |
| HilbertSchmidt.CorrectedAdjointAcceptsNarrowVTape | pennylane/templates/subroutines/hilbert_schmidt.py:102-110 | the narrow-V instance whose adjoint as written fails has a corrected adjoint |

## Left out

- Floating-point and complex arithmetic (`np.eye`, `tensordot`, `dot`). Entries are `int`, and unitarity is not claimed.
- The QNode / tape / callable dispatch (get_unitary_matrix.py:31-46). It calls library code that is not part of this model, and it has no branch for other inputs. The model starts from the tape's operation list.
- `make_tape` tracing (hilbert_schmidt.py:37). It is the `Tracer` parameter, a pure function of the V function, the first parameter and the wires.
- `qml.apply` and the `do_queue` recording context (hilbert_schmidt.py:85, 137). These are queuing side effects; U operations are appended to the output as values.
- The internals of `Operation`, `Wires`, `op.matrix` and `op.adjoint()`. These are library code that is not part of this model.
  - An operation's well-formedness (a repetition-free wire list and a `2^k` square matrix) is a precondition of `UnitaryMatrix.EmbedOperation`.
  - The uniqueness check of `Wires(v_wires)` (line 47) is the `DuplicateWires` error.
  - `Wires.__add__` (line 54) is the order-preserving union `WireIndex.Union`, which never reports a repeated label.
- The `callable(v_function)` and `isinstance(u_tape, QuantumTape)` checks (hilbert_schmidt.py:32, 44). These are dynamic type checks; the Dafny types already guarantee both.
- `HilbertSchmidtLocal.adjoint` (hilbert_schmidt.py:152-160). It passes the keywords `u_circuit` and `v_circuit`, which `__init__` does not accept, so it always fails.
- `num_params` (hilbert_schmidt.py:58-60) and the `Operation` base class constructor (line 56). The base class rejects a parameter count other than `num_params`, which is 1. `HilbertSchmidt.Create` does not model that check: it accepts any non-empty parameter list and uses only the first.
- The `Operation` constructor's check of a CNOT's two wires. For half = 0, the local test's closing CNOT has the same wire as control and target; the model returns it as is.
- `int(n_wires / 2)` is modelled as `n / 2` on naturals. Float rounding would only matter beyond 2^53 wires.
- A corrected test for declared V wires that overlap U. The corrected test pairs U wire i with wires[half + i], where half is the number of U wires. When the declared V wires overlap U the instance has fewer than 2 * half wires, so `HilbertSchmidt.CorrectedDecomposition` returns an error rather than mixing the registers.

## Findings

| source | as written | input that shows it | evidently intended | confidence | as-written member | corrected member |
|---|---|---|---|---|---|---|
| pennylane/templates/subroutines/hilbert_schmidt.py:93-94 | the second CNOT layer zips `reversed(range(0, half))` with `reversed(range(half, n))`; for odd n both ranges are walked from their top end, so the pairs shift by one against the first layer | U tape on wires [0, 1], V declared on [2, 3], V tape touching wire 2 only: n = 3, first layer [CNOT(0,1)], second layer [CNOT(0,2)] | the second layer is the first one reversed, undoing it | medium, not executed | HilbertSchmidt.OddWireCountBreaksMirror | HilbertSchmidt.CorrectedLayersMirror |
| pennylane/templates/subroutines/hilbert_schmidt.py:79-80 | the full test's CNOTs use the raw integers i and i + half as wire labels | U on wire 2, V on wire 3: the CNOT acts on wires 0 and 1, which are not wires of the operation | CNOT(wires[i], wires[i + half]), as the local test does at line 133 | medium, not executed | HilbertSchmidt.RawCnotLabelsLeaveRegister | HilbertSchmidt.CorrectedTestPairsRegisters |
| pennylane/templates/subroutines/hilbert_schmidt.py:102-110 | the adjoint rebuilds with `hyperparameters["v_wires"]`, which line 39 sets to `v_tape.wires`, not to the declared v_wires | U on [0, 1], V declared on [2, 3], V tape touching wire 2 only: construction succeeds, the adjoint raises "U and V must have the same number of wires" | line 39 stores the declared v_wires (HilbertSchmidt.CorrectedCreate), so every instance has an adjoint that flips only the inversion flag | medium, not executed | HilbertSchmidt.NarrowVTapeExample | HilbertSchmidt.CorrectedAdjointIsInvolution |
