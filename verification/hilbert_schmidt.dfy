/** The Hilbert-Schmidt test templates: construction-time validation of the U
    and V registers, the gate list of the full test (`HilbertSchmidt`) and of
    the local test (`HilbertSchmidtLocal`), and the adjoint of the full test.
    Gates are values; nothing is queued into an ambient recording context. */
module HilbertSchmidt {
  import opened Results
  import opened WireIndex
  import opened Ranges

  type Wire = int

  /** A trainable parameter; its numeric value plays no part here. */
  type Param = int

  datatype Gate =
    | Hadamard(wire: Wire)
    | CNOT(control: Wire, target: Wire)
    | Custom(name: string, wires: seq<Wire>)   // an operation recorded on a user tape
    | Adjoint(base: Gate)                     // `op.adjoint()`

  datatype TapeData = TapeData(operations: seq<Gate>, wires: seq<Wire>)

  /** A quantum tape: its operations, in order, and the wires it touches (by
      its operations or its measurements), each listed once. */
  type Tape = t: TapeData | Distinct(t.wires) witness TapeData([], [])

  /** A handle on the user's quantum function that prepares V. */
  datatype VFunction = VFunction(name: string)

  /** `make_tape(v_function)(param, v_wires)`: recording the V function on the
      given wires yields a tape. */
  type Tracer = (VFunction, Param, seq<Wire>) -> Tape

  datatype Error =
    | MissingParameter   // `params[0]` of an empty parameter list
    | WireCountMismatch  // U and V must have the same number of wires
    | DuplicateWires     // `Wires(..)` rejects a repeated label
    | VWiresNotCovered   // all wires in v_tape must be in v_wires
    | SharedWires        // u_tape and v_tape must act on distinct wires
    | IndexOutOfRange    // `wires[i]` past the end of the operation's wires

  /** A template instance: its parameters, the hyperparameters it stores, its
      wires and its inversion flag. */
  datatype Instance = Instance(
    params: seq<Param>,
    uTape: Tape,
    vFunction: VFunction,
    vTape: Tape,
    vWires: seq<Wire>,   // the stored hyperparameter: the V tape's own wires
    wires: seq<Wire>,
    inverse: bool)

  /** Every label of small occurs in big. */
  predicate Contains(big: seq<Wire>, small: seq<Wire>)
  {
    forall w :: w in small ==> w in big
  }

  /** No label of a occurs in b. */
  predicate Disjoint(a: seq<Wire>, b: seq<Wire>)
  {
    forall i :: 0 <= i < |a| ==> a[i] !in b
  }

  /** What a constructed instance guarantees: its wires start with the U
      tape's wires, are all distinct and number at most twice as many, and the
      V tape acts on the wires after them only, apart from U's. */
  predicate ValidInstance(inst: Instance)
  {
    var k := |inst.uTape.wires|;
    && |inst.params| > 0
    && k <= |inst.wires| <= 2 * k
    && inst.wires[..k] == inst.uTape.wires
    && Distinct(inst.wires)
    && Disjoint(inst.uTape.wires, inst.vTape.wires)
    && Contains(inst.wires[k..], inst.vTape.wires)
  }

  /** `HilbertSchmidt(*params, v_function=.., v_wires=.., u_tape=..)`: the V
      tape is recorded from the first parameter, then the checks run in source
      order and the first failure is reported. The instance's wires are
      `u_wires + v_wires`, the U wires followed by the declared V wires not
      already among them, and the stored v_wires are the V tape's own wires. */
  function Create(params: seq<Param>, vFunction: VFunction, vWires: seq<Wire>, uTape: Tape, trace: Tracer): (r: Result<Instance, Error>)
    ensures |params| == 0 ==> r == Err(MissingParameter)
    ensures |params| > 0 ==>
      var vTape := trace(vFunction, params[0], vWires);
      && (r == Err(WireCountMismatch) <==> |uTape.wires| != |vWires|)
      && (r == Err(DuplicateWires) <==> |uTape.wires| == |vWires| && !Distinct(vWires))
      && (r == Err(VWiresNotCovered) <==> |uTape.wires| == |vWires| && Distinct(vWires) && !Contains(vWires, vTape.wires))
      && (r == Err(SharedWires) <==> |uTape.wires| == |vWires| && Distinct(vWires) && Contains(vWires, vTape.wires) && !Disjoint(uTape.wires, vTape.wires))
      && (r.Ok? <==> |uTape.wires| == |vWires| && Distinct(vWires) && Contains(vWires, vTape.wires) && Disjoint(uTape.wires, vTape.wires))
    ensures r.Ok? ==> ValidInstance(r.value)
    ensures r.Ok? ==> r.value.wires == Union(uTape.wires, vWires) && !r.value.inverse
    ensures r.Ok? && Disjoint(uTape.wires, vWires) ==> r.value.wires == uTape.wires + vWires
    ensures r.Ok? ==> r.value.params == params && r.value.uTape == uTape && r.value.vFunction == vFunction
    ensures r.Ok? ==> r.value.vTape == trace(vFunction, params[0], vWires) && r.value.vWires == r.value.vTape.wires
  {
    if |params| == 0 then Err(MissingParameter)
    else
      var vTape := trace(vFunction, params[0], vWires);
      if |uTape.wires| != |vWires| then Err(WireCountMismatch)
      else if !Distinct(vWires) then Err(DuplicateWires)
      else if !Contains(vWires, vTape.wires) then Err(VWiresNotCovered)
      else if !Disjoint(uTape.wires, vTape.wires) then Err(SharedWires)
      else
        var wires := Union(uTape.wires, vWires);
        UnionIsValid(uTape.wires, vWires, vTape.wires, wires);
        Ok(Instance(params, uTape, vFunction, vTape, vTape.wires, wires, false))
  }

  /** The union of the U wires and the declared V wires has the shape of a
      valid instance for any V tape inside the declared wires and apart from U. */
  lemma UnionIsValid(u: seq<Wire>, declared: seq<Wire>, vTapeWires: seq<Wire>, wires: seq<Wire>)
    requires Distinct(u) && Distinct(declared) && |declared| == |u|
    requires wires == Union(u, declared)
    requires Contains(declared, vTapeWires) && Disjoint(u, vTapeWires)
    ensures |u| <= |wires| <= 2 * |u| && wires[..|u|] == u && Distinct(wires)
    ensures Contains(wires[|u|..], vTapeWires)
    ensures Disjoint(u, declared) ==> wires == u + declared
  {
    assert Contains(wires[|u|..], vTapeWires) by {
      forall w | w in vTapeWires
        ensures w in wires[|u|..]
      {
        var j :| 0 <= j < |declared| && declared[j] == w;
        var i :| 0 <= i < |wires| && wires[i] == w;
        assert forall k :: 0 <= k < |u| ==> wires[k] == u[k] && u[k] != w;
        assert wires[|u|..][i - |u|] == w;
      }
    }
  }

  /** `n_wires = len(u_tape.wires + v_tape.wires)`: the size of the union of
      the two tapes' wires, their sum when the tapes are disjoint. */
  function TotalWires(uTape: Tape, vTape: Tape): (n: nat)
    ensures |uTape.wires| <= n <= |uTape.wires| + |vTape.wires|
    ensures Disjoint(uTape.wires, vTape.wires) ==> n == |uTape.wires| + |vTape.wires|
  {
    |Union(uTape.wires, vTape.wires)|
  }

  /** `for i, wire in enumerate(wires): if i in range(0, half): Hadamard(wire)`,
      from index i on. */
  function EnumerateHadamards(wires: seq<Wire>, half: nat, i: nat): (r: seq<Gate>)
    requires i <= |wires|
    ensures |r| == if i < Min(half, |wires|) then Min(half, |wires|) - i else 0
    ensures forall j :: 0 <= j < |r| ==> r[j] == Hadamard(wires[i + j])
    decreases |wires| - i
  {
    if i == |wires| then []
    else (if i < half then [Hadamard(wires[i])] else []) + EnumerateHadamards(wires, half, i + 1)
  }

  /** A Hadamard layer: one Hadamard on each of the first half wires. */
  function HadamardLayer(wires: seq<Wire>, half: nat): (r: seq<Gate>)
    ensures r == seq(Min(half, |wires|), i requires 0 <= i < Min(half, |wires|) => Hadamard(wires[i]))
  {
    EnumerateHadamards(wires, half, 0)
  }

  function CnotGates(pairs: seq<(nat, nat)>): (r: seq<Gate>)
    ensures |r| == |pairs|
  {
    seq(|pairs|, i requires 0 <= i < |pairs| => CNOT(pairs[i].0, pairs[i].1))
  }

  /** `zip(range(0, half), range(half, hi))` as CNOTs: CNOT(i, half + i) for
      ascending i, for as long as the shorter range lasts. */
  function AscendingCnots(half: nat, hi: nat): (r: seq<Gate>)
    ensures |r| == Min(half, if half <= hi then hi - half else 0)
    ensures forall i :: 0 <= i < |r| ==> r[i] == CNOT(i, half + i)
  {
    CnotGates(Zip(Range(0, half), Range(half, hi)))
  }

  /** `zip(reversed(range(0, half)), reversed(range(half, hi)))` as CNOTs: both
      ranges are walked from their top end. */
  function DescendingCnots(half: nat, hi: nat): (r: seq<Gate>)
    ensures |r| == Min(half, if half <= hi then hi - half else 0)
    ensures forall t :: 0 <= t < |r| ==> r[t] == CNOT(half - 1 - t, hi - 1 - t)
  {
    CnotGates(Zip(Reversed(Range(0, half)), Reversed(Range(half, hi))))
  }

  /** When the upper range has exactly half elements, the descending pairs are
      the ascending ones walked backwards (a longer upper range does not change
      the ascending pairs, since zip stops at the shorter range). */
  lemma DescendingMirrorsAscending(half: nat, hi: nat)
    requires 2 * half <= hi
    ensures DescendingCnots(half, 2 * half) == Reversed(AscendingCnots(half, hi))
  {
    ReversedPairing(AscendingCnots(half, hi), DescendingCnots(half, 2 * half), half);
  }

  lemma ReversedPairing(a: seq<Gate>, d: seq<Gate>, half: nat)
    requires |a| == half && |d| == half
    requires forall i :: 0 <= i < half ==> a[i] == CNOT(i, half + i)
    requires forall t :: 0 <= t < half ==> d[t] == CNOT(half - 1 - t, 2 * half - 1 - t)
    ensures d == Reversed(a)
  {
    var m := Reversed(a);
    forall t | 0 <= t < half
      ensures d[t] == m[t]
    {
      assert m[t] == a[half - 1 - t];
    }
  }

  /** The first CNOT layer of the full test: `zip(range(0, half), range(half, n))`
      with the integers themselves as wire labels. */
  function FirstCnotLayer(n: nat): (r: seq<Gate>)
    ensures |r| == n / 2
    ensures forall i :: 0 <= i < |r| ==> r[i] == CNOT(i, i + n / 2)
  {
    AscendingCnots(n / 2, n)
  }

  /** The second CNOT layer of the full test, as written:
      `zip(reversed(range(0, half)), reversed(range(half, n)))`. Both ranges
      are walked from their top end, so for odd n the targets are shifted by
      one against the first layer. */
  function SecondCnotLayer(n: nat): (r: seq<Gate>)
    ensures |r| == n / 2
    ensures forall t :: 0 <= t < |r| ==> r[t] == CNOT(n / 2 - 1 - t, n - 1 - t)
  {
    DescendingCnots(n / 2, n)
  }

  /** With an even wire count the second layer as written is the first one
      reversed, so the two CNOT layers undo each other. */
  lemma SecondCnotLayerMirrorsWhenEven(n: nat)
    requires n % 2 == 0
    ensures SecondCnotLayer(n) == Reversed(FirstCnotLayer(n))
  {
    DescendingMirrorsAscending(n / 2, n);
    assert n == 2 * (n / 2);
  }

  /** With three wires the second layer targets wire 2 where the first targeted
      wire 1. */
  lemma OddWireCountBreaksMirror()
    ensures FirstCnotLayer(3) == [CNOT(0, 1)]
    ensures SecondCnotLayer(3) == [CNOT(0, 2)]
    ensures SecondCnotLayer(3) != Reversed(FirstCnotLayer(3))
  {
    assert FirstCnotLayer(3)[0] == CNOT(0, 1);
    assert SecondCnotLayer(3)[0] == CNOT(0, 2);
    assert Reversed(FirstCnotLayer(3))[0] == CNOT(0, 1);
  }

  /** `[op_v.adjoint() for op_v in v_tape.operations]`, in tape order. */
  function AdjointAll(ops: seq<Gate>): (r: seq<Gate>)
    ensures |r| == |ops|
    ensures forall i :: 0 <= i < |ops| ==> r[i] == Adjoint(ops[i])
  {
    if |ops| == 0 then [] else [Adjoint(ops[0])] + AdjointAll(ops[1..])
  }

  /** `HilbertSchmidt.compute_decomposition(params, wires, u_tape, v_tape)`. */
  function Decomposition(wires: seq<Wire>, uTape: Tape, vTape: Tape): (r: seq<Gate>)
    ensures var half := TotalWires(uTape, vTape) / 2;
      |r| == 2 * Min(half, |wires|) + 2 * half + |uTape.operations| + |vTape.operations|
  {
    var n := TotalWires(uTape, vTape);
    Entangle(wires, n / 2, FirstCnotLayer(n), uTape, vTape)
      + SecondCnotLayer(n)
      + HadamardLayer(wires, n / 2)
  }

  /** The gates both tests open with: the Hadamard layer, a CNOT layer, the U
      operations and the adjoints of the V operations. */
  function Entangle(wires: seq<Wire>, half: nat, cnots: seq<Gate>, uTape: Tape, vTape: Tape): (r: seq<Gate>)
    ensures |r| == Min(half, |wires|) + |cnots| + |uTape.operations| + |vTape.operations|
  {
    HadamardLayer(wires, half) + cnots + uTape.operations + AdjointAll(vTape.operations)
  }

  /** The full test gate by gate, for n the total wire count and half = n / 2:
      Hadamards on the first half wires, CNOT(i, i + half) for ascending i, the
      U operations unchanged, the adjoint of every V operation in tape order
      (not reversed), CNOTs for descending i, and the Hadamards again. */
  lemma DecompositionBlocks(wires: seq<Wire>, uTape: Tape, vTape: Tape, n: nat, half: nat)
    requires n == TotalWires(uTape, vTape) && half == n / 2
    ensures var h := Min(half, |wires|);
      var vOps := vTape.operations;
      Decomposition(wires, uTape, vTape) ==
        seq(h, i requires 0 <= i < h => Hadamard(wires[i]))
        + seq(half, i => CNOT(i, i + half))
        + uTape.operations
        + seq(|vOps|, j requires 0 <= j < |vOps| => Adjoint(vOps[j]))
        + seq(half, t => CNOT(half - 1 - t, n - 1 - t))
        + seq(h, i requires 0 <= i < h => Hadamard(wires[i]))
  {
    var vOps := vTape.operations;
    var h := Min(half, |wires|);
    var hs := seq(h, i requires 0 <= i < h => Hadamard(wires[i]));
    var adjoints := seq(|vOps|, j requires 0 <= j < |vOps| => Adjoint(vOps[j]));
    var first := seq(half, i => CNOT(i, i + half));
    var second := seq(half, t => CNOT(half - 1 - t, n - 1 - t));
    assert HadamardLayer(wires, half) == hs;
    assert AdjointAll(vOps) == adjoints;
    FirstCnotLayerClosedForm(n, half);
    SecondCnotLayerClosedForm(n, half);
    assert Decomposition(wires, uTape, vTape)
      == Entangle(wires, half, first, uTape, vTape) + second + hs;
    assert Entangle(wires, half, first, uTape, vTape) == hs + first + uTape.operations + adjoints;
  }

  lemma FirstCnotLayerClosedForm(n: nat, half: nat)
    requires half == n / 2
    ensures FirstCnotLayer(n) == seq(half, i => CNOT(i, i + half))
  {
    var a := FirstCnotLayer(n);
    var b := seq(half, i => CNOT(i, i + half));
    assert |a| == half == |b|;
    forall i | 0 <= i < half
      ensures a[i] == b[i]
    {
    }
  }

  lemma SecondCnotLayerClosedForm(n: nat, half: nat)
    requires half == n / 2
    ensures SecondCnotLayer(n) == seq(half, t => CNOT(half - 1 - t, n - 1 - t))
  {
    var a := SecondCnotLayer(n);
    var b := seq(half, t => CNOT(half - 1 - t, n - 1 - t));
    assert |a| == half == |b|;
    forall t | 0 <= t < half
      ensures a[t] == b[t]
    {
    }
  }

  /** The CNOTs of the local test's first layer, `CNOT(wires[i], wires[j])` for
      each index pair; the first index past the end of wires fails. */
  function LabelledCnots(wires: seq<Wire>, pairs: seq<(nat, nat)>): (r: Result<seq<Gate>, Error>)
    ensures r.Ok? <==> forall t :: 0 <= t < |pairs| ==> pairs[t].0 < |wires| && pairs[t].1 < |wires|
    ensures r.Ok? ==> |r.value| == |pairs|
    ensures r.Ok? ==> forall t :: 0 <= t < |pairs| ==> r.value[t] == CNOT(wires[pairs[t].0], wires[pairs[t].1])
  {
    if |pairs| == 0 then Ok([])
    else if pairs[0].0 >= |wires| || pairs[0].1 >= |wires| then Err(IndexOutOfRange)
    else
      match LabelledCnots(wires, pairs[1..])
      case Err(e) => Err(e)
      case Ok(rest) =>
        assert forall t :: 1 <= t < |pairs| ==> pairs[t] == pairs[1..][t - 1];
        Ok([CNOT(wires[pairs[0].0], wires[pairs[0].1])] + rest)
  }

  /** The local test's CNOT layer: the pairs of `zip(range(0, half), range(half, n))`
      looked up in wires. It exists exactly when wires reaches index 2 * half - 1. */
  function LabelledCnotLayer(wires: seq<Wire>, n: nat): (r: Result<seq<Gate>, Error>)
    ensures r.Ok? <==> 2 * (n / 2) <= |wires|
    ensures r.Ok? ==> |r.value| == n / 2
    ensures r.Ok? ==> forall i :: 0 <= i < n / 2 ==> r.value[i] == CNOT(wires[i], wires[i + n / 2])
  {
    LabelledAscendingCnots(wires, n / 2, n)
  }

  /** `zip(range(0, half), range(half, hi))` looked up in wires, for hi either
      2 * half or 2 * half + 1. */
  function LabelledAscendingCnots(wires: seq<Wire>, half: nat, hi: nat): (r: Result<seq<Gate>, Error>)
    requires hi == 2 * half || hi == 2 * half + 1
    ensures r.Ok? <==> 2 * half <= |wires|
    ensures r.Ok? ==> |r.value| == half
    ensures r.Ok? ==> forall i :: 0 <= i < half ==> r.value[i] == CNOT(wires[i], wires[i + half])
  {
    var pairs := Zip(Range(0, half), Range(half, hi));
    PairsFitIff(wires, pairs, half);
    LabelledCnots(wires, pairs)
  }

  /** Index pairs (t, half + t) for t < half all fall inside wires exactly
      when wires has at least 2 * half entries. */
  lemma PairsFitIff(wires: seq<Wire>, pairs: seq<(nat, nat)>, half: nat)
    requires |pairs| == half
    requires forall t :: 0 <= t < half ==> pairs[t] == (t, half + t)
    ensures (forall t :: 0 <= t < |pairs| ==> pairs[t].0 < |wires| && pairs[t].1 < |wires|) <==> 2 * half <= |wires|
  {
    if half > 0 && forall t :: 0 <= t < |pairs| ==> pairs[t].0 < |wires| && pairs[t].1 < |wires| {
      assert pairs[half - 1].1 == 2 * half - 1;
    }
  }

  /** The labelled layer stays inside the operation's register: every control
      is one of the first half wires and its target the wire half positions
      later. */
  lemma LabelledCnotLayerStaysInRegister(wires: seq<Wire>, n: nat)
    requires LabelledCnotLayer(wires, n).Ok?
    ensures forall g :: g in LabelledCnotLayer(wires, n).value ==>
      g.CNOT? && g.control in wires[..n / 2] && g.target in wires[n / 2..]
  {
    CnotsWithinHalves(LabelledCnotLayer(wires, n).value, wires, n / 2);
  }

  lemma CnotsWithinHalves(layer: seq<Gate>, wires: seq<Wire>, half: nat)
    requires |layer| == half && 2 * half <= |wires|
    requires forall i :: 0 <= i < half ==> layer[i] == CNOT(wires[i], wires[i + half])
    ensures forall g :: g in layer ==> g.CNOT? && g.control in wires[..half] && g.target in wires[half..]
  {
    forall g | g in layer
      ensures g.CNOT? && g.control in wires[..half] && g.target in wires[half..]
    {
      var i :| 0 <= i < |layer| && layer[i] == g;
      assert wires[..half][i] == wires[i];
      assert wires[half..][i] == wires[i + half];
    }
  }

  /** `HilbertSchmidtLocal.compute_decomposition(params, wires, u_tape, v_tape)`:
      the full test's opening (with labelled CNOTs), U, the V adjoints, then a
      single CNOT(wires[0], wires[half]) and a single Hadamard on wires[0]. */
  function LocalDecomposition(wires: seq<Wire>, uTape: Tape, vTape: Tape): (r: Result<seq<Gate>, Error>)
    ensures var half := TotalWires(uTape, vTape) / 2;
      r.Ok? <==> (if half == 0 then 0 < |wires| else 2 * half <= |wires|)
    ensures r.Ok? ==> var half := TotalWires(uTape, vTape) / 2;
      |r.value| == Min(half, |wires|) + half + |uTape.operations| + |vTape.operations| + 2
  {
    var n := TotalWires(uTape, vTape);
    var half := n / 2;
    match LabelledCnotLayer(wires, n)
    case Err(e) => Err(e)
    case Ok(cnots) =>
      if half < |wires| then
        Ok(Entangle(wires, half, cnots, uTape, vTape) + [CNOT(wires[0], wires[half]), Hadamard(wires[0])])
      else Err(IndexOutOfRange)
  }

  /** The local test gate by gate, for any wire labels, n the total wire count
      and half = n / 2: Hadamards on the first half wires, CNOT(wires[i],
      wires[i + half]) for ascending i, the U operations unchanged, the adjoint
      of every V operation in tape order, then CNOT(wires[0], wires[half]) and
      a Hadamard on wires[0]. */
  lemma LocalDecompositionBlocks(wires: seq<Wire>, uTape: Tape, vTape: Tape, n: nat, half: nat)
    requires n == TotalWires(uTape, vTape) && half == n / 2
    requires LocalDecomposition(wires, uTape, vTape).Ok?
    ensures half < |wires| && 2 * half <= |wires|
    ensures var vOps := vTape.operations;
      LocalDecomposition(wires, uTape, vTape).value ==
        seq(half, i requires 0 <= i < half => Hadamard(wires[i]))
        + seq(half, i requires 0 <= i < half => CNOT(wires[i], wires[i + half]))
        + uTape.operations
        + seq(|vOps|, j requires 0 <= j < |vOps| => Adjoint(vOps[j]))
        + [CNOT(wires[0], wires[half]), Hadamard(wires[0])]
  {
    var vOps := vTape.operations;
    var hs := seq(half, i requires 0 <= i < half => Hadamard(wires[i]));
    var cnots := seq(half, i requires 0 <= i < half => CNOT(wires[i], wires[i + half]));
    var adjoints := seq(|vOps|, j requires 0 <= j < |vOps| => Adjoint(vOps[j]));
    assert HadamardLayer(wires, half) == hs;
    assert AdjointAll(vOps) == adjoints;
    assert LabelledCnotLayer(wires, n) == Ok(cnots) by {
      LabelledLayerClosedForm(wires, n, half);
    }
    assert LocalDecomposition(wires, uTape, vTape).value
      == Entangle(wires, half, cnots, uTape, vTape) + [CNOT(wires[0], wires[half]), Hadamard(wires[0])];
  }

  lemma LabelledLayerClosedForm(wires: seq<Wire>, n: nat, half: nat)
    requires half == n / 2 && 2 * half <= |wires|
    ensures LabelledCnotLayer(wires, n) == Ok(seq(half, i requires 0 <= i < half => CNOT(wires[i], wires[i + half])))
  {
    var a := LabelledCnotLayer(wires, n).value;
    var b := seq(half, i requires 0 <= i < half => CNOT(wires[i], wires[i + half]));
    assert |a| == half == |b|;
    forall i | 0 <= i < half
      ensures a[i] == b[i]
    {
    }
    assert a == b;
  }

  /** The local test shares the full test's prefix (Hadamards, CNOT layer, U,
      V adjoints) whenever wire labels coincide with their positions, and then
      ends with CNOT(0, half) and a Hadamard on wire 0. */
  lemma LocalSharesFullPrefix(k: nat, uTape: Tape, vTape: Tape)
    requires LocalDecomposition(Range(0, k), uTape, vTape).Ok?
    ensures var half := TotalWires(uTape, vTape) / 2;
      var prefix := Min(half, k) + half + |uTape.operations| + |vTape.operations|;
      LocalDecomposition(Range(0, k), uTape, vTape).value ==
        Decomposition(Range(0, k), uTape, vTape)[..prefix] + [CNOT(0, half), Hadamard(0)]
  {
    var wires := Range(0, k);
    var n := TotalWires(uTape, vTape);
    var half := n / 2;
    RawAndLabelledLayersAgreeOnPositions(n, k);
    var head := Entangle(wires, half, FirstCnotLayer(n), uTape, vTape);
    assert wires[0] == 0 && wires[half] == half;
    assert LocalDecomposition(wires, uTape, vTape).value == head + [CNOT(0, half), Hadamard(0)];
    var tail := SecondCnotLayer(n) + HadamardLayer(wires, half);
    assert Decomposition(wires, uTape, vTape) == head + tail;
    assert (head + tail)[..|head|] == head;
  }

  /** The local test on a constructed instance exists exactly when the instance
      has wires at all (U and V both non-empty). */
  lemma LocalDecompositionOfValidInstance(inst: Instance)
    requires ValidInstance(inst)
    ensures LocalDecomposition(inst.wires, inst.uTape, inst.vTape).Ok? <==> |inst.wires| > 0
  {
    TotalWiresWithinInstance(inst);
  }

  /** The tapes of a constructed instance touch no more wires than it has, and
      at least the U tape's. */
  lemma TotalWiresWithinInstance(inst: Instance)
    requires ValidInstance(inst)
    ensures |inst.uTape.wires| <= TotalWires(inst.uTape, inst.vTape) <= |inst.wires|
  {
    var k := |inst.uTape.wires|;
    var vWires := inst.wires[k..];
    assert Distinct(vWires) by {
      forall i, j | 0 <= i < j < |vWires|
        ensures vWires[i] != vWires[j]
      {
        assert vWires[i] == inst.wires[k + i] && vWires[j] == inst.wires[k + j];
      }
    }
    assert Contains(vWires, inst.vTape.wires);
    assert forall w :: w in inst.vTape.wires ==> w in vWires;
    DistinctSubsetLength(inst.vTape.wires, vWires);
  }

  /** When the V tape touches every declared V wire, the total wire count is
      even and the full test's CNOT layers mirror each other. */
  lemma FullVTapeGivesMirroredLayers(inst: Instance)
    requires ValidInstance(inst)
    requires |inst.vTape.wires| == |inst.uTape.wires|
    ensures SecondCnotLayer(TotalWires(inst.uTape, inst.vTape)) ==
      Reversed(FirstCnotLayer(TotalWires(inst.uTape, inst.vTape)))
  {
    SecondCnotLayerMirrorsWhenEven(TotalWires(inst.uTape, inst.vTape));
  }

  /** The full test with its CNOT layers as evidently intended. Both layers
      pair the U register with the V register on the operation's own wires:
      half is the number of U wires, and the i-th CNOT is
      `CNOT(wires[i], wires[i + half])`, as in the local test. The second
      layer is the first one walked backwards. It fails when wires has fewer
      than 2 * half entries. */
  function CorrectedDecomposition(wires: seq<Wire>, uTape: Tape, vTape: Tape): (r: Result<seq<Gate>, Error>)
    ensures r.Ok? <==> 2 * |uTape.wires| <= |wires|
    ensures r.Ok? ==> |r.value| == 4 * |uTape.wires| + |uTape.operations| + |vTape.operations|
  {
    var half := |uTape.wires|;
    match LabelledAscendingCnots(wires, half, 2 * half)
    case Err(e) => Err(e)
    case Ok(cnots) => Ok(Entangle(wires, half, cnots, uTape, vTape) + Reversed(cnots) + HadamardLayer(wires, half))
  }

  /** In the corrected test the CNOT block after the V adjoints is the block
      after the opening Hadamards reversed, for every wire count, and the i-th
      CNOT of the first block couples wires[i] with wires[i + half]. */
  lemma CorrectedLayersMirror(wires: seq<Wire>, uTape: Tape, vTape: Tape, half: nat, second: nat)
    requires half == |uTape.wires| && second == 2 * half + |uTape.operations| + |vTape.operations|
    requires CorrectedDecomposition(wires, uTape, vTape).Ok?
    ensures |CorrectedDecomposition(wires, uTape, vTape).value| == second + 2 * half
    ensures CorrectedDecomposition(wires, uTape, vTape).value[second..second + half]
         == Reversed(CorrectedDecomposition(wires, uTape, vTape).value[half..2 * half])
    ensures forall i :: 0 <= i < half ==>
      CorrectedDecomposition(wires, uTape, vTape).value[half + i] == CNOT(wires[i], wires[i + half])
  {
    var cnots := LabelledAscendingCnots(wires, half, 2 * half).value;
    var hs := HadamardLayer(wires, half);
    var r := CorrectedDecomposition(wires, uTape, vTape).value;
    assert r == hs + cnots + uTape.operations + AdjointAll(vTape.operations) + Reversed(cnots) + hs;
    assert |hs| == half && |cnots| == half;
    MirrorSlices(r, hs, cnots, uTape.operations, AdjointAll(vTape.operations), second);
    assert r[half..2 * half] == cnots;
    forall i | 0 <= i < half
      ensures r[half + i] == CNOT(wires[i], wires[i + half])
    {
      assert r[half + i] == r[half..2 * half][i];
    }
  }

  /** Where the two copies of c sit in a + c + m + m' + reversed(c) + a. */
  lemma MirrorSlices<T>(r: seq<T>, a: seq<T>, c: seq<T>, m: seq<T>, m': seq<T>, second: nat)
    requires r == a + c + m + m' + Reversed(c) + a && second == |a| + |c| + |m| + |m'|
    ensures |r| == second + |c| + |a|
    ensures r[|a|..|a| + |c|] == c
    ensures r[second..second + |c|] == Reversed(c)
  {
    assert r[|a|..|a| + |c|] == c;
    assert r[second..second + |c|] == Reversed(c);
  }

  /** On a constructed instance whose declared V wires are apart from U's,
      the corrected test exists and its i-th CNOT couples the i-th U wire with
      the i-th declared V wire. */
  lemma CorrectedTestPairsRegisters(params: seq<Param>, vFunction: VFunction, vWires: seq<Wire>, uTape: Tape, trace: Tracer)
    requires Create(params, vFunction, vWires, uTape, trace).Ok?
    requires Disjoint(uTape.wires, vWires)
    ensures var inst := Create(params, vFunction, vWires, uTape, trace).value;
      var r := CorrectedDecomposition(inst.wires, inst.uTape, inst.vTape);
      && r.Ok?
      && forall i :: 0 <= i < |vWires| ==> r.value[|vWires| + i] == CNOT(uTape.wires[i], vWires[i])
  {
    var inst := Create(params, vFunction, vWires, uTape, trace).value;
    assert inst.wires == uTape.wires + vWires && inst.uTape == uTape;
    PairsOnConcat(inst.wires, uTape, inst.vTape, vWires);
  }

  lemma PairsOnConcat(wires: seq<Wire>, uTape: Tape, vTape: Tape, v: seq<Wire>)
    requires wires == uTape.wires + v && |v| == |uTape.wires|
    ensures CorrectedDecomposition(wires, uTape, vTape).Ok?
    ensures forall i :: 0 <= i < |v| ==> CorrectedDecomposition(wires, uTape, vTape).value[|v| + i] == CNOT(uTape.wires[i], v[i])
  {
    var k := |v|;
    CorrectedLayersMirror(wires, uTape, vTape, k, 2 * k + |uTape.operations| + |vTape.operations|);
    forall i | 0 <= i < k
      ensures wires[i] == uTape.wires[i] && wires[i + k] == v[i]
    {
    }
  }

  /** When the wires are labelled by their positions and the V tape touches as
      many wires as U, apart from them, the full test as written is already the
      corrected one. */
  lemma CorrectedAgreesOnPositions(k: nat, uTape: Tape, vTape: Tape)
    requires |vTape.wires| == |uTape.wires| && Disjoint(uTape.wires, vTape.wires)
    requires 2 * |uTape.wires| <= k
    ensures CorrectedDecomposition(Range(0, k), uTape, vTape) == Ok(Decomposition(Range(0, k), uTape, vTape))
  {
    var n := TotalWires(uTape, vTape);
    assert n == 2 * |uTape.wires| && n / 2 == |uTape.wires|;
    RawAndLabelledLayersAgreeOnPositions(n, k);
    SecondCnotLayerMirrorsWhenEven(n);
  }

  /** The corrected test exists for a constructed instance exactly when it has
      twice as many wires as U, that is, when no declared V wire is a U wire. */
  lemma CorrectedDecompositionOfValidInstance(inst: Instance)
    requires ValidInstance(inst)
    ensures CorrectedDecomposition(inst.wires, inst.uTape, inst.vTape).Ok? <==> |inst.wires| == 2 * |inst.uTape.wires|
  {
  }

  /** `HilbertSchmidt.adjoint`: a new instance built from the stored
      parameters, U tape, V function and V wires (the V tape's own wires), with
      the inversion flag flipped. */
  function AdjointOf(inst: Instance, trace: Tracer): (r: Result<Instance, Error>)
    ensures r.Ok? ==> r.value.params == inst.params && r.value.uTape == inst.uTape && r.value.vFunction == inst.vFunction
    ensures r.Ok? ==> r.value.inverse == !inst.inverse
    ensures r.Ok? ==> r.value.wires == Union(inst.uTape.wires, inst.vWires)
    ensures r.Ok? ==> |inst.params| > 0 && r.value.vTape == trace(inst.vFunction, inst.params[0], inst.vWires)
    ensures r.Ok? ==> ValidInstance(r.value)
  {
    match Create(inst.params, inst.vFunction, inst.vWires, inst.uTape, trace)
    case Err(e) => Err(e)
    case Ok(a) => Ok(a.(inverse := !inst.inverse))
  }

  /** If the V tape touches exactly the declared V wires, the adjoint rebuilds
      the same instance with only the inversion flag flipped, and taking the
      adjoint twice gives the instance back. */
  lemma AdjointFlipsOnlyInverse(params: seq<Param>, vFunction: VFunction, vWires: seq<Wire>, uTape: Tape, trace: Tracer)
    requires Create(params, vFunction, vWires, uTape, trace).Ok?
    requires trace(vFunction, params[0], vWires).wires == vWires
    ensures var inst := Create(params, vFunction, vWires, uTape, trace).value;
      && AdjointOf(inst, trace) == Ok(inst.(inverse := true))
      && AdjointOf(inst.(inverse := true), trace) == Ok(inst)
  {
  }

  /** Construction as evidently intended: the stored v_wires are the declared
      V wires, not the possibly narrower wires the V tape touches; everything
      else is as `Create`. */
  function CorrectedCreate(params: seq<Param>, vFunction: VFunction, vWires: seq<Wire>, uTape: Tape, trace: Tracer): (r: Result<Instance, Error>)
    ensures r.Ok? <==> Create(params, vFunction, vWires, uTape, trace).Ok?
    ensures r.Err? ==> r == Create(params, vFunction, vWires, uTape, trace)
    ensures r.Ok? ==> ValidInstance(r.value) && r.value.vWires == vWires && r.value.wires == Union(uTape.wires, vWires)
  {
    match Create(params, vFunction, vWires, uTape, trace)
    case Err(e) => Err(e)
    case Ok(inst) => Ok(inst.(vWires := vWires))
  }

  /** The adjoint as evidently intended: rebuilt by `CorrectedCreate` from the
      stored (declared) v_wires, with the inversion flag flipped. */
  function CorrectedAdjointOf(inst: Instance, trace: Tracer): (r: Result<Instance, Error>)
    ensures r.Ok? ==> r.value.params == inst.params && r.value.uTape == inst.uTape && r.value.vFunction == inst.vFunction
    ensures r.Ok? ==> r.value.inverse == !inst.inverse && r.value.vWires == inst.vWires
    ensures r.Ok? ==> ValidInstance(r.value)
  {
    match CorrectedCreate(inst.params, inst.vFunction, inst.vWires, inst.uTape, trace)
    case Err(e) => Err(e)
    case Ok(a) => Ok(a.(inverse := !inst.inverse))
  }

  /** Every constructed instance has a corrected adjoint: the same instance
      with the inversion flag flipped, and taking it twice gives the instance
      back, whatever wires the V tape touches. */
  lemma CorrectedAdjointIsInvolution(params: seq<Param>, vFunction: VFunction, vWires: seq<Wire>, uTape: Tape, trace: Tracer)
    requires Create(params, vFunction, vWires, uTape, trace).Ok?
    ensures var inst := CorrectedCreate(params, vFunction, vWires, uTape, trace).value;
      && CorrectedAdjointOf(inst, trace) == Ok(inst.(inverse := true))
      && CorrectedAdjointOf(inst.(inverse := true), trace) == Ok(inst)
  {
  }

  /** The narrow-V instance whose adjoint as written is rejected has a
      corrected adjoint. */
  lemma CorrectedAdjointAcceptsNarrowVTape()
    ensures CorrectedCreate([7], VFunction("v"), [2, 3], NarrowUTape, TraceOnWireTwo).Ok?
    ensures var inst := CorrectedCreate([7], VFunction("v"), [2, 3], NarrowUTape, TraceOnWireTwo).value;
      && inst.vWires == [2, 3]
      && CorrectedAdjointOf(inst, TraceOnWireTwo) == Ok(inst.(inverse := true))
  {
    NarrowVTapeExample();
    CorrectedAdjointIsInvolution([7], VFunction("v"), [2, 3], NarrowUTape, TraceOnWireTwo);
  }

  const NarrowUTape: Tape := TapeData([], [0, 1])
  const NarrowVTape: Tape := TapeData([], [2])

  /** A V function that records a tape on wire 2 only, whatever wires it is given. */
  function TraceOnWireTwo(f: VFunction, x: Param, ws: seq<Wire>): (t: Tape)
  {
    NarrowVTape
  }

  /** When the V tape touches fewer wires than declared, the instance is built
      but its adjoint is rejected: the rebuild passes the V tape's own wires as
      v_wires, which no longer match U's wire count. The same instance has an
      odd wire count, so its CNOT layers do not mirror. */
  lemma NarrowVTapeExample()
    ensures Create([7], VFunction("v"), [2, 3], NarrowUTape, TraceOnWireTwo).Ok?
    ensures var inst := Create([7], VFunction("v"), [2, 3], NarrowUTape, TraceOnWireTwo).value;
      && inst.wires == [0, 1, 2, 3]
      && AdjointOf(inst, TraceOnWireTwo) == Err(WireCountMismatch)
      && TotalWires(inst.uTape, inst.vTape) == 3
      && SecondCnotLayer(3) != Reversed(FirstCnotLayer(3))
  {
    var v := VFunction("v");
    assert [0, 1] + [2, 3] == [0, 1, 2, 3];
    assert Distinct([0, 1, 2, 3]);
    var inst := Instance([7], NarrowUTape, v, NarrowVTape, [2], [0, 1, 2, 3], false);
    assert Create([7], v, [2, 3], NarrowUTape, TraceOnWireTwo) == Ok(inst);
    assert Create([7], v, [2], NarrowUTape, TraceOnWireTwo) == Err(WireCountMismatch);
    OddWireCountBreaksMirror();
  }

  const UOnWire0: Tape := TapeData([], [0])
  const VOnWire1: Tape := TapeData([], [1])
  const UOnWire2: Tape := TapeData([], [2])
  const VOnWire3: Tape := TapeData([], [3])

  function TraceOnWireOne(f: VFunction, x: Param, ws: seq<Wire>): (t: Tape)
  {
    VOnWire1
  }

  function TraceOnWireThree(f: VFunction, x: Param, ws: seq<Wire>): (t: Tape)
  {
    VOnWire3
  }

  /** U on wire 0 and V on wire 1 with no operations: the full test is
      [H(0), CNOT(0, 1), CNOT(0, 1), H(0)]. The local test keeps the first
      CNOT layer before its single closing CNOT, so here it is the same list. */
  lemma OneQubitPairExample()
    ensures Decomposition([0, 1], UOnWire0, VOnWire1) == [Hadamard(0), CNOT(0, 1), CNOT(0, 1), Hadamard(0)]
    ensures LocalDecomposition([0, 1], UOnWire0, VOnWire1) == Ok([Hadamard(0), CNOT(0, 1), CNOT(0, 1), Hadamard(0)])
  {
    assert HadamardLayer([0, 1], 1) == [Hadamard(0)];
    assert FirstCnotLayer(2) == [CNOT(0, 1)];
    assert SecondCnotLayer(2) == [CNOT(0, 1)];
    assert AdjointAll([]) == [];
    var cnots := LabelledCnotLayer([0, 1], 2);
    assert cnots.Ok? && cnots.value == [CNOT(0, 1)];
    assert TotalWires(UOnWire0, VOnWire1) == 2;
    assert UOnWire0.operations == [] && VOnWire1.operations == [];
    assert LocalDecomposition([0, 1], UOnWire0, VOnWire1)
      == Ok([Hadamard(0)] + [CNOT(0, 1)] + [] + [] + [CNOT(0, 1), Hadamard(0)]);
    assert [Hadamard(0)] + [CNOT(0, 1)] + [] + [] + [CNOT(0, 1), Hadamard(0)]
      == [Hadamard(0), CNOT(0, 1), CNOT(0, 1), Hadamard(0)];
    assert Decomposition([0, 1], UOnWire0, VOnWire1)
      == [Hadamard(0)] + [CNOT(0, 1)] + [] + [] + [CNOT(0, 1)] + [Hadamard(0)];
  }

  /** With U on wire 2 and V on wire 3, the full test's CNOTs act on wires 0 and
      1, which are not wires of the operation; the labelled layer uses 2 and 3. */
  lemma RawCnotLabelsLeaveRegister()
    ensures Decomposition([2, 3], UOnWire2, VOnWire3)[1] == CNOT(0, 1)
    ensures LabelledCnotLayer([2, 3], 2) == Ok([CNOT(2, 3)])
  {
    assert TotalWires(UOnWire2, VOnWire3) == 2 by {
      assert Disjoint(UOnWire2.wires, VOnWire3.wires);
    }
    assert HadamardLayer([2, 3], 1) == [Hadamard(2)];
    assert FirstCnotLayer(2) == [CNOT(0, 1)];
    var d := Decomposition([2, 3], UOnWire2, VOnWire3);
    assert d == [Hadamard(2)] + [CNOT(0, 1)] + ([] + AdjointAll([]) + SecondCnotLayer(2) + HadamardLayer([2, 3], 1));
    var cnots := LabelledCnotLayer([2, 3], 2);
    assert cnots.Ok? && cnots.value == [CNOT(2, 3)];
  }

  /** U on [0, 1] with v_wires [1, 2] and a V tape on wire 2: every check
      passes, since the V tape's one wire is declared and is not U's, and the
      instance's wires are the union [0, 1, 2]. */
  lemma OverlappingDeclaredWiresExample()
    ensures Create([7], VFunction("v"), [1, 2], NarrowUTape, TraceOnWireTwo).Ok?
    ensures Create([7], VFunction("v"), [1, 2], NarrowUTape, TraceOnWireTwo).value.wires == [0, 1, 2]
  {
    assert Distinct([1, 2]);
    assert Contains([1, 2], NarrowVTape.wires);
    assert Disjoint(NarrowUTape.wires, NarrowVTape.wires);
    assert Union([0, 1], [1]) == [0, 1] by {
      assert [1][..0] == [];
    }
    assert [1, 2][..1] == [1];
  }

  /** On the narrow-V instance the corrected test pairs U wire 0 with V wire 2
      and U wire 1 with V wire 3, and undoes the pairs in reverse order. */
  lemma CorrectedNarrowVTapeExample()
    ensures CorrectedDecomposition([0, 1, 2, 3], NarrowUTape, NarrowVTape) ==
      Ok([Hadamard(0), Hadamard(1), CNOT(0, 2), CNOT(1, 3), CNOT(1, 3), CNOT(0, 2), Hadamard(0), Hadamard(1)])
  {
    var wires := [0, 1, 2, 3];
    var cnots := LabelledAscendingCnots(wires, 2, 4);
    assert cnots.Ok? && cnots.value == [CNOT(0, 2), CNOT(1, 3)];
    assert Reversed(cnots.value) == [CNOT(1, 3), CNOT(0, 2)];
    assert Min(2, 4) == 2;
    assert HadamardLayer(wires, 2) == [Hadamard(0), Hadamard(1)];
    assert AdjointAll(NarrowVTape.operations) == [];
    assert NarrowUTape.operations == [];
    assert Entangle(wires, 2, cnots.value, NarrowUTape, NarrowVTape)
      == [Hadamard(0), Hadamard(1), CNOT(0, 2), CNOT(1, 3)];
    assert |NarrowUTape.wires| == 2;
    assert CorrectedDecomposition(wires, NarrowUTape, NarrowVTape)
      == Ok(Entangle(wires, 2, cnots.value, NarrowUTape, NarrowVTape) + Reversed(cnots.value) + HadamardLayer(wires, 2));
    assert [Hadamard(0), Hadamard(1), CNOT(0, 2), CNOT(1, 3)] + [CNOT(1, 3), CNOT(0, 2)] + [Hadamard(0), Hadamard(1)]
      == [Hadamard(0), Hadamard(1), CNOT(0, 2), CNOT(1, 3), CNOT(1, 3), CNOT(0, 2), Hadamard(0), Hadamard(1)];
  }

  /** U on wire 0 with V declared on wire 1, and U on wire 2 with V on wire 3,
      are accepted, with the U wire first. */
  lemma ConstructionExamples()
    ensures Create([7], VFunction("v"), [1], UOnWire0, TraceOnWireOne).Ok?
    ensures Create([7], VFunction("v"), [1], UOnWire0, TraceOnWireOne).value.wires == [0, 1]
    ensures Create([7], VFunction("v"), [3], UOnWire2, TraceOnWireThree).Ok?
    ensures Create([7], VFunction("v"), [3], UOnWire2, TraceOnWireThree).value.wires == [2, 3]
  {
  }

  /** The failures the construction reports: a two-wire U against a one-wire V,
      and U and V tapes that share wire 0. */
  lemma ConstructionFailureExamples()
    ensures Create([7], VFunction("v"), [2], TapeData([], [0, 1]), TraceOnWireTwo) == Err(WireCountMismatch)
    ensures Create([7], VFunction("v"), [1], VOnWire1, TraceOnWireOne) == Err(SharedWires)
  {
    assert !Disjoint(VOnWire1.wires, TraceOnWireOne(VFunction("v"), 7, [1]).wires) by {
      assert 1 in VOnWire1.wires;
    }
  }

  /** The full test's CNOT layers and the local test's agree when the wires are
      labelled by their positions. */
  lemma RawAndLabelledLayersAgreeOnPositions(n: nat, k: nat)
    requires 2 * (n / 2) <= k
    ensures LabelledCnotLayer(Range(0, k), n) == Ok(FirstCnotLayer(n))
  {
    var wires := Range(0, k);
    var layer := LabelledCnotLayer(wires, n);
    var first := FirstCnotLayer(n);
    assert layer.Ok?;
    forall i | 0 <= i < n / 2
      ensures layer.value[i] == first[i]
    {
      assert wires[i] == i && wires[i + n / 2] == i + n / 2;
    }
    assert layer.value == first;
  }
}
