/** The `get_unitary_matrix` transform: the matrix of a circuit under an
    explicit wire ordering, obtained by embedding every operation into the
    whole register and multiplying the embedded matrices on the left of a
    running product that starts at the identity. */
module UnitaryMatrix {
  import opened Results
  import opened Bits
  import opened WireIndex
  import opened Embedding

  /** A tape operation: its wires, in its own order, and its matrix on them. */
  datatype Operation<W> = Operation(wires: seq<W>, matrix: Matrix)

  /** What every operation guarantees: distinct wires and a 2^k x 2^k matrix. */
  predicate WellFormed<W(==)>(op: Operation<W>)
  {
    Distinct(op.wires) && IsSquare(op.matrix, Pow2(|op.wires|))
  }

  predicate AllWellFormed<W(==)>(ops: seq<Operation<W>>)
  {
    forall i :: 0 <= i < |ops| ==> WellFormed(ops[i])
  }

  datatype Error<W> =
    | DuplicateWires            // `Wires(wire_order)` rejects a repeated label
    | WireNotFound(wire: W)     // `wire_order.indices` meets a wire the ordering lacks

  /** Every wire of every operation occurs in the ordering. */
  predicate Covers<W(==)>(ops: seq<Operation<W>>, order: seq<W>)
  {
    forall i, w :: 0 <= i < |ops| && w in ops[i].wires ==> w in order
  }

  /** The operation's matrix on the whole register, or the first wire the
      ordering lacks. */
  function EmbedOperation<W(==)>(op: Operation<W>, order: seq<W>): (r: Result<Matrix, Error<W>>)
    requires WellFormed(op)
    ensures r.Ok? ==> IsSquare(r.value, Pow2(|order|))
    ensures r.Ok? <==> forall w :: w in op.wires ==> w in order
    ensures r.Err? ==> r.error.WireNotFound? && r.error.wire in op.wires && r.error.wire !in order
  {
    match Positions(order, op.wires)
    case Err(w) => Err(WireNotFound(w))
    case Ok(p) =>
      LocatesDistinct(order, op.wires, p);
      Ok(Embed(op.matrix, |order|, p))
  }

  /** The loop over `tape.operations` from accumulator acc on. */
  function Accumulate<W(==)>(acc: Matrix, ops: seq<Operation<W>>, order: seq<W>): (r: Result<Matrix, Error<W>>)
    requires IsSquare(acc, Pow2(|order|)) && AllWellFormed(ops)
    ensures r.Ok? ==> IsSquare(r.value, Pow2(|order|))
    ensures r.Ok? <==> Covers(ops, order)
    ensures r.Err? ==> exists i :: FirstFailure(ops, order, i, r.error)
    decreases |ops|
  {
    if |ops| == 0 then Ok(acc)
    else
      match EmbedOperation(ops[0], order)
      case Err(e) =>
        assert Covers(ops[..0], order);
        assert FirstFailure(ops, order, 0, e);
        Err(e)
      case Ok(g) =>
        assert AllWellFormed(ops[1..]);
        var r := Accumulate(Mul(g, acc), ops[1..], order);
        CoversFirstAndRest(ops, order);
        if r.Err? then
          var i :| FirstFailure(ops[1..], order, i, r.error);
          FirstFailureShift(ops, order, i, r.error);
          r
        else
          r
  }

  /** Operation i is the first one whose wires the ordering lacks, and e is
      the error embedding it reports. */
  predicate FirstFailure<W(==)>(ops: seq<Operation<W>>, order: seq<W>, i: int, e: Error<W>)
  {
    && 0 <= i < |ops|
    && WellFormed(ops[i])
    && EmbedOperation(ops[i], order) == Err(e)
    && Covers(ops[..i], order)
  }

  lemma FirstFailureShift<W>(ops: seq<Operation<W>>, order: seq<W>, i: int, e: Error<W>)
    requires |ops| > 0 && forall w :: w in ops[0].wires ==> w in order
    requires FirstFailure(ops[1..], order, i, e)
    ensures FirstFailure(ops, order, i + 1, e)
  {
    var pre := ops[..i + 1];
    assert pre[0] == ops[0] && pre[1..] == ops[1..][..i];
    CoversFirstAndRest(pre, order);
    assert ops[i + 1] == ops[1..][i];
  }

  lemma CoversFirstAndRest<W>(ops: seq<Operation<W>>, order: seq<W>)
    requires |ops| > 0
    ensures Covers(ops, order) <==> (forall w :: w in ops[0].wires ==> w in order) && Covers(ops[1..], order)
  {
    if (forall w :: w in ops[0].wires ==> w in order) && Covers(ops[1..], order) {
      forall i, w | 0 <= i < |ops| && w in ops[i].wires
        ensures w in order
      {
        if i > 0 {
          assert ops[i] == ops[1..][i - 1];
        }
      }
    }
  }

  /** `get_unitary_matrix(tape, wire_order)()`: the 2^n x 2^n matrix of the
      circuit, n = |wire_order|. */
  function GetUnitaryMatrix<W(==)>(ops: seq<Operation<W>>, order: seq<W>): (r: Result<Matrix, Error<W>>)
    requires AllWellFormed(ops)
    ensures r.Ok? <==> Distinct(order) && Covers(ops, order)
    ensures r.Ok? ==> IsSquare(r.value, Pow2(|order|))
    ensures |ops| == 0 && Distinct(order) ==> r == Ok(Identity(Pow2(|order|)))
    ensures r.Err? && Distinct(order) ==> exists i :: FirstFailure(ops, order, i, r.error)
  {
    if !Distinct(order) then Err(DuplicateWires)
    else Accumulate(Identity(Pow2(|order|)), ops, order)
  }

  /** The wrapper's loop, written as a loop. */
  method ComputeUnitaryMatrix<W(==)>(ops: seq<Operation<W>>, order: seq<W>) returns (r: Result<Matrix, Error<W>>)
    requires AllWellFormed(ops)
    ensures r == GetUnitaryMatrix(ops, order)
  {
    if !Distinct(order) {
      return Err(DuplicateWires);
    }
    var acc := Identity(Pow2(|order|));
    var i := 0;
    while i < |ops|
      invariant 0 <= i <= |ops|
      invariant IsSquare(acc, Pow2(|order|))
      invariant Accumulate(acc, ops[i..], order) == GetUnitaryMatrix(ops, order)
    {
      assert ops[i..][0] == ops[i] && ops[i..][1..] == ops[i + 1..];
      var g := EmbedOperation(ops[i], order);
      if g.Err? {
        return Err(g.error);
      }
      acc := Mul(g.value, acc);
      i := i + 1;
    }
    return Ok(acc);
  }

  /** Folding one more operation onto the accumulator. */
  lemma {:induction false} AccumulateAppend<W>(acc: Matrix, ops: seq<Operation<W>>, op: Operation<W>, order: seq<W>)
    requires IsSquare(acc, Pow2(|order|)) && AllWellFormed(ops) && WellFormed(op)
    ensures AllWellFormed(ops + [op])
    ensures Accumulate(acc, ops + [op], order) ==
      match Accumulate(acc, ops, order)
      case Err(e) => Err(e)
      case Ok(u) =>
        match EmbedOperation(op, order)
        case Err(e) => Err(e)
        case Ok(g) => Ok(Mul(g, u))
    decreases |ops|
  {
    assert AllWellFormed(ops + [op]) by {
      assert forall i :: 0 <= i < |ops| ==> (ops + [op])[i] == ops[i];
    }
    if |ops| == 0 {
      assert [op][1..] == [];
    } else {
      assert (ops + [op])[0] == ops[0];
      assert (ops + [op])[1..] == ops[1..] + [op];
      match EmbedOperation(ops[0], order)
      case Err(_) =>
      case Ok(g) =>
        AccumulateAppend(Mul(g, acc), ops[1..], op, order);
    }
  }

  /** Later operations multiply on the left: the matrix of ops ++ [op] is the
      embedded op times the matrix of ops. */
  lemma GetUnitaryMatrixAppend<W>(ops: seq<Operation<W>>, op: Operation<W>, order: seq<W>)
    requires AllWellFormed(ops) && WellFormed(op)
    ensures AllWellFormed(ops + [op])
    ensures GetUnitaryMatrix(ops + [op], order) ==
      match GetUnitaryMatrix(ops, order)
      case Err(e) => Err(e)
      case Ok(u) =>
        match EmbedOperation(op, order)
        case Err(e) => Err(e)
        case Ok(g) => Ok(Mul(g, u))
  {
    AccumulateAppend(Identity(Pow2(|order|)), ops, op, order);
  }

  /** An operation whose matrix is the identity on its wires changes nothing. */
  lemma IdentityOperationIsNeutral<W>(ops: seq<Operation<W>>, op: Operation<W>, order: seq<W>)
    requires AllWellFormed(ops) && Distinct(op.wires)
    requires op.matrix == Identity(Pow2(|op.wires|))
    requires forall w :: w in op.wires ==> w in order
    ensures AllWellFormed(ops + [op])
    ensures GetUnitaryMatrix(ops + [op], order) == GetUnitaryMatrix(ops, order)
  {
    GetUnitaryMatrixAppend(ops, op, order);
    var p := Positions(order, op.wires).value;
    LocatesDistinct(order, op.wires, p);
    EmbedIdentity(|order|, p);
    match GetUnitaryMatrix(ops, order)
    case Err(_) =>
    case Ok(u) =>
      MulIdentityLeft(u, Pow2(|order|));
  }

  /** The wire ordering decides the tensor factor: a one-wire gate on wire a
      is m (x) I under the ordering [a, b] and I (x) m under [b, a]. */
  lemma WireOrderSelectsKroneckerFactor<W>(m: Matrix, a: W, b: W)
    requires a != b && IsSquare(m, 2)
    ensures AllWellFormed([Operation([a], m)])
    ensures GetUnitaryMatrix([Operation([a], m)], [a, b]) == Ok(Kron(m, Identity(2)))
    ensures GetUnitaryMatrix([Operation([a], m)], [b, a]) == Ok(Kron(Identity(2), m))
  {
    var op := Operation([a], m);
    assert Pow2(1) == 2 && Pow2(2) == 4;
    assert WellFormed(op);
    assert [op][1..] == [];
    var pa := Positions([a, b], [a]);
    assert a in [a, b] && pa.Ok? && [a, b][pa.value[0]] == a;
    assert pa.value == [0];
    var pb := Positions([b, a], [a]);
    assert a in [b, a] && pb.Ok? && [b, a][pb.value[0]] == a;
    assert pb.value == [1];
    assert Distinct([a, b]) && Distinct([b, a]);
    GateOnFirstOfTwoWires(m, 2, [0]);
    GateOnSecondOfTwoWires(m, 2, [1]);
    var first, second := Kron(m, Identity(2)), Kron(Identity(2), m);
    assert EmbedOperation(op, [a, b]) == Ok(first);
    assert EmbedOperation(op, [b, a]) == Ok(second);
    MulIdentityRight(first, 4);
    MulIdentityRight(second, 4);
    assert Accumulate(Identity(4), [op], [a, b]) == Accumulate(first, [], [a, b]);
    assert Accumulate(Identity(4), [op], [b, a]) == Accumulate(second, [], [b, a]);
  }

  /** Relabelling of wires. */
  function Relabel<W, V>(ws: seq<W>, f: W -> V): (r: seq<V>)
    ensures |r| == |ws| && forall i :: 0 <= i < |ws| ==> r[i] == f(ws[i])
  {
    seq(|ws|, i requires 0 <= i < |ws| => f(ws[i]))
  }

  function RelabelOperations<W, V>(ops: seq<Operation<W>>, f: W -> V): (r: seq<Operation<V>>)
    ensures |r| == |ops| && forall i :: 0 <= i < |ops| ==> r[i] == Operation(Relabel(ops[i].wires, f), ops[i].matrix)
  {
    seq(|ops|, i requires 0 <= i < |ops| => Operation(Relabel(ops[i].wires, f), ops[i].matrix))
  }

  ghost predicate Injective<W(!new), V>(f: W -> V)
  {
    forall a, b :: f(a) == f(b) ==> a == b
  }

  lemma RelabelMembership<W(!new), V>(ws: seq<W>, f: W -> V, w: W)
    requires Injective(f)
    ensures f(w) in Relabel(ws, f) <==> w in ws
  {
    if w in ws {
      var i :| 0 <= i < |ws| && ws[i] == w;
      assert Relabel(ws, f)[i] == f(w);
    }
  }

  lemma {:induction false} IndexOfRelabel<W(!new), V>(ws: seq<W>, f: W -> V, w: W)
    requires Injective(f) && w in ws
    ensures f(w) in Relabel(ws, f)
    ensures IndexOf(Relabel(ws, f), f(w)) == IndexOf(ws, w)
  {
    RelabelMembership(ws, f, w);
    if ws[0] != w {
      assert Relabel(ws, f)[1..] == Relabel(ws[1..], f);
      IndexOfRelabel(ws[1..], f, w);
    }
  }

  /** Positions depend on labels only through where they sit in the ordering. */
  lemma {:induction false} PositionsRelabel<W(!new), V>(order: seq<W>, wires: seq<W>, f: W -> V)
    requires Injective(f)
    ensures Positions(Relabel(order, f), Relabel(wires, f)) ==
      match Positions(order, wires)
      case Ok(p) => Ok(p)
      case Err(w) => Err(f(w))
  {
    if |wires| > 0 {
      assert Relabel(wires, f)[1..] == Relabel(wires[1..], f);
      RelabelMembership(order, f, wires[0]);
      PositionsRelabel(order, wires[1..], f);
      if wires[0] in order {
        IndexOfRelabel(order, f, wires[0]);
      }
    }
  }

  lemma {:induction false} AccumulateRelabel<W(!new), V>(acc: Matrix, ops: seq<Operation<W>>, order: seq<W>, f: W -> V)
    requires Injective(f)
    requires IsSquare(acc, Pow2(|order|)) && AllWellFormed(ops)
    ensures AllWellFormed(RelabelOperations(ops, f))
    ensures Accumulate(acc, RelabelOperations(ops, f), Relabel(order, f)) ==
      match Accumulate(acc, ops, order)
      case Ok(u) => Ok(u)
      case Err(e) => Err(WireNotFound(f(e.wire)))
    decreases |ops|
  {
    var ops' := RelabelOperations(ops, f);
    assert AllWellFormed(ops') by {
      forall i | 0 <= i < |ops|
        ensures WellFormed(ops'[i])
      {
        var ws := ops[i].wires;
        assert Distinct(Relabel(ws, f)) by {
          forall a, b | 0 <= a < b < |ws|
            ensures Relabel(ws, f)[a] != Relabel(ws, f)[b]
          {
          }
        }
      }
    }
    if |ops| > 0 {
      PositionsRelabel(order, ops[0].wires, f);
      assert ops'[1..] == RelabelOperations(ops[1..], f);
      match Positions(order, ops[0].wires)
      case Err(_) =>
      case Ok(p) =>
        AccumulateRelabel(Mul(Embed(ops[0].matrix, |order|, p), acc), ops[1..], order, f);
    }
  }

  /** Renaming the wires of the circuit and of the ordering by one injective map
      leaves the matrix unchanged; a missing wire is reported under its new name. */
  lemma RelabelInvariance<W(!new), V>(ops: seq<Operation<W>>, order: seq<W>, f: W -> V)
    requires Injective(f) && AllWellFormed(ops)
    ensures AllWellFormed(RelabelOperations(ops, f))
    ensures GetUnitaryMatrix(RelabelOperations(ops, f), Relabel(order, f)) ==
      match GetUnitaryMatrix(ops, order)
      case Ok(u) => Ok(u)
      case Err(DuplicateWires) => Err(DuplicateWires)
      case Err(WireNotFound(w)) => Err(WireNotFound(f(w)))
  {
    AccumulateRelabel(Identity(Pow2(|order|)), ops, order, f);
    assert Distinct(Relabel(order, f)) <==> Distinct(order) by {
      var o' := Relabel(order, f);
      if Distinct(o') {
        forall a, b | 0 <= a < b < |order|
          ensures order[a] != order[b]
        {
          assert o'[a] != o'[b];
        }
      }
    }
  }
}
