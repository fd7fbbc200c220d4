/** How one gate's 2^k x 2^k matrix becomes a 2^n x 2^n matrix of the whole
    register: the operation tensor is contracted with the identity tensor
    (`np.tensordot`), the axes are put back in wire order (`np.moveaxis`) and
    the result is flattened again (`np.reshape`). Entries are integers: the
    index bookkeeping does not depend on the number field. */
module Embedding {
  import opened Bits
  import opened WireIndex

  type Matrix = seq<seq<int>>

  predicate IsSquare(m: Matrix, d: nat)
  {
    |m| == d && forall i :: 0 <= i < d ==> |m[i]| == d
  }

  /** `np.eye(d)`. */
  function Identity(d: nat): (m: Matrix)
    ensures IsSquare(m, d)
  {
    seq(d, i => seq(d, j => if i == j then 1 else 0))
  }

  /** The bits of x at the listed axes, in list order. */
  function Gather(x: seq<Bit>, idx: seq<nat>): (r: seq<Bit>)
    requires forall i :: 0 <= i < |idx| ==> idx[i] < |x|
    ensures |r| == |idx|
  {
    seq(|idx|, i requires 0 <= i < |idx| => x[idx[i]])
  }

  /** The multi-index whose axis perm[j] carries vals[j]: the axes of the
      identity tensor seen by one term of the contraction. */
  function Scatter(perm: seq<nat>, n: nat, vals: seq<Bit>): (x: seq<Bit>)
    requires IsPermutation(perm, n) && |vals| == n
    ensures |x| == n
  {
    seq(n, q requires 0 <= q < n => vals[IndexOf(perm, q)])
  }

  /** Scattering vals along perm gives x exactly when gathering x along perm
      gives vals back. */
  lemma ScatterGather(perm: seq<nat>, n: nat, vals: seq<Bit>, x: seq<Bit>)
    requires IsPermutation(perm, n) && |vals| == n && |x| == n
    ensures Scatter(perm, n, vals) == x <==> vals == Gather(x, perm)
  {
    var s := Scatter(perm, n, vals);
    forall j | 0 <= j < n
      ensures s[perm[j]] == vals[j]
    {
      IndexOfDistinct(perm, j);
    }
    if vals == Gather(x, perm) {
      forall q | 0 <= q < n
        ensures s[q] == x[q]
      {
        var j := IndexOf(perm, q);
        assert s[perm[j]] == vals[j];
      }
    }
  }

  lemma GatherConcat(x: seq<Bit>, a: seq<nat>, b: seq<nat>)
    requires forall i :: 0 <= i < |a| ==> a[i] < |x|
    requires forall i :: 0 <= i < |b| ==> b[i] < |x|
    ensures Gather(x, a + b) == Gather(x, a) + Gather(x, b)
  {
  }

  /** `np.reshape(op.matrix, [2] * 2k)`: axes 0..k-1 select the row, axes
      k..2k-1 the column. */
  function GateTensor(m: Matrix, k: nat, x: seq<Bit>): (v: int)
    requires IsSquare(m, Pow2(k)) && |x| == 2 * k
  {
    m[FromBits(x[..k])][FromBits(x[k..])]
  }

  /** `np.reshape(np.eye(2 ** n), [2] * n * 2)`. */
  function IdentityTensor(n: nat, x: seq<Bit>): (v: int)
    requires |x| == 2 * n
  {
    Identity(Pow2(n))[FromBits(x[..n])][FromBits(x[n..])]
  }

  /** What one term of the contraction needs: a gate on |p| distinct positions of
      an n-wire register, its free output bits o, the free row bits rest of the
      identity (one per unused position) and the identity's column bits col. */
  predicate ContractionShape(m: Matrix, n: nat, p: seq<nat>, o: seq<Bit>, rest: seq<Bit>, col: seq<Bit>)
  {
    && ValidPositions(p, n)
    && IsSquare(m, Pow2(|p|))
    && |p| <= n
    && |o| == |p|
    && |rest| == n - |p|
    && |col| == n
  }

  /** `np.tensordot(U_op, I, axes=(range(k, 2k), op_wire_pos))` at output index
      (o, rest, col): the sum, over every k-bit string extending i, of
      U_op[o ++ i] * I[row ++ col], where the identity's row axis p[j] carries
      i[j] and its unused row axes carry rest. */
  function Contract(m: Matrix, n: nat, p: seq<nat>, o: seq<Bit>, rest: seq<Bit>, col: seq<Bit>, i: seq<Bit>): (sum: int)
    requires ContractionShape(m, n, p, o, rest, col) && |i| <= |p|
    decreases |p| - |i|
  {
    if |i| == |p| then
      PositionsThenUnusedIsPermutation(n, p);
      GateTensor(m, |p|, o + i) * IdentityTensor(n, Scatter(p + Unused(n, p), n, i + rest) + col)
    else
      Contract(m, n, p, o, rest, col, i + [0]) + Contract(m, n, p, o, rest, col, i + [1])
  }

  /** One term of the contraction is non-zero only when the contracted bits are
      the column's bits at p and the free row bits are its bits elsewhere. */
  lemma ContractTerm(m: Matrix, n: nat, p: seq<nat>, o: seq<Bit>, rest: seq<Bit>, col: seq<Bit>, i: seq<Bit>)
    requires ContractionShape(m, n, p, o, rest, col) && |i| == |p|
    ensures Contract(m, n, p, o, rest, col, i) ==
        if i == Gather(col, p) && rest == Gather(col, Unused(n, p)) then m[FromBits(o)][FromBits(i)] else 0
  {
    PositionsThenUnusedIsPermutation(n, p);
    var s := Scatter(p + Unused(n, p), n, i + rest);
    GateTensorAt(m, o, i);
    IdentityTensorAt(n, s, col);
    ScatterMatchesColumn(n, p, i, rest, col);
  }

  lemma GateTensorAt(m: Matrix, o: seq<Bit>, i: seq<Bit>)
    requires |o| == |i| && IsSquare(m, Pow2(|i|))
    ensures GateTensor(m, |i|, o + i) == m[FromBits(o)][FromBits(i)]
  {
    assert (o + i)[..|i|] == o && (o + i)[|i|..] == i;
  }

  lemma IdentityTensorAt(n: nat, s: seq<Bit>, col: seq<Bit>)
    requires |s| == n && |col| == n
    ensures IdentityTensor(n, s + col) == if s == col then 1 else 0
  {
    assert (s + col)[..n] == s && (s + col)[n..] == col;
    FromBitsInjective(s, col);
  }

  /** The identity's row multi-index equals its column exactly when the
      contracted bits are the column's bits at p and the free row bits are the
      column's bits elsewhere. */
  lemma ScatterMatchesColumn(n: nat, p: seq<nat>, i: seq<Bit>, rest: seq<Bit>, col: seq<Bit>)
    requires ValidPositions(p, n) && |p| <= n && |i| == |p| && |rest| == n - |p| && |col| == n
    requires IsPermutation(p + Unused(n, p), n)
    ensures Scatter(p + Unused(n, p), n, i + rest) == col <==> i == Gather(col, p) && rest == Gather(col, Unused(n, p))
  {
    var u := Unused(n, p);
    ScatterGather(p + u, n, i + rest, col);
    GatherConcat(col, p, u);
    var g := Gather(col, p + u);
    if i + rest == g {
      assert i == (i + rest)[..|p|] && rest == (i + rest)[|p|..];
    }
  }

  /** The contraction collapses to the single term whose contracted bits are the
      column's bits at p. */
  lemma {:induction false} ContractCollapse(m: Matrix, n: nat, p: seq<nat>, o: seq<Bit>, rest: seq<Bit>, col: seq<Bit>, i: seq<Bit>)
    requires ContractionShape(m, n, p, o, rest, col) && |i| <= |p|
    ensures Contract(m, n, p, o, rest, col, i) ==
        if i == Gather(col, p)[..|i|] && rest == Gather(col, Unused(n, p))
        then m[FromBits(o)][FromBits(Gather(col, p))] else 0
    decreases |p| - |i|
  {
    PositionsThenUnusedIsPermutation(n, p);
    var target := Gather(col, p);
    if |i| == |p| {
      ContractTerm(m, n, p, o, rest, col, i);
      assert target[..|i|] == target;
    } else {
      ContractCollapse(m, n, p, o, rest, col, i + [0]);
      ContractCollapse(m, n, p, o, rest, col, i + [1]);
      PrefixStep(i, 0, target);
      PrefixStep(i, 1, target);
    }
  }

  lemma PrefixStep(i: seq<Bit>, b: Bit, t: seq<Bit>)
    requires |i| < |t|
    ensures i + [b] == t[..|i| + 1] <==> i == t[..|i|] && b == t[|i|]
  {
    assert t[..|i| + 1] == t[..|i|] + [t[|i|]];
    if i + [b] == t[..|i| + 1] {
      assert (i + [b])[..|i|] == i;
      assert (i + [b])[|i|] == b;
    }
  }

  /** Entry (r, c) of the embedded gate: the row and column indices are split
      into bits (reshape), the row bits are taken in `perm` order (moveaxis:
      source axis j is destination axis perm[j]), and the contraction is read
      at that index. */
  function EmbedEntry(m: Matrix, n: nat, p: seq<nat>, r: nat, c: nat): (e: int)
    requires ValidPositions(p, n) && IsSquare(m, Pow2(|p|))
  {
    PositionsThenUnusedIsPermutation(n, p);
    var src := Gather(ToBits(r, n), p + Unused(n, p));
    Contract(m, n, p, src[..|p|], src[|p|..], ToBits(c, n), [])
  }

  /** The 2^n x 2^n matrix of a gate with matrix m acting on positions p. */
  function Embed(m: Matrix, n: nat, p: seq<nat>): (g: Matrix)
    requires ValidPositions(p, n) && IsSquare(m, Pow2(|p|))
    ensures IsSquare(g, Pow2(n))
  {
    seq(Pow2(n), r requires 0 <= r => seq(Pow2(n), c requires 0 <= c => EmbedEntry(m, n, p, r, c)))
  }

  /** The index of the gate's own basis selected by the bits of x at p. */
  function Restrict(x: nat, n: nat, p: seq<nat>): (v: nat)
    requires forall i :: 0 <= i < |p| ==> p[i] < n
    ensures v < Pow2(|p|)
  {
    FromBits(Gather(ToBits(x, n), p))
  }

  /** r and c have the same bit at every position the gate does not touch. */
  predicate AgreeOutside(r: nat, c: nat, n: nat, p: seq<nat>)
  {
    forall q :: 0 <= q < n && q !in p ==> ToBits(r, n)[q] == ToBits(c, n)[q]
  }

  /** Closed form of the embedding: entry (r, c) is the gate's entry at the
      bits of r and c on the gate's wires when r and c agree on every other
      wire, and 0 otherwise. */
  lemma EmbedClosedForm(m: Matrix, n: nat, p: seq<nat>, r: nat, c: nat)
    requires ValidPositions(p, n) && IsSquare(m, Pow2(|p|))
    requires r < Pow2(n) && c < Pow2(n)
    ensures Embed(m, n, p)[r][c] ==
      if AgreeOutside(r, c, n, p) then m[Restrict(r, n, p)][Restrict(c, n, p)] else 0
  {
    PositionsThenUnusedIsPermutation(n, p);
    var u := Unused(n, p);
    var row := ToBits(r, n);
    var col := ToBits(c, n);
    var src := Gather(row, p + u);
    assert src[..|p|] == Gather(row, p) && src[|p|..] == Gather(row, u) by {
      GatherConcat(row, p, u);
    }
    assert Embed(m, n, p)[r][c] == Contract(m, n, p, Gather(row, p), Gather(row, u), col, []);
    ContractCollapse(m, n, p, Gather(row, p), Gather(row, u), col, []);
    AgreeOutsideOnUnused(r, c, n, p);
  }

  /** r and c agree outside p exactly when their bits at the unused positions
      coincide. */
  lemma AgreeOutsideOnUnused(r: nat, c: nat, n: nat, p: seq<nat>)
    ensures Gather(ToBits(r, n), Unused(n, p)) == Gather(ToBits(c, n), Unused(n, p)) <==> AgreeOutside(r, c, n, p)
  {
    var u := Unused(n, p);
    var row := ToBits(r, n);
    var col := ToBits(c, n);
    if Gather(row, u) == Gather(col, u) {
      forall q | 0 <= q < n && q !in p
        ensures row[q] == col[q]
      {
        var j :| 0 <= j < |u| && u[j] == q;
        assert Gather(row, u)[j] == row[q];
      }
    }
    if AgreeOutside(r, c, n, p) {
      forall j | 0 <= j < |u|
        ensures Gather(row, u)[j] == Gather(col, u)[j]
      {
        assert u[j] in u;
      }
    }
  }

  /** Embedding the 2^k identity gives the 2^n identity: an identity gate leaves
      the register untouched. */
  lemma EmbedIdentity(n: nat, p: seq<nat>)
    requires ValidPositions(p, n)
    ensures Embed(Identity(Pow2(|p|)), n, p) == Identity(Pow2(n))
  {
    var e := Embed(Identity(Pow2(|p|)), n, p);
    var id := Identity(Pow2(n));
    forall r, c | 0 <= r < Pow2(n) && 0 <= c < Pow2(n)
      ensures e[r][c] == id[r][c]
    {
      EmbedClosedForm(Identity(Pow2(|p|)), n, p, r, c);
      var row := ToBits(r, n);
      var col := ToBits(c, n);
      FromBitsInjective(Gather(row, p), Gather(col, p));
      if AgreeOutside(r, c, n, p) && Gather(row, p) == Gather(col, p) {
        forall q | 0 <= q < n
          ensures row[q] == col[q]
        {
          if q in p {
            var j :| 0 <= j < |p| && p[j] == q;
            assert Gather(row, p)[j] == row[q];
          }
        }
        assert row == col;
        FromBitsToBits(r, n);
        FromBitsToBits(c, n);
      }
    }
    forall r | 0 <= r < Pow2(n)
      ensures e[r] == id[r]
    {
    }
  }

  /** Row i of a times column j of b, over the first len terms. */
  function Dot(a: seq<int>, b: Matrix, j: nat, len: nat): (sum: int)
    requires len <= |a| && len <= |b|
    requires forall t :: 0 <= t < len ==> j < |b[t]|
  {
    if len == 0 then 0 else Dot(a, b, j, len - 1) + a[len - 1] * b[len - 1][j]
  }

  /** `np.dot(a, b)` for square matrices of one size. */
  function Mul(a: Matrix, b: Matrix): (r: Matrix)
    requires IsSquare(a, |a|) && IsSquare(b, |a|)
    ensures IsSquare(r, |a|)
  {
    seq(|a|, i requires 0 <= i < |a| => seq(|a|, j requires 0 <= j < |a| => Dot(a[i], b, j, |a|)))
  }

  lemma {:induction false} DotIdentityRow(d: nat, b: Matrix, i: nat, j: nat, len: nat)
    requires IsSquare(b, d) && i < d && j < d && len <= d
    ensures Dot(Identity(d)[i], b, j, len) == if i < len then b[i][j] else 0
  {
    if len > 0 {
      DotIdentityRow(d, b, i, j, len - 1);
    }
  }

  /** The identity is a left unit of the matrix product. */
  lemma MulIdentityLeft(b: Matrix, d: nat)
    requires IsSquare(b, d)
    ensures Mul(Identity(d), b) == b
  {
    var r := Mul(Identity(d), b);
    forall i, j | 0 <= i < d && 0 <= j < d
      ensures r[i][j] == b[i][j]
    {
      DotIdentityRow(d, b, i, j, d);
    }
    forall i | 0 <= i < d
      ensures r[i] == b[i]
    {
    }
  }

  lemma {:induction false} DotIdentityColumn(d: nat, a: seq<int>, j: nat, len: nat)
    requires |a| == d && j < d && len <= d
    ensures Dot(a, Identity(d), j, len) == if j < len then a[j] else 0
  {
    if len > 0 {
      DotIdentityColumn(d, a, j, len - 1);
    }
  }

  /** The identity is a right unit of the matrix product. */
  lemma MulIdentityRight(a: Matrix, d: nat)
    requires IsSquare(a, d)
    ensures Mul(a, Identity(d)) == a
  {
    var r := Mul(a, Identity(d));
    forall i, j | 0 <= i < d && 0 <= j < d
      ensures r[i][j] == a[i][j]
    {
      DotIdentityColumn(d, a[i], j, d);
    }
    forall i | 0 <= i < d
      ensures r[i] == a[i]
    {
    }
  }

  /** The Kronecker product a (x) b: a acts on the leading bits of the index. */
  function Kron(a: Matrix, b: Matrix): (k: Matrix)
    requires |b| > 0 && IsSquare(a, |a|) && IsSquare(b, |b|)
    ensures IsSquare(k, |a| * |b|)
  {
    var d := |a| * |b|;
    seq(d, r requires 0 <= r < d => seq(d, c requires 0 <= c < d => KronEntry(a, b, r, c)))
  }

  /** Entry (r, c) of a (x) b: block (r / |b|, c / |b|) of a scales entry
      (r % |b|, c % |b|) of b. */
  function KronEntry(a: Matrix, b: Matrix, r: nat, c: nat): (e: int)
    requires |b| > 0 && IsSquare(a, |a|) && IsSquare(b, |b|)
    requires r < |a| * |b| && c < |a| * |b|
  {
    var nb := |b|;
    var i := r / nb;
    var j := c / nb;
    DivBelow(r, |a|, nb);
    DivBelow(c, |a|, nb);
    a[i][j] * b[r % nb][c % nb]
  }

  /** An index below a * b splits into a block index below a. */
  lemma DivBelow(x: nat, a: nat, b: nat)
    requires b > 0 && x < a * b
    ensures x / b < a
  {
    if x / b >= a {
      MulLe(a, x / b, b);
    }
  }

  lemma TwoBits(x: nat)
    requires x < 4
    ensures ToBits(x, 2) == [x / 2, x % 2]
  {
  }

  lemma FirstWireEntry(m: Matrix, n: nat, p: seq<nat>, r: nat, c: nat)
    requires IsSquare(m, 2) && n == 2 && p == [0] && r < 4 && c < 4
    ensures Embed(m, n, p)[r][c] == if r % 2 == c % 2 then m[r / 2][c / 2] else 0
  {
    var row := ToBits(r, n);
    var col := ToBits(c, n);
    TwoBits(r);
    TwoBits(c);
    EmbedClosedForm(m, n, p, r, c);
    assert Gather(row, p) == [r / 2] && Gather(col, p) == [c / 2];
    assert FromBits([r / 2]) == r / 2 && FromBits([c / 2]) == c / 2;
    assert AgreeOutside(r, c, n, p) <==> r % 2 == c % 2 by {
      assert 1 !in p;
    }
  }

  lemma SecondWireEntry(m: Matrix, n: nat, p: seq<nat>, r: nat, c: nat)
    requires IsSquare(m, 2) && n == 2 && p == [1] && r < 4 && c < 4
    ensures Embed(m, n, p)[r][c] == if r / 2 == c / 2 then m[r % 2][c % 2] else 0
  {
    var row := ToBits(r, n);
    var col := ToBits(c, n);
    TwoBits(r);
    TwoBits(c);
    EmbedClosedForm(m, n, p, r, c);
    assert Gather(row, p) == [r % 2] && Gather(col, p) == [c % 2];
    assert FromBits([r % 2]) == r % 2 && FromBits([c % 2]) == c % 2;
    assert AgreeOutside(r, c, n, p) <==> r / 2 == c / 2 by {
      assert 0 !in p;
    }
  }

  /** On a two-wire register a one-wire gate on the first wire is m (x) I: the
      first wire of the ordering is the most significant bit. */
  lemma GateOnFirstOfTwoWires(m: Matrix, n: nat, p: seq<nat>)
    requires IsSquare(m, 2) && n == 2 && p == [0]
    ensures Embed(m, n, p) == Kron(m, Identity(2))
  {
    var e := Embed(m, n, p);
    var k := Kron(m, Identity(2));
    forall r, c | 0 <= r < 4 && 0 <= c < 4
      ensures e[r][c] == k[r][c]
    {
      FirstWireEntry(m, n, p, r, c);
    }
    forall r | 0 <= r < 4
      ensures e[r] == k[r]
    {
    }
  }

  /** On a two-wire register a one-wire gate on the second wire is I (x) m. */
  lemma GateOnSecondOfTwoWires(m: Matrix, n: nat, p: seq<nat>)
    requires IsSquare(m, 2) && n == 2 && p == [1]
    ensures Embed(m, n, p) == Kron(Identity(2), m)
  {
    var e := Embed(m, n, p);
    var k := Kron(Identity(2), m);
    forall r, c | 0 <= r < 4 && 0 <= c < 4
      ensures e[r][c] == k[r][c]
    {
      SecondWireEntry(m, n, p, r, c);
    }
    forall r | 0 <= r < 4
      ensures e[r] == k[r]
    {
    }
  }
}
