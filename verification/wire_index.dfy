/** Wire-label bookkeeping of the transform: `Wires.indices` (where each wire of
    an operation sits in the wire ordering) and the list of unused positions
    whose concatenation with the gate's positions is the axis permutation. */
module WireIndex {
  import opened Results

  predicate Distinct<T(==)>(s: seq<T>)
  {
    forall i, j :: 0 <= i < j < |s| ==> s[i] != s[j]
  }

  /** The first position of x in s. */
  function IndexOf<T(==)>(s: seq<T>, x: T): (i: nat)
    requires x in s
    ensures i < |s| && s[i] == x && x !in s[..i]
  {
    if s[0] == x then 0
    else
      var j := IndexOf(s[1..], x);
      assert s[..j + 1] == [s[0]] + s[1..][..j];
      1 + j
  }

  lemma IndexOfDistinct<T>(s: seq<T>, i: nat)
    requires Distinct(s) && i < |s|
    ensures IndexOf(s, s[i]) == i
  {
  }

  /** `wire_order.indices(op.wires)`: the position of every wire of the
      operation in the ordering, in the operation's own wire order; the first
      wire that the ordering lacks is reported instead. */
  function Positions<T(==)>(order: seq<T>, wires: seq<T>): (r: Result<seq<nat>, T>)
    ensures r.Ok? <==> forall w :: w in wires ==> w in order
    ensures r.Ok? ==> Locates(order, wires, r.value)
    ensures r.Err? ==> exists i :: FirstMissing(order, wires, i, r.error)
  {
    if |wires| == 0 then Ok([])
    else if wires[0] !in order then
      assert FirstMissing(order, wires, 0, wires[0]);
      Err(wires[0])
    else
      match Positions(order, wires[1..])
      case Ok(rest) =>
        var r := [IndexOf(order, wires[0])] + rest;
        assert forall i :: 1 <= i < |wires| ==> r[i] == rest[i - 1] && wires[i] == wires[1..][i - 1];
        Ok(r)
      case Err(w) =>
        var i :| FirstMissing(order, wires[1..], i, w);
        assert wires[..i + 1] == [wires[0]] + wires[1..][..i];
        assert FirstMissing(order, wires, i + 1, w);
        Err(w)
  }

  /** p[i] is a position of wires[i] in order, for every i. */
  predicate Locates<T(==)>(order: seq<T>, wires: seq<T>, p: seq<nat>)
  {
    |p| == |wires| && forall i :: 0 <= i < |wires| ==> p[i] < |order| && order[p[i]] == wires[i]
  }

  /** wires[i] is w, the first wire that order lacks. */
  predicate FirstMissing<T(==)>(order: seq<T>, wires: seq<T>, i: int, w: T)
  {
    && 0 <= i < |wires|
    && wires[i] == w
    && w !in order
    && forall v :: v in wires[..i] ==> v in order
  }

  /** Distinct wires sit at distinct positions. */
  lemma LocatesDistinct<T>(order: seq<T>, wires: seq<T>, p: seq<nat>)
    requires Locates(order, wires, p) && Distinct(wires)
    ensures Distinct(p)
  {
  }

  /** `[idx for idx in range(n) if idx not in p]`. */
  function Unused(n: nat, p: seq<nat>): (u: seq<nat>)
    ensures forall q: nat :: q in u <==> q < n && q !in p
    ensures forall i :: 0 <= i < |u| ==> u[i] < n
    ensures forall i, j :: 0 <= i < j < |u| ==> u[i] < u[j]
  {
    if n == 0 then []
    else
      var prev := Unused(n - 1, p);
      assert forall i :: 0 <= i < |prev| ==> prev[i] in prev && prev[i] < n - 1;
      prev + (if n - 1 in p then [] else [n - 1])
  }

  /** perm is an ordering of exactly the positions 0 .. n-1. */
  predicate IsPermutation(perm: seq<nat>, n: nat)
  {
    && |perm| == n
    && Distinct(perm)
    && (forall i :: 0 <= i < n ==> perm[i] < n)
    && (forall q :: 0 <= q < n ==> q in perm)
  }

  /** The gate's positions in a register of n wires are distinct and in range. */
  predicate ValidPositions(p: seq<nat>, n: nat)
  {
    Distinct(p) && forall i :: 0 <= i < |p| ==> p[i] < n
  }

  /** `perm = op_wire_pos + unused_idxs` is a permutation of 0 .. n-1, so it is a
      legal destination list for `np.moveaxis`. */
  lemma PositionsThenUnusedIsPermutation(n: nat, p: seq<nat>)
    requires ValidPositions(p, n)
    ensures IsPermutation(p + Unused(n, p), n)
    ensures |Unused(n, p)| == n - |p|
  {
    var u := Unused(n, p);
    var perm := p + u;
    assert Distinct(perm) by {
      forall i, j | 0 <= i < j < |perm|
        ensures perm[i] != perm[j]
      {
        if j < |p| {
        } else if i >= |p| {
          assert perm[i] == u[i - |p|] && perm[j] == u[j - |p|];
        } else {
          assert perm[j] in u;
        }
      }
    }
    assert forall i :: 0 <= i < |perm| ==> perm[i] < n by {
      forall i | 0 <= i < |perm|
        ensures perm[i] < n
      {
        if i >= |p| {
          assert perm[i] in u;
        }
      }
    }
    var range := seq(n, q => q);
    assert Distinct(range);
    assert forall i :: 0 <= i < |perm| ==> range[perm[i]] in range;
    DistinctSubsetLength(perm, range);
    DistinctSubsetLength(range, perm);
  }

  /** `a + b` on wire lists (`Wires.all_wires([a, b])`): the labels of a, then
      every label of b not seen before, in order. */
  function Union<T(==)>(a: seq<T>, b: seq<T>): (r: seq<T>)
    ensures forall i :: 0 <= i < |r| ==> r[i] in a || r[i] in b
    ensures forall i :: 0 <= i < |b| ==> b[i] in r
    ensures |a| <= |r| <= |a| + |b|
    ensures r[..|a|] == a
    ensures Distinct(a) ==> Distinct(r)
    ensures (forall i :: 0 <= i < |a| ==> a[i] !in b) && Distinct(b) ==> r == a + b
  {
    if |b| == 0 then a
    else
      var init := b[..|b| - 1];
      var prev := Union(a, init);
      var r := if b[|b| - 1] in prev then prev else prev + [b[|b| - 1]];
      UnionStep(a, b, init, b[|b| - 1], prev, r);
      r
  }

  /** The step of Union: the union of a with init + [w] is the union with init,
      extended by w when w is new. */
  lemma UnionStep<T>(a: seq<T>, b: seq<T>, init: seq<T>, w: T, prev: seq<T>, r: seq<T>)
    requires b == init + [w]
    requires r == if w in prev then prev else prev + [w]
    requires forall i :: 0 <= i < |prev| ==> prev[i] in a || prev[i] in init
    requires forall i :: 0 <= i < |init| ==> init[i] in prev
    requires |a| <= |prev| <= |a| + |init|
    requires prev[..|a|] == a
    requires Distinct(a) ==> Distinct(prev)
    requires (forall i :: 0 <= i < |a| ==> a[i] !in init) && Distinct(init) ==> prev == a + init
    ensures forall i :: 0 <= i < |r| ==> r[i] in a || r[i] in b
    ensures forall i :: 0 <= i < |b| ==> b[i] in r
    ensures |a| <= |r| <= |a| + |b|
    ensures r[..|a|] == a
    ensures Distinct(a) ==> Distinct(r)
    ensures (forall i :: 0 <= i < |a| ==> a[i] !in b) && Distinct(b) ==> r == a + b
  {
    assert Distinct(b) ==> Distinct(init) && w !in init by {
      if Distinct(b) {
        forall i, j | 0 <= i < j < |init|
          ensures init[i] != init[j]
        {
          assert init[i] == b[i] && init[j] == b[j];
        }
        forall k | 0 <= k < |init|
          ensures init[k] != w
        {
          assert init[k] == b[k] && w == b[|init|];
        }
      }
    }
    assert forall i :: 0 <= i < |b| ==> b[i] in r by {
      forall i | 0 <= i < |b|
        ensures b[i] in r
      {
        if i < |init| {
          assert b[i] == init[i];
        }
      }
    }
    if (forall i :: 0 <= i < |a| ==> a[i] !in b) && Distinct(b) {
      assert forall i :: 0 <= i < |a| ==> a[i] !in init;
      assert w !in prev;
      assert r == a + init + [w];
    }
  }

  /** s with every occurrence of x removed. */
  function Without<T(==)>(s: seq<T>, x: T): (r: seq<T>)
    ensures forall y :: y in r ==> y in s && y != x
    ensures forall y :: y in s && y != x ==> y in r
    ensures |r| <= |s|
    ensures x in s ==> |r| < |s|
  {
    if |s| == 0 then []
    else (if s[0] == x then [] else [s[0]]) + Without(s[1..], x)
  }

  /** A repetition-free sequence drawn from b is no longer than b. */
  lemma {:induction false} DistinctSubsetLength<T>(a: seq<T>, b: seq<T>)
    requires Distinct(a)
    requires forall x :: x in a ==> x in b
    ensures |a| <= |b|
  {
    if |a| > 0 {
      var rest := a[1..];
      var b' := Without(b, a[0]);
      assert forall x :: x in rest ==> x in b' by {
        forall x | x in rest
          ensures x in b'
        {
          var k :| 0 <= k < |rest| && rest[k] == x;
          assert a[k + 1] == x;
        }
      }
      assert Distinct(rest) by {
        forall i, j | 0 <= i < j < |rest|
          ensures rest[i] != rest[j]
        {
          assert rest[i] == a[i + 1] && rest[j] == a[j + 1];
        }
      }
      DistinctSubsetLength(rest, b');
    }
  }
}
