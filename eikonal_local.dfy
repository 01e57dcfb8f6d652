/**
 * The local update of the anisotropic eikonal solver (AnisotropicEikonal2d::computeValue)
 * and the three geometric stubs it relies on.  A cell's new tentative value is the minimum of
 * the triangle updates over consecutive, circularly ordered neighbour pairs that both lie on
 * the accepted front; only when no such pair exists does it fall back to the minimum of the
 * single-neighbour (line) updates over its front neighbours.
 */
module LocalUpdate {

  /** The "infinite" arrival time that marks a cell no update has reached. */
  const Inf: real := 1e100

  /** std::min(a, b): yields `a` unless `b` is strictly smaller. */
  function Min(a: real, b: real): (m: real)
    ensures m <= a && m <= b
    ensures m == a || m == b
  {
    if b < a then b else a
  }

  /** Triangle update from two accepted neighbours; the source returns this constant. */
  function ComputeFromTri(cell: int, n0: int, n1: int): (v: real)
    ensures v == 1.0
  {
    1.0
  }

  /** Single-neighbour update from one accepted neighbour; the source returns this constant. */
  function ComputeFromLine(cell: int, from: int): (v: real)
    ensures v == 2.0
  {
    2.0
  }

  /** Proximity test deciding which queued cells are re-evaluated; the source always says yes. */
  predicate IsClose(c1: int, c2: int): (close: bool)
    ensures close
  {
    true
  }

  /** The neighbour that follows `nbs[i]` in circular order. */
  function Next(nbs: seq<int>, i: int): int
    requires 0 <= i < |nbs|
  {
    nbs[(i + 1) % |nbs|]
  }

  /** Both cells of the i-th consecutive pair lie on the front. */
  predicate PairOnFront(nbs: seq<int>, front: set<int>, i: int)
    requires 0 <= i < |nbs|
  {
    nbs[i] in front && Next(nbs, i) in front
  }

  /** The triangle candidate drawn from the i-th consecutive pair. */
  function TriCandidate(cell: int, nbs: seq<int>, i: int): real
    requires 0 <= i < |nbs|
  {
    ComputeFromTri(cell, nbs[i], Next(nbs, i))
  }

  /** The line candidate drawn from the i-th neighbour. */
  function LineCandidate(cell: int, nbs: seq<int>, i: int): real
    requires 0 <= i < |nbs|
  {
    ComputeFromLine(cell, nbs[i])
  }

  /** Minimum of the triangle candidates over the qualifying pairs among the first k, starting from Inf. */
  function TriMin(cell: int, nbs: seq<int>, front: set<int>, k: nat): real
    requires k <= |nbs|
  {
    if k == 0 then Inf
    else
      var rest := TriMin(cell, nbs, front, k - 1);
      if PairOnFront(nbs, front, k - 1) then Min(rest, TriCandidate(cell, nbs, k - 1)) else rest
  }

  /** Minimum of the line candidates over the front neighbours among the first k, starting from Inf. */
  function LineMin(cell: int, nbs: seq<int>, front: set<int>, k: nat): real
    requires k <= |nbs|
  {
    if k == 0 then Inf
    else
      var rest := LineMin(cell, nbs, front, k - 1);
      if nbs[k - 1] in front then Min(rest, LineCandidate(cell, nbs, k - 1)) else rest
  }

  /** The value computeValue yields for `cell` with neighbours `nbs` and accepted front `front`. */
  function LocalValue(cell: int, nbs: seq<int>, front: set<int>): real
  {
    var t := TriMin(cell, nbs, front, |nbs|);
    if t == Inf then LineMin(cell, nbs, front, |nbs|) else t
  }

  /** Some consecutive pair of `nbs` lies on the front. */
  ghost predicate HasFrontPair(nbs: seq<int>, front: set<int>)
  {
    exists i :: 0 <= i < |nbs| && PairOnFront(nbs, front, i)
  }

  /** Some neighbour in `nbs` lies on the front. */
  ghost predicate HasFrontNeighbour(nbs: seq<int>, front: set<int>)
  {
    exists i :: 0 <= i < |nbs| && nbs[i] in front
  }

  /**
   * TriMin is the minimum over the qualifying pairs among the first k: no qualifying pair
   * leaves Inf; otherwise it is a lower bound of every qualifying candidate and equals one.
   */
  lemma {:induction false} TriMinIsMinimum(cell: int, nbs: seq<int>, front: set<int>, k: nat)
    requires k <= |nbs|
    ensures TriMin(cell, nbs, front, k) <= Inf
    ensures (forall i :: 0 <= i < k ==> !PairOnFront(nbs, front, i)) ==> TriMin(cell, nbs, front, k) == Inf
    ensures forall i :: 0 <= i < k && PairOnFront(nbs, front, i) ==>
              TriMin(cell, nbs, front, k) <= TriCandidate(cell, nbs, i)
    ensures (exists i :: 0 <= i < k && PairOnFront(nbs, front, i)) ==>
              exists i :: 0 <= i < k && PairOnFront(nbs, front, i) && TriMin(cell, nbs, front, k) == TriCandidate(cell, nbs, i)
  {
    if k > 0 {
      TriMinIsMinimum(cell, nbs, front, k - 1);
    }
  }

  /**
   * LineMin is the minimum over the front neighbours among the first k: none leaves Inf;
   * otherwise it is a lower bound of every front neighbour's candidate and equals one.
   */
  lemma {:induction false} LineMinIsMinimum(cell: int, nbs: seq<int>, front: set<int>, k: nat)
    requires k <= |nbs|
    ensures LineMin(cell, nbs, front, k) <= Inf
    ensures (forall i :: 0 <= i < k ==> nbs[i] !in front) ==> LineMin(cell, nbs, front, k) == Inf
    ensures forall i :: 0 <= i < k && nbs[i] in front ==>
              LineMin(cell, nbs, front, k) <= LineCandidate(cell, nbs, i)
    ensures (exists i :: 0 <= i < k && nbs[i] in front) ==>
              exists i :: 0 <= i < k && nbs[i] in front && LineMin(cell, nbs, front, k) == LineCandidate(cell, nbs, i)
  {
    if k > 0 {
      LineMinIsMinimum(cell, nbs, front, k - 1);
    }
  }

  /**
   * What computeValue promises: with a qualifying pair it is the least triangle candidate;
   * without one it is the least line candidate over the front neighbours; and it is the
   * sentinel exactly when no neighbour lies on the front.
   */
  lemma LocalValueSpec(cell: int, nbs: seq<int>, front: set<int>)
    ensures var v := LocalValue(cell, nbs, front);
      && v <= Inf
      && (HasFrontPair(nbs, front) ==>
            (forall i :: 0 <= i < |nbs| && PairOnFront(nbs, front, i) ==> v <= TriCandidate(cell, nbs, i))
            && exists i :: 0 <= i < |nbs| && PairOnFront(nbs, front, i) && v == TriCandidate(cell, nbs, i))
      && (!HasFrontPair(nbs, front) ==>
            (forall i :: 0 <= i < |nbs| && nbs[i] in front ==> v <= LineCandidate(cell, nbs, i))
            && (HasFrontNeighbour(nbs, front) ==>
                  exists i :: 0 <= i < |nbs| && nbs[i] in front && v == LineCandidate(cell, nbs, i)))
      && (v == Inf <==> !HasFrontNeighbour(nbs, front))
  {
    TriMinIsMinimum(cell, nbs, front, |nbs|);
    LineMinIsMinimum(cell, nbs, front, |nbs|);
  }

  /** computeValue's assertion: a cell with a neighbour on the front gets a value below the sentinel. */
  lemma LocalValueFinite(cell: int, nbs: seq<int>, front: set<int>)
    requires HasFrontNeighbour(nbs, front)
    ensures LocalValue(cell, nbs, front) < Inf
  {
    LocalValueSpec(cell, nbs, front);
  }

  /**
   * `v` is one of the finite values computeValue can yield for `cell`, whatever the front:
   * a triangle candidate of one of its consecutive pairs or a line candidate of one of its
   * neighbours.
   */
  ghost predicate Produced(cell: int, nbs: seq<int>, v: real)
  {
    exists i :: 0 <= i < |nbs| && (v == TriCandidate(cell, nbs, i) || v == LineCandidate(cell, nbs, i))
  }

  /** A finite value of computeValue is a candidate it drew from a pair or a neighbour. */
  lemma LocalValueProduced(cell: int, nbs: seq<int>, front: set<int>)
    requires LocalValue(cell, nbs, front) < Inf
    ensures Produced(cell, nbs, LocalValue(cell, nbs, front))
  {
    LocalValueSpec(cell, nbs, front);
  }

  /** With the source's constant stubs, the only finite values computeValue yields are 1 and 2. */
  lemma ProducedByStubs(cell: int, nbs: seq<int>, v: real)
    requires Produced(cell, nbs, v)
    ensures v == 1.0 || v == 2.0
  {
    var i :| 0 <= i < |nbs| && (v == TriCandidate(cell, nbs, i) || v == LineCandidate(cell, nbs, i));
  }

  /**
   * computeValue's two min-fold loops: first over consecutive pairs on the front, then,
   * if nothing was found, over single front neighbours.  The geometric updates assert that
   * the cell is not accepted and that the neighbours they use are; `acc` holds the accepted
   * flags these assertions read, and every front cell is accepted.
   */
  method ComputeValue(cell: int, nbs: seq<int>, front: set<int>, ghost acc: seq<bool>) returns (val: real)
    requires 0 <= cell < |acc| && !acc[cell]
    requires forall c :: c in front ==> 0 <= c < |acc| && acc[c]
    ensures val == LocalValue(cell, nbs, front)
  {
    var numNbs := |nbs|;
    val := Inf;
    var ii := 0;
    while ii < numNbs
      invariant 0 <= ii <= numNbs
      invariant val == TriMin(cell, nbs, front, ii)
    {
      var n0, n1 := nbs[ii], nbs[(ii + 1) % numNbs];
      if n0 in front && n1 in front {
        assert !acc[cell] && acc[n0] && acc[n1];
        var candVal := ComputeFromTri(cell, n0, n1);
        val := Min(val, candVal);
      }
      ii := ii + 1;
    }
    if val == Inf {
      ii := 0;
      while ii < numNbs
        invariant 0 <= ii <= numNbs
        invariant val == LineMin(cell, nbs, front, ii)
      {
        if nbs[ii] in front {
          assert !acc[cell] && acc[nbs[ii]];
          var candVal := ComputeFromLine(cell, nbs[ii]);
          val := Min(val, candVal);
        }
        ii := ii + 1;
      }
    }
  }
}
