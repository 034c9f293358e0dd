/**
  The MRF factor-graph builder of LP_MP: `MRFProblemConstructor` with the
  hooks of `StandardMrfConstructor` and the triplet extension of
  `TighteningMRFProblemConstructor`. Factors are their cost sequences; the LP
  scheduler the builder reports to is an append-only log of events. A factor
  is named by the slot that holds it: unary factors by node, pairwise and
  triplet factors by their id, messages by their position in their list.
 */
module MrfConstruction {
  import opened Wrappers

  type Cost = seq<real>

  datatype FactorRef = Unary(node: nat) | Pairwise(id: nat) | Triplet(id: nat)

  datatype MessageRef = LeftMessage(id: nat) | RightMessage(id: nat) | TripletMessage(id: nat)

  /** What the builder tells the LP: `AddFactor`, `AddMessage`, `AddFactorRelation`. */
  datatype LpEvent =
    | AddFactor(factor: FactorRef)
    | AddMessage(message: MessageRef)
    | AddFactorRelation(before: FactorRef, after: FactorRef)

  /** A unary-pairwise marginalisation message: its endpoints, the loop dimensions
      the hooks give it, and the size of its container. */
  datatype UnaryPairwiseMessage =
    UnaryPairwiseMessage(unary: nat, pairwise: nat, unaryLoop: nat, pairwiseLoop: (nat, nat), size: nat)

  /** Which pair of a triplet's variables a pairwise-triplet message joins. */
  datatype TripletEdge = Edge12 | Edge13 | Edge23

  datatype PairwiseTripletMessage =
    PairwiseTripletMessage(edge: TripletEdge, pairwise: nat, triplet: nat,
                           pairwiseLoop: nat, tripletLoop: (nat, nat, nat), size: nat)

  function Zeros(n: nat): (r: Cost)
    ensures |r| == n && forall i :: 0 <= i < n ==> r[i] == 0.0
  {
    seq(n, _ => 0.0)
  }

  /** Number of factors the LP holds after the events of `log`. */
  function FactorCount(log: seq<LpEvent>): (r: nat)
    ensures r <= |log|
  {
    if log == [] then 0
    else FactorCount(log[..|log| - 1]) + (if log[|log| - 1].AddFactor? then 1 else 0)
  }

  // ---------------------------------------------------------------------------
  // The hooks of StandardMrfConstructor

  /** `ConstructLeftUnaryPairwiseMessage`: the pairwise loop is `(leftDim, size / leftDim)`. */
  function LeftUnaryPairwiseMessage(left: nat, leftDim: nat, p: nat, pairwiseSize: nat): UnaryPairwiseMessage
    requires leftDim > 0
  {
    UnaryPairwiseMessage(left, p, leftDim, (leftDim, pairwiseSize / leftDim), leftDim)
  }

  /** `ConstructRightUnaryPairwiseMessage`: the pairwise loop is `(size / rightDim, rightDim)`. */
  function RightUnaryPairwiseMessage(right: nat, rightDim: nat, p: nat, pairwiseSize: nat): UnaryPairwiseMessage
    requires rightDim > 0
  {
    UnaryPairwiseMessage(right, p, rightDim, (pairwiseSize / rightDim, rightDim), rightDim)
  }

  lemma ProductDiv(a: nat, b: nat)
    requires a > 0
    ensures (a * b) / a == b && (b * a) / a == b
  {
    var q, r := (a * b) / a, (a * b) % a;
    assert a * b == a * q + r && 0 <= r < a;
    assert a * (b - q) == r;
    if b - q >= 1 {
      assert false;
    } else if b - q <= -1 {
      assert false;
    }
  }

  /** When a pairwise factor has `l1 * l2` entries, both hooks give it the loop `(l1, l2)`,
      so the left and right messages of one pairwise factor agree on its shape. */
  lemma HookDimensions(v1: nat, v2: nat, p: nat, l1: nat, l2: nat)
    requires l1 > 0 && l2 > 0
    ensures LeftUnaryPairwiseMessage(v1, l1, p, l1 * l2).pairwiseLoop == (l1, l2)
    ensures RightUnaryPairwiseMessage(v2, l2, p, l1 * l2).pairwiseLoop == (l1, l2)
  {
    ProductDiv(l1, l2);
    ProductDiv(l2, l1);
  }

  // ---------------------------------------------------------------------------
  // The flattening convention of pairwise costs: the first label runs fastest

  function FlatIndex(i1: nat, i2: nat, dim1: nat): nat
  {
    i1 + i2 * dim1
  }

  lemma FlatIndexBound(i1: nat, i2: nat, dim1: nat, dim2: nat)
    requires i1 < dim1 && i2 < dim2
    ensures FlatIndex(i1, i2, dim1) < dim1 * dim2
  {
    assert i2 * dim1 <= (dim2 - 1) * dim1;
    assert (dim2 - 1) * dim1 == dim2 * dim1 - dim1;
  }

  /** The flat index determines both labels again. */
  lemma FlatIndexSplit(i1: nat, i2: nat, dim1: nat)
    requires i1 < dim1
    ensures FlatIndex(i1, i2, dim1) % dim1 == i1 && FlatIndex(i1, i2, dim1) / dim1 == i2
  {
    var k := FlatIndex(i1, i2, dim1);
    var q, r := k / dim1, k % dim1;
    assert k == dim1 * q + r && 0 <= r < dim1;
    assert i2 * dim1 == dim1 * i2;
    if q > i2 {
      assert dim1 * (q - i2) == dim1 * q - dim1 * i2;
      MulAtLeast(dim1, q - i2);
    } else if q < i2 {
      assert dim1 * (i2 - q) == dim1 * i2 - dim1 * q;
      MulAtLeast(dim1, i2 - q);
    }
  }

  lemma {:induction false} MulAtLeast(d: nat, m: nat)
    requires m >= 1
    ensures d * m >= d
    decreases m
  {
    if m > 1 {
      MulAtLeast(d, m - 1);
      assert d * m == d * (m - 1) + d;
    }
  }

  // ---------------------------------------------------------------------------
  // Well-formedness of the builder's arrays and maps, on values

  predicate HasUnaryIn(unary: seq<Option<Cost>>, i: nat)
  {
    i < |unary| && unary[i].Some?
  }

  function LabelsIn(unary: seq<Option<Cost>>, i: nat): nat
    requires HasUnaryIn(unary, i)
  {
    |unary[i].value|
  }

  /** Pairwise factor `id` joins two present unaries `a < b`, has `labels(a) * labels(b)`
      entries, and its two messages are the ones the hooks built. */
  ghost predicate PairwiseWiredAt(unary: seq<Option<Cost>>, pf: seq<Cost>, pi: seq<(nat, nat)>,
                                  lm: seq<UnaryPairwiseMessage>, rm: seq<UnaryPairwiseMessage>, id: nat)
    requires id < |pi| == |pf| == |lm| == |rm|
  {
    var a, b := pi[id].0, pi[id].1;
    && a < b && HasUnaryIn(unary, a) && HasUnaryIn(unary, b)
    && LabelsIn(unary, a) > 0 && LabelsIn(unary, b) > 0
    && |pf[id]| == LabelsIn(unary, a) * LabelsIn(unary, b)
    && lm[id] == LeftUnaryPairwiseMessage(a, LabelsIn(unary, a), id, |pf[id]|)
    && rm[id] == RightUnaryPairwiseMessage(b, LabelsIn(unary, b), id, |pf[id]|)
  }

  /** The arrays of pairwise factors, their variable pairs and their two message lists are
      index-aligned, and `pmap` is exactly the inverse of the list of pairs. */
  ghost predicate PairwiseWell(unary: seq<Option<Cost>>, pf: seq<Cost>, pi: seq<(nat, nat)>,
                               lm: seq<UnaryPairwiseMessage>, rm: seq<UnaryPairwiseMessage>,
                               pmap: map<(nat, nat), nat>)
  {
    && |pi| == |pf| == |lm| == |rm|
    && (forall id :: 0 <= id < |pi| ==> pi[id] in pmap && pmap[pi[id]] == id)
    && (forall key :: key in pmap ==> pmap[key] < |pi| && pi[pmap[key]] == key)
    && (forall id :: 0 <= id < |pi| ==> PairwiseWiredAt(unary, pf, pi, lm, rm, id))
  }

  /** The message a pairwise-triplet link builds for pairwise factor `pid` and triplet `t`
      over the variables `key`. */
  function TripletMessageOf(unary: seq<Option<Cost>>, pf: seq<Cost>, edge: TripletEdge, pid: nat,
                            t: nat, key: (nat, nat, nat)): PairwiseTripletMessage
    requires pid < |pf| && HasUnaryIn(unary, key.0) && HasUnaryIn(unary, key.1) && HasUnaryIn(unary, key.2)
  {
    PairwiseTripletMessage(edge, pid, t, |pf[pid]|,
                           (LabelsIn(unary, key.0), LabelsIn(unary, key.1), LabelsIn(unary, key.2)), |pf[pid]|)
  }

  /** Triplet `t` joins three present unaries `a < b < c` whose three pairs are keyed
      pairwise factors, has the product of their label counts as size, and messages
      `3t`, `3t+1`, `3t+2` link it to the pairs `(a,b)`, `(a,c)`, `(b,c)`. */
  ghost predicate TripletWiredAt(unary: seq<Option<Cost>>, pf: seq<Cost>, pmap: map<(nat, nat), nat>,
                                 tf: seq<Cost>, ti: seq<(nat, nat, nat)>, tm: seq<PairwiseTripletMessage>, t: nat)
    requires t < |ti| == |tf| && |tm| == 3 * |ti|
  {
    var key := ti[t];
    && key.0 < key.1 < key.2
    && HasUnaryIn(unary, key.0) && HasUnaryIn(unary, key.1) && HasUnaryIn(unary, key.2)
    && |tf[t]| == LabelsIn(unary, key.0) * LabelsIn(unary, key.1) * LabelsIn(unary, key.2)
    && (key.0, key.1) in pmap && (key.0, key.2) in pmap && (key.1, key.2) in pmap
    && pmap[(key.0, key.1)] < |pf| && pmap[(key.0, key.2)] < |pf| && pmap[(key.1, key.2)] < |pf|
    && tm[3 * t] == TripletMessageOf(unary, pf, Edge12, pmap[(key.0, key.1)], t, key)
    && tm[3 * t + 1] == TripletMessageOf(unary, pf, Edge13, pmap[(key.0, key.2)], t, key)
    && tm[3 * t + 2] == TripletMessageOf(unary, pf, Edge23, pmap[(key.1, key.2)], t, key)
  }

  ghost predicate TripletWell(unary: seq<Option<Cost>>, pf: seq<Cost>, pmap: map<(nat, nat), nat>,
                              tf: seq<Cost>, ti: seq<(nat, nat, nat)>, tm: seq<PairwiseTripletMessage>,
                              tmap: map<(nat, nat, nat), nat>)
  {
    && |ti| == |tf| && |tm| == 3 * |ti|
    && (forall t :: 0 <= t < |ti| ==> ti[t] in tmap && tmap[ti[t]] == t)
    && (forall key :: key in tmap ==> tmap[key] < |ti| && ti[tmap[key]] == key)
    && (forall t :: 0 <= t < |ti| ==> TripletWiredAt(unary, pf, pmap, tf, ti, tm, t))
  }

  /** Every present unary stays present with the same number of labels. */
  ghost predicate LabelsKept(unary: seq<Option<Cost>>, unary': seq<Option<Cost>>)
  {
    && |unary| <= |unary'|
    && forall i :: 0 <= i < |unary| && unary[i].Some? ==> unary'[i].Some? && |unary'[i].value| == |unary[i].value|
  }

  lemma PairwiseWellLabelsKept(unary: seq<Option<Cost>>, unary': seq<Option<Cost>>, pf: seq<Cost>,
                               pi: seq<(nat, nat)>, lm: seq<UnaryPairwiseMessage>, rm: seq<UnaryPairwiseMessage>,
                               pmap: map<(nat, nat), nat>)
    requires PairwiseWell(unary, pf, pi, lm, rm, pmap) && LabelsKept(unary, unary')
    ensures PairwiseWell(unary', pf, pi, lm, rm, pmap)
  {
    forall id | 0 <= id < |pi| ensures PairwiseWiredAt(unary', pf, pi, lm, rm, id) {
      assert PairwiseWiredAt(unary, pf, pi, lm, rm, id);
    }
  }

  lemma TripletWellLabelsKept(unary: seq<Option<Cost>>, unary': seq<Option<Cost>>, pf: seq<Cost>,
                              pmap: map<(nat, nat), nat>, tf: seq<Cost>, ti: seq<(nat, nat, nat)>,
                              tm: seq<PairwiseTripletMessage>, tmap: map<(nat, nat, nat), nat>)
    requires TripletWell(unary, pf, pmap, tf, ti, tm, tmap) && LabelsKept(unary, unary')
    ensures TripletWell(unary', pf, pmap, tf, ti, tm, tmap)
  {
    forall t | 0 <= t < |ti| ensures TripletWiredAt(unary', pf, pmap, tf, ti, tm, t) {
      assert TripletWiredAt(unary, pf, pmap, tf, ti, tm, t);
      var key := ti[t];
      assert LabelsIn(unary', key.0) == LabelsIn(unary, key.0);
      assert LabelsIn(unary', key.1) == LabelsIn(unary, key.1);
      assert LabelsIn(unary', key.2) == LabelsIn(unary, key.2);
    }
  }

  /** Appending a pairwise factor under a fresh key, with its two hook messages, keeps the
      pairwise arrays aligned and the map their inverse. */
  lemma PairwiseWellAppend(unary: seq<Option<Cost>>, pf: seq<Cost>, pi: seq<(nat, nat)>,
                           lm: seq<UnaryPairwiseMessage>, rm: seq<UnaryPairwiseMessage>,
                           pmap: map<(nat, nat), nat>, v1: nat, v2: nat, cost: Cost)
    requires PairwiseWell(unary, pf, pi, lm, rm, pmap)
    requires v1 < v2 && HasUnaryIn(unary, v1) && HasUnaryIn(unary, v2)
    requires LabelsIn(unary, v1) > 0 && LabelsIn(unary, v2) > 0
    requires (v1, v2) !in pmap && |cost| == LabelsIn(unary, v1) * LabelsIn(unary, v2)
    ensures PairwiseWell(unary, pf + [cost], pi + [(v1, v2)],
                         lm + [LeftUnaryPairwiseMessage(v1, LabelsIn(unary, v1), |pi|, |cost|)],
                         rm + [RightUnaryPairwiseMessage(v2, LabelsIn(unary, v2), |pi|, |cost|)],
                         pmap[(v1, v2) := |pi|])
  {
    var id := |pi|;
    var pf', pi' := pf + [cost], pi + [(v1, v2)];
    var lm' := lm + [LeftUnaryPairwiseMessage(v1, LabelsIn(unary, v1), id, |cost|)];
    var rm' := rm + [RightUnaryPairwiseMessage(v2, LabelsIn(unary, v2), id, |cost|)];
    var pmap' := pmap[(v1, v2) := id];
    forall i | 0 <= i < |pi'| ensures pi'[i] in pmap' && pmap'[pi'[i]] == i {
      if i < id {
        assert pi'[i] == pi[i] && pi[i] in pmap;
      }
    }
    forall i | 0 <= i < |pi'| ensures PairwiseWiredAt(unary, pf', pi', lm', rm', i) {
      if i < id {
        assert PairwiseWiredAt(unary, pf, pi, lm, rm, i);
        assert pf'[i] == pf[i] && pi'[i] == pi[i] && lm'[i] == lm[i] && rm'[i] == rm[i];
      }
    }
  }

  /** Appending a pairwise factor under a fresh key leaves every triplet's wiring intact. */
  lemma TripletWellPairwiseAppend(unary: seq<Option<Cost>>, pf: seq<Cost>, pmap: map<(nat, nat), nat>,
                                  tf: seq<Cost>, ti: seq<(nat, nat, nat)>, tm: seq<PairwiseTripletMessage>,
                                  tmap: map<(nat, nat, nat), nat>, key: (nat, nat), cost: Cost)
    requires TripletWell(unary, pf, pmap, tf, ti, tm, tmap) && key !in pmap
    ensures TripletWell(unary, pf + [cost], pmap[key := |pf|], tf, ti, tm, tmap)
  {
    var pf', pmap' := pf + [cost], pmap[key := |pf|];
    forall t | 0 <= t < |ti| ensures TripletWiredAt(unary, pf', pmap', tf, ti, tm, t) {
      assert TripletWiredAt(unary, pf, pmap, tf, ti, tm, t);
      var k := ti[t];
      assert pmap'[(k.0, k.1)] == pmap[(k.0, k.1)] && pmap'[(k.0, k.2)] == pmap[(k.0, k.2)]
          && pmap'[(k.1, k.2)] == pmap[(k.1, k.2)];
      assert pf'[pmap[(k.0, k.1)]] == pf[pmap[(k.0, k.1)]];
      assert pf'[pmap[(k.0, k.2)]] == pf[pmap[(k.0, k.2)]];
      assert pf'[pmap[(k.1, k.2)]] == pf[pmap[(k.1, k.2)]];
    }
  }

  /** Appending a triplet under a fresh key, with its three link messages in the order
      (12, 13, 23), keeps the triplet arrays aligned and the map their inverse. */
  lemma TripletWellAppend(unary: seq<Option<Cost>>, pf: seq<Cost>, pmap: map<(nat, nat), nat>,
                          tf: seq<Cost>, ti: seq<(nat, nat, nat)>, tm: seq<PairwiseTripletMessage>,
                          tmap: map<(nat, nat, nat), nat>, key: (nat, nat, nat), cost: Cost)
    requires TripletWell(unary, pf, pmap, tf, ti, tm, tmap) && key !in tmap
    requires key.0 < key.1 < key.2
    requires HasUnaryIn(unary, key.0) && HasUnaryIn(unary, key.1) && HasUnaryIn(unary, key.2)
    requires |cost| == LabelsIn(unary, key.0) * LabelsIn(unary, key.1) * LabelsIn(unary, key.2)
    requires (key.0, key.1) in pmap && (key.0, key.2) in pmap && (key.1, key.2) in pmap
    requires pmap[(key.0, key.1)] < |pf| && pmap[(key.0, key.2)] < |pf| && pmap[(key.1, key.2)] < |pf|
    ensures TripletWell(unary, pf, pmap, tf + [cost], ti + [key],
                        tm + [TripletMessageOf(unary, pf, Edge12, pmap[(key.0, key.1)], |ti|, key),
                              TripletMessageOf(unary, pf, Edge13, pmap[(key.0, key.2)], |ti|, key),
                              TripletMessageOf(unary, pf, Edge23, pmap[(key.1, key.2)], |ti|, key)],
                        tmap[key := |ti|])
  {
    var t0 := |ti|;
    var tf', ti' := tf + [cost], ti + [key];
    var tm' := tm + [TripletMessageOf(unary, pf, Edge12, pmap[(key.0, key.1)], t0, key),
                     TripletMessageOf(unary, pf, Edge13, pmap[(key.0, key.2)], t0, key),
                     TripletMessageOf(unary, pf, Edge23, pmap[(key.1, key.2)], t0, key)];
    var tmap' := tmap[key := t0];
    forall t | 0 <= t < |ti'| ensures ti'[t] in tmap' && tmap'[ti'[t]] == t {
      if t < t0 {
        assert ti'[t] == ti[t] && ti[t] in tmap;
      }
    }
    forall t | 0 <= t < |ti'| ensures TripletWiredAt(unary, pf, pmap, tf', ti', tm', t) {
      if t < t0 {
        assert TripletWiredAt(unary, pf, pmap, tf, ti, tm, t);
        assert tf'[t] == tf[t] && ti'[t] == ti[t];
        assert tm'[3 * t] == tm[3 * t] && tm'[3 * t + 1] == tm[3 * t + 1] && tm'[3 * t + 2] == tm[3 * t + 2];
      }
    }
  }

  /** From `(pf0, pi0, pmap0)` to `(pf, pi, pmap)` only pairwise factors were appended:
      old entries and keys stay, and each new factor has a pair from `allowed` that was
      not keyed before and all-zero cost of the size its unaries give. */
  ghost predicate ZeroPairwiseGrowth(unary: seq<Option<Cost>>, pf0: seq<Cost>, pi0: seq<(nat, nat)>,
                                     pmap0: map<(nat, nat), nat>, pf: seq<Cost>, pi: seq<(nat, nat)>,
                                     pmap: map<(nat, nat), nat>, allowed: set<(nat, nat)>)
  {
    && |pf0| == |pi0| <= |pi| == |pf|
    && pf[..|pf0|] == pf0 && pi[..|pi0|] == pi0
    && (forall key :: key in pmap0 ==> key in pmap && pmap[key] == pmap0[key])
    && (forall id :: |pi0| <= id < |pi| ==>
          && pi[id] in allowed && pi[id] !in pmap0
          && HasUnaryIn(unary, pi[id].0) && HasUnaryIn(unary, pi[id].1)
          && pf[id] == Zeros(LabelsIn(unary, pi[id].0) * LabelsIn(unary, pi[id].1)))
  }

  /** Growing by nothing is zero-cost growth. */
  lemma ZeroPairwiseGrowthRefl(unary: seq<Option<Cost>>, pf: seq<Cost>, pi: seq<(nat, nat)>,
                               pmap: map<(nat, nat), nat>, allowed: set<(nat, nat)>)
    requires |pf| == |pi|
    ensures ZeroPairwiseGrowth(unary, pf, pi, pmap, pf, pi, pmap, allowed)
  {
    assert pf[..|pf|] == pf && pi[..|pi|] == pi;
  }

  lemma ZeroPairwiseGrowthTrans(unary: seq<Option<Cost>>, pf0: seq<Cost>, pi0: seq<(nat, nat)>, pmap0: map<(nat, nat), nat>,
                                pf1: seq<Cost>, pi1: seq<(nat, nat)>, pmap1: map<(nat, nat), nat>,
                                pf2: seq<Cost>, pi2: seq<(nat, nat)>, pmap2: map<(nat, nat), nat>,
                                a: set<(nat, nat)>, b: set<(nat, nat)>)
    requires ZeroPairwiseGrowth(unary, pf0, pi0, pmap0, pf1, pi1, pmap1, a)
    requires ZeroPairwiseGrowth(unary, pf1, pi1, pmap1, pf2, pi2, pmap2, b)
    ensures ZeroPairwiseGrowth(unary, pf0, pi0, pmap0, pf2, pi2, pmap2, a + b)
  {
    assert pf2[..|pf0|] == pf2[..|pf1|][..|pf0|];
    assert pi2[..|pi0|] == pi2[..|pi1|][..|pi0|];
    forall id | |pi0| <= id < |pi2|
      ensures && pi2[id] in a + b && pi2[id] !in pmap0
              && HasUnaryIn(unary, pi2[id].0) && HasUnaryIn(unary, pi2[id].1)
              && pf2[id] == Zeros(LabelsIn(unary, pi2[id].0) * LabelsIn(unary, pi2[id].1))
    {
      if id < |pi1| {
        assert pi2[id] == pi2[..|pi1|][id] == pi1[id];
        assert pf2[id] == pf2[..|pf1|][id] == pf1[id];
      }
    }
  }

  /** Three rounds of zero-cost growth, one pair each, make one over the three pairs. */
  lemma ZeroPairwiseGrowthThree(unary: seq<Option<Cost>>, pf0: seq<Cost>, pi0: seq<(nat, nat)>, pmap0: map<(nat, nat), nat>,
                                pf1: seq<Cost>, pi1: seq<(nat, nat)>, pmap1: map<(nat, nat), nat>,
                                pf2: seq<Cost>, pi2: seq<(nat, nat)>, pmap2: map<(nat, nat), nat>,
                                pf3: seq<Cost>, pi3: seq<(nat, nat)>, pmap3: map<(nat, nat), nat>,
                                k1: (nat, nat), k2: (nat, nat), k3: (nat, nat))
    requires ZeroPairwiseGrowth(unary, pf0, pi0, pmap0, pf1, pi1, pmap1, {k1})
    requires ZeroPairwiseGrowth(unary, pf1, pi1, pmap1, pf2, pi2, pmap2, {k2})
    requires ZeroPairwiseGrowth(unary, pf2, pi2, pmap2, pf3, pi3, pmap3, {k3})
    ensures ZeroPairwiseGrowth(unary, pf0, pi0, pmap0, pf3, pi3, pmap3, {k1, k2, k3})
  {
    ZeroPairwiseGrowthTrans(unary, pf0, pi0, pmap0, pf1, pi1, pmap1, pf2, pi2, pmap2, {k1}, {k2});
    ZeroPairwiseGrowthTrans(unary, pf0, pi0, pmap0, pf2, pi2, pmap2, pf3, pi3, pmap3, {k1} + {k2}, {k3});
    assert {k1} + {k2} + {k3} == {k1, k2, k3};
  }

  /** The relations `unary[i] -> unary[i+1]` that `Construct` logs for `n` unary factors. */
  function UnaryChain(n: nat): seq<LpEvent>
  {
    if n <= 1 then [] else UnaryChain(n - 1) + [AddFactorRelation(Unary(n - 2), Unary(n - 1))]
  }

  /** Exactly `n - 1` relations, the `i`-th from unary `i` to unary `i + 1`. */
  lemma {:induction false} UnaryChainShape(n: nat)
    ensures |UnaryChain(n)| == (if n <= 1 then 0 else n - 1)
    ensures forall i :: 0 <= i < |UnaryChain(n)| ==> UnaryChain(n)[i] == AddFactorRelation(Unary(i), Unary(i + 1))
  {
    if n > 1 {
      UnaryChainShape(n - 1);
    }
  }

  /** The events `AddPairwiseFactor` reports: both messages (from `LinkUnaryPairwiseFactor`),
      the factor, then the relations `unary(v1) -> p -> unary(v2)`. */
  function PairwiseEvents(v1: nat, id: nat, v2: nat): seq<LpEvent>
  {
    [AddMessage(LeftMessage(id)), AddMessage(RightMessage(id)), AddFactor(Pairwise(id)),
     AddFactorRelation(Unary(v1), Pairwise(id)), AddFactorRelation(Pairwise(id), Unary(v2))]
  }

  /** The events of adding, in order, each pair of `keys` that is not keyed in `pmap` yet,
      the new factors taking the ids `n`, `n + 1`, ... */
  function MissingPairEvents(pmap: map<(nat, nat), nat>, n: nat, keys: seq<(nat, nat)>): seq<LpEvent>
    decreases |keys|
  {
    if keys == [] then []
    else if keys[0] in pmap then MissingPairEvents(pmap, n, keys[1..])
    else PairwiseEvents(keys[0].0, n, keys[0].1) + MissingPairEvents(pmap[keys[0] := n], n + 1, keys[1..])
  }

  /** The pairwise map after `key` is added, with id `n`, unless it is keyed already. */
  function MapAfterPair(pmap: map<(nat, nat), nat>, n: nat, key: (nat, nat)): map<(nat, nat), nat>
  {
    if key in pmap then pmap else pmap[key := n]
  }

  /** The pairwise factor count after `key` is added unless it is keyed already. */
  function CountAfterPair(pmap: map<(nat, nat), nat>, n: nat, key: (nat, nat)): nat
  {
    if key in pmap then n else n + 1
  }

  /** The events of a list of pairs split after its first pair: those of the first pair,
      then those of the rest against the map and count that pair leaves behind. */
  lemma MissingPairEventsSplit(pmap: map<(nat, nat), nat>, n: nat, key: (nat, nat), rest: seq<(nat, nat)>)
    ensures MissingPairEvents(pmap, n, [key] + rest)
            == MissingPairEvents(pmap, n, [key]) + MissingPairEvents(MapAfterPair(pmap, n, key), CountAfterPair(pmap, n, key), rest)
  {
    assert ([key] + rest)[1..] == rest && [key][1..] == [];
  }

  /** The events of three pairs are those of each pair in turn, each against the map and
      count the pairs before it leave behind. */
  lemma MissingPairEventsThree(pmap0: map<(nat, nat), nat>, n0: nat, pmap1: map<(nat, nat), nat>, n1: nat,
                               pmap2: map<(nat, nat), nat>, n2: nat, k1: (nat, nat), k2: (nat, nat), k3: (nat, nat))
    requires pmap1 == MapAfterPair(pmap0, n0, k1) && n1 == CountAfterPair(pmap0, n0, k1)
    requires pmap2 == MapAfterPair(pmap1, n1, k2) && n2 == CountAfterPair(pmap1, n1, k2)
    ensures MissingPairEvents(pmap0, n0, [k1, k2, k3])
            == MissingPairEvents(pmap0, n0, [k1]) + MissingPairEvents(pmap1, n1, [k2]) + MissingPairEvents(pmap2, n2, [k3])
  {
    var rest := [k2, k3];
    assert [k1, k2, k3] == [k1] + rest;
    MissingPairEventsSplit(pmap0, n0, k1, rest);
    MissingPairEventsTwo(pmap1, n1, pmap2, n2, k2, k3);
  }

  lemma MissingPairEventsTwo(pmap1: map<(nat, nat), nat>, n1: nat, pmap2: map<(nat, nat), nat>, n2: nat,
                             k2: (nat, nat), k3: (nat, nat))
    requires pmap2 == MapAfterPair(pmap1, n1, k2) && n2 == CountAfterPair(pmap1, n1, k2)
    ensures MissingPairEvents(pmap1, n1, [k2, k3]) == MissingPairEvents(pmap1, n1, [k2]) + MissingPairEvents(pmap2, n2, [k3])
  {
    MissingPairEventsSplit(pmap1, n1, k2, [k3]);
    assert [k2] + [k3] == [k2, k3];
  }

  /** Three appends to a log make one append of the three parts. */
  lemma LogAppendThree(l0: seq<LpEvent>, l1: seq<LpEvent>, l2: seq<LpEvent>, l3: seq<LpEvent>,
                       e1: seq<LpEvent>, e2: seq<LpEvent>, e3: seq<LpEvent>)
    requires l1 == l0 + e1 && l2 == l1 + e2 && l3 == l2 + e3
    ensures l3 == l0 + (e1 + e2 + e3)
  {
  }

  /** The events `AddTripletFactor` reports: the three link messages, the factor, then the
      relations `p12 -> t`, `p13 -> t` and `t -> p23`. */
  function TripletEvents(p12: nat, p13: nat, p23: nat, t: nat): seq<LpEvent>
  {
    [AddMessage(TripletMessage(3 * t)), AddMessage(TripletMessage(3 * t + 1)), AddMessage(TripletMessage(3 * t + 2)),
     AddFactor(Triplet(t)),
     AddFactorRelation(Pairwise(p12), Triplet(t)), AddFactorRelation(Pairwise(p13), Triplet(t)),
     AddFactorRelation(Triplet(t), Pairwise(p23))]
  }

  /** `Tighten`'s bookkeeping over the counts its cycle search reports: the triplet search
      first, then the k-projection and the full-projection cycle searches, each only while
      the budget is not met. */
  function Tighten(noTripletsToAdd: nat, byTriplet: nat, byCycleK: nat, byCycleFull: nat): (added: nat)
    requires noTripletsToAdd > 0
    ensures added >= byTriplet
    ensures byTriplet >= noTripletsToAdd ==> added == byTriplet
    ensures byTriplet < noTripletsToAdd && byTriplet + byCycleK >= noTripletsToAdd ==> added == byTriplet + byCycleK
    ensures byTriplet + byCycleK < noTripletsToAdd ==> added == byTriplet + byCycleK + byCycleFull
    ensures (byTriplet <= noTripletsToAdd && byCycleK <= noTripletsToAdd - byTriplet
             && byCycleFull <= noTripletsToAdd - byTriplet - byCycleK) ==> added <= noTripletsToAdd
  {
    var afterTriplet := byTriplet;
    if afterTriplet < noTripletsToAdd then
      var afterCycleK := afterTriplet + byCycleK;
      if afterCycleK < noTripletsToAdd then afterCycleK + byCycleFull else afterCycleK
    else afterTriplet
  }

  // ---------------------------------------------------------------------------
  // The builder

  class MrfConstructor {
    var unaryFactor: seq<Option<Cost>>
    var pairwiseFactor: seq<Cost>
    var pairwiseIndices: seq<(nat, nat)>
    var leftMessage: seq<UnaryPairwiseMessage>
    var rightMessage: seq<UnaryPairwiseMessage>
    var pairwiseMap: map<(nat, nat), nat>
    var unaryFactorIndexBegin: nat
    var tripletFactor: seq<Cost>
    var tripletIndices: seq<(nat, nat, nat)>
    var tripletMessage: seq<PairwiseTripletMessage>
    var tripletMap: map<(nat, nat, nat), nat>
    var lp: seq<LpEvent>

    ghost predicate Valid()
      reads this
    {
      && PairwiseWell(unaryFactor, pairwiseFactor, pairwiseIndices, leftMessage, rightMessage, pairwiseMap)
      && TripletWell(unaryFactor, pairwiseFactor, pairwiseMap, tripletFactor, tripletIndices, tripletMessage, tripletMap)
    }

    /** A builder over an LP whose history so far is `log`. */
    constructor (log: seq<LpEvent>)
      ensures Valid() && lp == log
      ensures unaryFactor == [] && pairwiseFactor == [] && pairwiseIndices == [] && pairwiseMap == map[]
      ensures leftMessage == [] && rightMessage == []
      ensures tripletFactor == [] && tripletIndices == [] && tripletMessage == [] && tripletMap == map[]
    {
      unaryFactor, pairwiseFactor, pairwiseIndices := [], [], [];
      leftMessage, rightMessage, pairwiseMap := [], [], map[];
      unaryFactorIndexBegin := 0;
      tripletFactor, tripletIndices, tripletMessage, tripletMap := [], [], [], map[];
      lp := log;
    }

    predicate HasUnary(i: nat)
      reads this
    {
      HasUnaryIn(unaryFactor, i)
    }

    function Labels(i: nat): nat
      reads this
      requires HasUnary(i)
    {
      LabelsIn(unaryFactor, i)
    }

    /** `GetUnaryFactor`: the slot, empty where no unary factor was placed. */
    function GetUnaryFactor(i: nat): Option<Cost>
      reads this
      requires i < |unaryFactor|
    {
      unaryFactor[i]
    }

    function GetPairwiseFactor(id: nat): Cost
      reads this
      requires id < |pairwiseFactor|
    {
      pairwiseFactor[id]
    }

    /** `AddUnaryFactor(cost)`: appends a unary factor and returns its index. */
    method AppendUnaryFactor(cost: Cost) returns (index: nat)
      requires Valid()
      modifies this`unaryFactor, this`lp
      ensures Valid()
      ensures index == old(|unaryFactor|) && unaryFactor == old(unaryFactor) + [Some(cost)]
      ensures lp == old(lp) + [AddFactor(Unary(index))]
    {
      ghost var before := unaryFactor;
      unaryFactor := unaryFactor + [Some(cost)];
      PairwiseWellLabelsKept(before, unaryFactor, pairwiseFactor, pairwiseIndices, leftMessage, rightMessage, pairwiseMap);
      TripletWellLabelsKept(before, unaryFactor, pairwiseFactor, pairwiseMap, tripletFactor, tripletIndices, tripletMessage, tripletMap);
      lp := lp + [AddFactor(Unary(|unaryFactor| - 1))];
      index := |unaryFactor| - 1;
    }

    /** `RegisterUnaryFactor`: grows the slots to `node + 1` with empty padding and
        places `cost` at `node`; an occupied slot is the source's "already present"
        error, reported as `ok == false` with nothing changed. */
    method RegisterUnaryFactor(node: nat, cost: Cost) returns (ok: bool)
      requires Valid()
      modifies this`unaryFactor
      ensures Valid()
      ensures ok <==> !old(HasUnary(node))
      ensures !ok ==> unaryFactor == old(unaryFactor)
      ensures ok ==> |unaryFactor| == (if node < old(|unaryFactor|) then old(|unaryFactor|) else node + 1)
      ensures ok ==> unaryFactor[node] == Some(cost)
      ensures ok ==> forall i :: 0 <= i < |unaryFactor| && i != node ==>
                       unaryFactor[i] == if i < old(|unaryFactor|) then old(unaryFactor[i]) else None
    {
      ghost var before := unaryFactor;
      if node >= |unaryFactor| {
        unaryFactor := unaryFactor + seq(node + 1 - |unaryFactor|, _ => None);
      } else if unaryFactor[node] != None {
        return false;
      }
      unaryFactor := unaryFactor[node := Some(cost)];
      PairwiseWellLabelsKept(before, unaryFactor, pairwiseFactor, pairwiseIndices, leftMessage, rightMessage, pairwiseMap);
      TripletWellLabelsKept(before, unaryFactor, pairwiseFactor, pairwiseMap, tripletFactor, tripletIndices, tripletMessage, tripletMap);
      ok := true;
    }

    /** `AddUnaryFactor(node, cost)`: places the factor like `RegisterUnaryFactor` and
        reports it to the LP. */
    method AddUnaryFactor(node: nat, cost: Cost) returns (ok: bool)
      requires Valid()
      modifies this`unaryFactor, this`lp
      ensures Valid()
      ensures ok <==> !old(HasUnary(node))
      ensures !ok ==> unaryFactor == old(unaryFactor) && lp == old(lp)
      ensures ok ==> |unaryFactor| == (if node < old(|unaryFactor|) then old(|unaryFactor|) else node + 1)
      ensures ok ==> unaryFactor[node] == Some(cost)
      ensures ok ==> forall i :: 0 <= i < |unaryFactor| && i != node ==>
                       unaryFactor[i] == if i < old(|unaryFactor|) then old(unaryFactor[i]) else None
      ensures ok ==> lp == old(lp) + [AddFactor(Unary(node))]
    {
      ok := RegisterUnaryFactor(node, cost);
      if ok {
        lp := lp + [AddFactor(Unary(node))];
      }
    }

    /** `(*GetUnaryFactor(node))[x] = v`: overwrites one entry of a present unary factor. */
    method SetUnaryEntry(node: nat, x: nat, v: real)
      requires Valid() && HasUnary(node) && x < Labels(node)
      modifies this`unaryFactor
      ensures Valid()
      ensures unaryFactor == old(unaryFactor[node := Some(unaryFactor[node].value[x := v])])
    {
      ghost var before := unaryFactor;
      unaryFactor := unaryFactor[node := Some(unaryFactor[node].value[x := v])];
      PairwiseWellLabelsKept(before, unaryFactor, pairwiseFactor, pairwiseIndices, leftMessage, rightMessage, pairwiseMap);
      TripletWellLabelsKept(before, unaryFactor, pairwiseFactor, pairwiseMap, tripletFactor, tripletIndices, tripletMessage, tripletMap);
    }

    /** `HasPairwiseFactor`: some pairwise factor joins exactly `v1` and `v2`. */
    function HasPairwiseFactor(v1: nat, v2: nat): (r: bool)
      reads this
      requires Valid() && v1 < v2
      ensures r <==> exists id :: 0 <= id < |pairwiseIndices| && pairwiseIndices[id] == (v1, v2)
    {
      var present := (v1, v2) in pairwiseMap;
      assert present ==> pairwiseIndices[pairwiseMap[(v1, v2)]] == (v1, v2);
      present
    }

    /** `GetPairwiseFactorId`: the factor that joins `v1` and `v2`. */
    function GetPairwiseFactorId(v1: nat, v2: nat): (id: nat)
      reads this
      requires Valid() && v1 < v2 && (v1, v2) in pairwiseMap
      ensures id < |pairwiseIndices| && pairwiseIndices[id] == (v1, v2)
    {
      pairwiseMap[(v1, v2)]
    }

    /** `GetNumberOfVariables`: the number of unary slots, above every variable a pairwise
        or triplet factor references. */
    function GetNumberOfVariables(): (r: nat)
      reads this
      requires Valid()
      ensures forall id :: 0 <= id < |pairwiseIndices| ==> pairwiseIndices[id].0 < pairwiseIndices[id].1 < r
      ensures forall t :: 0 <= t < |tripletIndices| ==> tripletIndices[t].2 < r
    {
      VariablesInRange();
      |unaryFactor|
    }

    lemma VariablesInRange()
      requires Valid()
      ensures forall id :: 0 <= id < |pairwiseIndices| ==> pairwiseIndices[id].0 < pairwiseIndices[id].1 < |unaryFactor|
      ensures forall t :: 0 <= t < |tripletIndices| ==> tripletIndices[t].2 < |unaryFactor|
    {
      forall id | 0 <= id < |pairwiseIndices|
        ensures pairwiseIndices[id].0 < pairwiseIndices[id].1 < |unaryFactor|
      {
        assert PairwiseWiredAt(unaryFactor, pairwiseFactor, pairwiseIndices, leftMessage, rightMessage, id);
      }
      forall t | 0 <= t < |tripletIndices| ensures tripletIndices[t].2 < |unaryFactor| {
        assert TripletWiredAt(unaryFactor, pairwiseFactor, pairwiseMap, tripletFactor, tripletIndices, tripletMessage, t);
      }
    }

    /** `GetNumberOfLabels`: the size of the unary factor, which is the extent of every
        pairwise factor along that variable. */
    function GetNumberOfLabels(i: nat): (r: nat)
      reads this
      requires Valid() && HasUnary(i)
      ensures forall id :: 0 <= id < |pairwiseIndices| && pairwiseIndices[id].0 == i ==>
                r > 0 && HasUnary(pairwiseIndices[id].1) && |pairwiseFactor[id]| == r * Labels(pairwiseIndices[id].1)
      ensures forall id :: 0 <= id < |pairwiseIndices| && pairwiseIndices[id].1 == i ==>
                r > 0 && HasUnary(pairwiseIndices[id].0) && |pairwiseFactor[id]| == Labels(pairwiseIndices[id].0) * r
    {
      PairwiseShapes();
      Labels(i)
    }

    lemma PairwiseShapes()
      requires Valid()
      ensures forall id :: 0 <= id < |pairwiseIndices| ==>
                HasUnary(pairwiseIndices[id].0) && HasUnary(pairwiseIndices[id].1)
                && Labels(pairwiseIndices[id].0) > 0 && Labels(pairwiseIndices[id].1) > 0
                && |pairwiseFactor[id]| == Labels(pairwiseIndices[id].0) * Labels(pairwiseIndices[id].1)
    {
      forall id | 0 <= id < |pairwiseIndices|
        ensures HasUnary(pairwiseIndices[id].0) && HasUnary(pairwiseIndices[id].1)
                && Labels(pairwiseIndices[id].0) > 0 && Labels(pairwiseIndices[id].1) > 0
                && |pairwiseFactor[id]| == Labels(pairwiseIndices[id].0) * Labels(pairwiseIndices[id].1)
      {
        assert PairwiseWiredAt(unaryFactor, pairwiseFactor, pairwiseIndices, leftMessage, rightMessage, id);
      }
    }

    /** `GetPairwiseValue`: the entry of factor `id` at labels `(i1, i2)`, stored at the
        flat position whose remainder and quotient by `labels(v1)` are `i1` and `i2`. */
    function GetPairwiseValue(id: nat, i1: nat, i2: nat): (r: real)
      reads this
      requires Valid() && id < |pairwiseIndices|
      requires HasUnary(pairwiseIndices[id].0) && HasUnary(pairwiseIndices[id].1)
      requires i1 < Labels(pairwiseIndices[id].0) && i2 < Labels(pairwiseIndices[id].1)
      ensures exists k :: 0 <= k < |pairwiseFactor[id]| && k % Labels(pairwiseIndices[id].0) == i1
                          && k / Labels(pairwiseIndices[id].0) == i2 && r == pairwiseFactor[id][k]
    {
      var d1, d2 := Labels(pairwiseIndices[id].0), Labels(pairwiseIndices[id].1);
      PairwiseShapes();
      FlatIndexBound(i1, i2, d1, d2);
      FlatIndexSplit(i1, i2, d1);
      pairwiseFactor[id][FlatIndex(i1, i2, d1)]
    }

    /** `LinkUnaryPairwiseFactor`: builds both hook messages and reports them. */
    method LinkUnaryPairwiseFactor(left: nat, p: nat, right: nat)
      requires HasUnary(left) && HasUnary(right) && Labels(left) > 0 && Labels(right) > 0
      requires p < |pairwiseFactor|
      modifies this`leftMessage, this`rightMessage, this`lp
      ensures leftMessage == old(leftMessage) + [LeftUnaryPairwiseMessage(left, Labels(left), p, |pairwiseFactor[p]|)]
      ensures rightMessage == old(rightMessage) + [RightUnaryPairwiseMessage(right, Labels(right), p, |pairwiseFactor[p]|)]
      ensures lp == old(lp) + [AddMessage(LeftMessage(old(|leftMessage|))), AddMessage(RightMessage(old(|rightMessage|)))]
    {
      var l := LeftUnaryPairwiseMessage(left, Labels(left), p, |pairwiseFactor[p]|);
      leftMessage := leftMessage + [l];
      lp := lp + [AddMessage(LeftMessage(|leftMessage| - 1))];
      var r := RightUnaryPairwiseMessage(right, Labels(right), p, |pairwiseFactor[p]|);
      rightMessage := rightMessage + [r];
      lp := lp + [AddMessage(RightMessage(|rightMessage| - 1))];
    }

    /** `AddPairwiseFactor`: appends the factor and its pair, keys it, links both unaries
        and reports it with the relations `unary(v1) -> p -> unary(v2)`. */
    method AddPairwiseFactor(v1: nat, v2: nat, cost: Cost) returns (id: nat)
      requires Valid() && v1 < v2 && !HasPairwiseFactor(v1, v2)
      requires HasUnary(v1) && HasUnary(v2) && Labels(v1) > 0 && Labels(v2) > 0
      requires |cost| == Labels(v1) * Labels(v2)
      modifies this`pairwiseFactor, this`pairwiseIndices, this`pairwiseMap, this`leftMessage, this`rightMessage, this`lp
      ensures Valid()
      ensures id == old(|pairwiseFactor|)
      ensures HasPairwiseFactor(v1, v2) && GetPairwiseFactorId(v1, v2) == id
      ensures pairwiseFactor == old(pairwiseFactor) + [cost]
      ensures pairwiseIndices == old(pairwiseIndices) + [(v1, v2)]
      ensures pairwiseMap == old(pairwiseMap)[(v1, v2) := id]
      ensures leftMessage == old(leftMessage) + [LeftUnaryPairwiseMessage(v1, Labels(v1), id, |cost|)]
      ensures rightMessage == old(rightMessage) + [RightUnaryPairwiseMessage(v2, Labels(v2), id, |cost|)]
      ensures lp == old(lp) + PairwiseEvents(v1, id, v2)
    {
      PairwiseWellAppend(unaryFactor, pairwiseFactor, pairwiseIndices, leftMessage, rightMessage, pairwiseMap, v1, v2, cost);
      TripletWellPairwiseAppend(unaryFactor, pairwiseFactor, pairwiseMap, tripletFactor, tripletIndices, tripletMessage,
                                tripletMap, (v1, v2), cost);
      pairwiseFactor := pairwiseFactor + [cost];
      pairwiseIndices := pairwiseIndices + [(v1, v2)];
      id := |pairwiseFactor| - 1;
      pairwiseMap := pairwiseMap[(v1, v2) := id];
      LinkPairwiseFactor(v1, id, v2);
    }

    /** The second half of `AddPairwiseFactor`: both unary messages of the factor `p`, then
        the factor and its relations `unary(v1) -> p -> unary(v2)`. */
    method LinkPairwiseFactor(v1: nat, p: nat, v2: nat)
      requires HasUnary(v1) && HasUnary(v2) && Labels(v1) > 0 && Labels(v2) > 0
      requires p < |pairwiseFactor| && |leftMessage| == p && |rightMessage| == p
      modifies this`leftMessage, this`rightMessage, this`lp
      ensures leftMessage == old(leftMessage) + [LeftUnaryPairwiseMessage(v1, Labels(v1), p, |pairwiseFactor[p]|)]
      ensures rightMessage == old(rightMessage) + [RightUnaryPairwiseMessage(v2, Labels(v2), p, |pairwiseFactor[p]|)]
      ensures lp == old(lp) + PairwiseEvents(v1, p, v2)
    {
      LinkUnaryPairwiseFactor(v1, p, v2);
      lp := lp + [AddFactor(Pairwise(p)), AddFactorRelation(Unary(v1), Pairwise(p)),
                  AddFactorRelation(Pairwise(p), Unary(v2))];
    }

    /** `Construct`: records where the unary factors begin in the LP and orders the
        unaries by the relations `unary[i] -> unary[i+1]`. */
    method Construct()
      requires forall i :: 0 <= i < |unaryFactor| - 1 ==> unaryFactor[i].Some?
      modifies this`unaryFactorIndexBegin, this`lp
      ensures unaryFactorIndexBegin == FactorCount(old(lp))
      ensures lp == old(lp) + UnaryChain(|unaryFactor|)
      ensures |lp| == |old(lp)| + (if |unaryFactor| <= 1 then 0 else |unaryFactor| - 1)
      ensures forall i :: 0 <= i < |unaryFactor| - 1 ==> lp[|old(lp)| + i] == AddFactorRelation(Unary(i), Unary(i + 1))
    {
      unaryFactorIndexBegin := FactorCount(lp);
      LinkUnaryChain();
      UnaryChainShape(|unaryFactor|);
      forall i | 0 <= i < |unaryFactor| - 1 ensures lp[|old(lp)| + i] == AddFactorRelation(Unary(i), Unary(i + 1)) {
        assert lp[|old(lp)| + i] == UnaryChain(|unaryFactor|)[i];
      }
    }

    /** The loop of `Construct`: each unary factor related to the next. */
    method LinkUnaryChain()
      modifies this`lp
      ensures lp == old(lp) + UnaryChain(|unaryFactor|)
    {
      if |unaryFactor| > 1 {
        var i := 0;
        while i + 1 < |unaryFactor|
          invariant i + 1 <= |unaryFactor|
          invariant lp == old(lp) + UnaryChain(i + 1)
        {
          assert UnaryChain(i + 2) == UnaryChain(i + 1) + [AddFactorRelation(Unary(i), Unary(i + 1))];
          lp := lp + [AddFactorRelation(Unary(i), Unary(i + 1))];
          i := i + 1;
        }
      }
    }

    /** `LinkPairwiseTripletFactor`: builds the message of one pair of a triplet from the
        label counts of both, under the size checks the source asserts, and reports it. */
    method LinkPairwiseTripletFactor(edge: TripletEdge, pid: nat, t: nat)
      requires pid < |pairwiseIndices| == |pairwiseFactor| && t < |tripletIndices| == |tripletFactor|
      requires HasUnary(pairwiseIndices[pid].0) && HasUnary(pairwiseIndices[pid].1)
      requires HasUnary(tripletIndices[t].0) && HasUnary(tripletIndices[t].1) && HasUnary(tripletIndices[t].2)
      requires Labels(pairwiseIndices[pid].0) * Labels(pairwiseIndices[pid].1) == |pairwiseFactor[pid]|
      requires Labels(tripletIndices[t].0) * Labels(tripletIndices[t].1) * Labels(tripletIndices[t].2) == |tripletFactor[t]|
      modifies this`tripletMessage, this`lp
      ensures tripletMessage == old(tripletMessage) + [TripletMessageOf(unaryFactor, pairwiseFactor, edge, pid, t, tripletIndices[t])]
      ensures lp == old(lp) + [AddMessage(TripletMessage(old(|tripletMessage|)))]
    {
      var pairwiseDim1, pairwiseDim2 := Labels(pairwiseIndices[pid].0), Labels(pairwiseIndices[pid].1);
      var key := tripletIndices[t];
      var tripletDim := (Labels(key.0), Labels(key.1), Labels(key.2));
      var m := PairwiseTripletMessage(edge, pid, t, pairwiseDim1 * pairwiseDim2, tripletDim, |pairwiseFactor[pid]|);
      tripletMessage := tripletMessage + [m];
      lp := lp + [AddMessage(TripletMessage(|tripletMessage| - 1))];
    }

    /** `AddTripletFactor`: appends the triplet and its variables, keys it, links it to its
        three pairwise factors and reports it with the relations `p12 -> t`, `p13 -> t`,
        `t -> p23`. The bound `var3 < GetNumberOfVariables()` the source asserts follows from
        `HasUnary(v3)`. */
    method AddTripletFactor(v1: nat, v2: nat, v3: nat, cost: Cost) returns (t: nat)
      requires Valid() && v1 < v2 < v3
      requires (v1, v2, v3) !in tripletMap
      requires (v1, v2) in pairwiseMap && (v1, v3) in pairwiseMap && (v2, v3) in pairwiseMap
      requires HasUnary(v1) && HasUnary(v2) && HasUnary(v3)
      requires |cost| == Labels(v1) * Labels(v2) * Labels(v3)
      modifies this`tripletFactor, this`tripletIndices, this`tripletMap, this`tripletMessage, this`lp
      ensures Valid()
      ensures t == old(|tripletFactor|)
      ensures tripletFactor == old(tripletFactor) + [cost]
      ensures tripletIndices == old(tripletIndices) + [(v1, v2, v3)]
      ensures tripletMap == old(tripletMap)[(v1, v2, v3) := t]
      ensures tripletMessage == old(tripletMessage) + [
                TripletMessageOf(unaryFactor, pairwiseFactor, Edge12, pairwiseMap[(v1, v2)], t, (v1, v2, v3)),
                TripletMessageOf(unaryFactor, pairwiseFactor, Edge13, pairwiseMap[(v1, v3)], t, (v1, v2, v3)),
                TripletMessageOf(unaryFactor, pairwiseFactor, Edge23, pairwiseMap[(v2, v3)], t, (v1, v2, v3))]
      ensures lp == old(lp) + TripletEvents(pairwiseMap[(v1, v2)], pairwiseMap[(v1, v3)], pairwiseMap[(v2, v3)], t)
    {
      var key := (v1, v2, v3);
      var factor12Id, factor13Id, factor23Id := pairwiseMap[(v1, v2)], pairwiseMap[(v1, v3)], pairwiseMap[(v2, v3)];
      PairwiseShapeAt(factor12Id);
      PairwiseShapeAt(factor13Id);
      PairwiseShapeAt(factor23Id);
      TripletWellAppend(unaryFactor, pairwiseFactor, pairwiseMap, tripletFactor, tripletIndices, tripletMessage,
                        tripletMap, key, cost);
      tripletFactor := tripletFactor + [cost];
      tripletIndices := tripletIndices + [key];
      t := |tripletFactor| - 1;
      tripletMap := tripletMap[key := t];
      LinkTripletFactor(t, factor12Id, factor13Id, factor23Id);
    }

    /** The second half of `AddTripletFactor`: the messages of the triplet `t` for the edges
        12, 13 and 23, then the factor and its three relations. */
    method LinkTripletFactor(t: nat, factor12Id: nat, factor13Id: nat, factor23Id: nat)
      requires t < |tripletIndices| == |tripletFactor| && |tripletMessage| == 3 * t
      requires HasUnary(tripletIndices[t].0) && HasUnary(tripletIndices[t].1) && HasUnary(tripletIndices[t].2)
      requires Labels(tripletIndices[t].0) * Labels(tripletIndices[t].1) * Labels(tripletIndices[t].2) == |tripletFactor[t]|
      requires factor12Id < |pairwiseIndices| == |pairwiseFactor|
      requires factor13Id < |pairwiseIndices| && factor23Id < |pairwiseIndices|
      requires HasUnary(pairwiseIndices[factor12Id].0) && HasUnary(pairwiseIndices[factor12Id].1)
      requires HasUnary(pairwiseIndices[factor13Id].0) && HasUnary(pairwiseIndices[factor13Id].1)
      requires HasUnary(pairwiseIndices[factor23Id].0) && HasUnary(pairwiseIndices[factor23Id].1)
      requires Labels(pairwiseIndices[factor12Id].0) * Labels(pairwiseIndices[factor12Id].1) == |pairwiseFactor[factor12Id]|
      requires Labels(pairwiseIndices[factor13Id].0) * Labels(pairwiseIndices[factor13Id].1) == |pairwiseFactor[factor13Id]|
      requires Labels(pairwiseIndices[factor23Id].0) * Labels(pairwiseIndices[factor23Id].1) == |pairwiseFactor[factor23Id]|
      modifies this`tripletMessage, this`lp
      ensures tripletMessage == old(tripletMessage) + [
                TripletMessageOf(unaryFactor, pairwiseFactor, Edge12, factor12Id, t, tripletIndices[t]),
                TripletMessageOf(unaryFactor, pairwiseFactor, Edge13, factor13Id, t, tripletIndices[t]),
                TripletMessageOf(unaryFactor, pairwiseFactor, Edge23, factor23Id, t, tripletIndices[t])]
      ensures lp == old(lp) + TripletEvents(factor12Id, factor13Id, factor23Id, t)
    {
      LinkPairwiseTripletFactor(Edge12, factor12Id, t);
      LinkPairwiseTripletFactor(Edge13, factor13Id, t);
      LinkPairwiseTripletFactor(Edge23, factor23Id, t);
      lp := lp + [AddFactor(Triplet(t)), AddFactorRelation(Pairwise(factor12Id), Triplet(t)),
                  AddFactorRelation(Pairwise(factor13Id), Triplet(t)), AddFactorRelation(Triplet(t), Pairwise(factor23Id))];
    }

    lemma PairwiseShapeAt(id: nat)
      requires Valid() && id < |pairwiseIndices|
      ensures id < |pairwiseFactor| && pairwiseMap[pairwiseIndices[id]] == id
      ensures HasUnary(pairwiseIndices[id].0) && HasUnary(pairwiseIndices[id].1)
      ensures Labels(pairwiseIndices[id].0) * Labels(pairwiseIndices[id].1) == |pairwiseFactor[id]|
    {
      assert PairwiseWiredAt(unaryFactor, pairwiseFactor, pairwiseIndices, leftMessage, rightMessage, id);
    }

    /** `AddEmptyPairwiseFactor`: a pairwise factor of zeros of the right size. */
    method AddEmptyPairwiseFactor(v1: nat, v2: nat) returns (id: nat)
      requires Valid() && v1 < v2 && (v1, v2) !in pairwiseMap
      requires HasUnary(v1) && HasUnary(v2) && Labels(v1) > 0 && Labels(v2) > 0
      modifies this`pairwiseFactor, this`pairwiseIndices, this`pairwiseMap, this`leftMessage, this`rightMessage, this`lp
      ensures Valid()
      ensures id == old(|pairwiseFactor|)
      ensures pairwiseFactor == old(pairwiseFactor) + [Zeros(Labels(v1) * Labels(v2))]
      ensures pairwiseIndices == old(pairwiseIndices) + [(v1, v2)]
      ensures pairwiseMap == old(pairwiseMap)[(v1, v2) := id]
      ensures leftMessage == old(leftMessage) + [LeftUnaryPairwiseMessage(v1, Labels(v1), id, Labels(v1) * Labels(v2))]
      ensures rightMessage == old(rightMessage) + [RightUnaryPairwiseMessage(v2, Labels(v2), id, Labels(v1) * Labels(v2))]
      ensures lp == old(lp) + PairwiseEvents(v1, id, v2)
    {
      var dim := Labels(v1) * Labels(v2);
      id := AddPairwiseFactor(v1, v2, Zeros(dim));
    }

    /** Part of `AddTighteningTriplet`: adds the pairwise factor `(v1, v2)` with zero cost
        when it is missing. */
    method EnsurePairwiseFactor(v1: nat, v2: nat)
      requires Valid() && v1 < v2
      requires HasUnary(v1) && HasUnary(v2) && Labels(v1) > 0 && Labels(v2) > 0
      modifies this`pairwiseFactor, this`pairwiseIndices, this`pairwiseMap, this`leftMessage, this`rightMessage, this`lp
      ensures Valid() && (v1, v2) in pairwiseMap
      ensures (v1, v2) in old(pairwiseMap) ==>
                pairwiseFactor == old(pairwiseFactor) && pairwiseIndices == old(pairwiseIndices)
                && pairwiseMap == old(pairwiseMap) && leftMessage == old(leftMessage)
                && rightMessage == old(rightMessage) && lp == old(lp)
      ensures (v1, v2) !in old(pairwiseMap) ==>
                && pairwiseFactor == old(pairwiseFactor) + [Zeros(Labels(v1) * Labels(v2))]
                && pairwiseIndices == old(pairwiseIndices) + [(v1, v2)]
                && pairwiseMap == old(pairwiseMap)[(v1, v2) := old(|pairwiseFactor|)]
                && leftMessage == old(leftMessage) + [LeftUnaryPairwiseMessage(v1, Labels(v1), old(|pairwiseFactor|), Labels(v1) * Labels(v2))]
                && rightMessage == old(rightMessage) + [RightUnaryPairwiseMessage(v2, Labels(v2), old(|pairwiseFactor|), Labels(v1) * Labels(v2))]
      ensures pairwiseMap == MapAfterPair(old(pairwiseMap), old(|pairwiseFactor|), (v1, v2))
      ensures |pairwiseFactor| == CountAfterPair(old(pairwiseMap), old(|pairwiseFactor|), (v1, v2))
      ensures lp == old(lp) + MissingPairEvents(old(pairwiseMap), old(|pairwiseFactor|), [(v1, v2)])
      ensures ZeroPairwiseGrowth(unaryFactor, old(pairwiseFactor), old(pairwiseIndices), old(pairwiseMap),
                                 pairwiseFactor, pairwiseIndices, pairwiseMap, {(v1, v2)})
    {
      assert [(v1, v2)][1..] == [];
      if (v1, v2) !in pairwiseMap {
        ghost var pf0, pi0 := pairwiseFactor, pairwiseIndices;
        var id := AddEmptyPairwiseFactor(v1, v2);
        assert pairwiseFactor[..|pf0|] == pf0 && pairwiseIndices[..|pi0|] == pi0;
      } else {
        assert pairwiseFactor[..|pairwiseFactor|] == pairwiseFactor;
        assert pairwiseIndices[..|pairwiseIndices|] == pairwiseIndices;
      }
    }

    /** Part of `AddTighteningTriplet`: adds whichever of the pairs `(v1, v2)`, `(v1, v3)`,
        `(v2, v3)` is missing, in that order, with zero cost. */
    method EnsureTripletPairs(v1: nat, v2: nat, v3: nat)
      requires Valid() && v1 < v2 < v3
      requires HasUnary(v1) && HasUnary(v2) && HasUnary(v3)
      requires Labels(v1) > 0 && Labels(v2) > 0 && Labels(v3) > 0
      modifies this`pairwiseFactor, this`pairwiseIndices, this`pairwiseMap, this`leftMessage, this`rightMessage, this`lp
      ensures Valid()
      ensures (v1, v2) in pairwiseMap && (v1, v3) in pairwiseMap && (v2, v3) in pairwiseMap
      ensures lp == old(lp) + MissingPairEvents(old(pairwiseMap), old(|pairwiseFactor|), [(v1, v2), (v1, v3), (v2, v3)])
      ensures ZeroPairwiseGrowth(unaryFactor, old(pairwiseFactor), old(pairwiseIndices), old(pairwiseMap),
                                 pairwiseFactor, pairwiseIndices, pairwiseMap, {(v1, v2), (v1, v3), (v2, v3)})
    {
      ghost var lp0, pf0, pi0, pmap0 := lp, pairwiseFactor, pairwiseIndices, pairwiseMap;
      EnsurePairwiseFactor(v1, v2);
      ghost var lp1, pf1, pi1, pmap1 := lp, pairwiseFactor, pairwiseIndices, pairwiseMap;
      EnsurePairwiseFactor(v1, v3);
      ghost var lp2, pf2, pi2, pmap2 := lp, pairwiseFactor, pairwiseIndices, pairwiseMap;
      EnsurePairwiseFactor(v2, v3);
      MissingPairEventsThree(pmap0, |pf0|, pmap1, |pf1|, pmap2, |pf2|, (v1, v2), (v1, v3), (v2, v3));
      LogAppendThree(lp0, lp1, lp2, lp, MissingPairEvents(pmap0, |pf0|, [(v1, v2)]),
                     MissingPairEvents(pmap1, |pf1|, [(v1, v3)]), MissingPairEvents(pmap2, |pf2|, [(v2, v3)]));
      ZeroPairwiseGrowthThree(unaryFactor, pf0, pi0, pmap0, pf1, pi1, pmap1, pf2, pi2, pmap2,
                              pairwiseFactor, pairwiseIndices, pairwiseMap, (v1, v2), (v1, v3), (v2, v3));
    }

    /** `AddTighteningTriplet`: an upsert. A present triplet changes nothing and gives
        false; otherwise its missing pairwise factors are added with zero cost, then a
        zero-cost triplet, and the result is true. */
    method AddTighteningTriplet(v1: nat, v2: nat, v3: nat) returns (added: bool)
      requires Valid() && v1 < v2 < v3 < GetNumberOfVariables()
      requires HasUnary(v1) && HasUnary(v2) && HasUnary(v3)
      requires Labels(v1) > 0 && Labels(v2) > 0 && Labels(v3) > 0
      modifies this`pairwiseFactor, this`pairwiseIndices, this`pairwiseMap, this`leftMessage, this`rightMessage,
               this`tripletFactor, this`tripletIndices, this`tripletMap, this`tripletMessage, this`lp
      ensures Valid()
      ensures added <==> (v1, v2, v3) !in old(tripletMap)
      ensures !added ==>
                pairwiseFactor == old(pairwiseFactor) && pairwiseIndices == old(pairwiseIndices)
                && pairwiseMap == old(pairwiseMap) && leftMessage == old(leftMessage)
                && rightMessage == old(rightMessage) && tripletFactor == old(tripletFactor)
                && tripletIndices == old(tripletIndices) && tripletMap == old(tripletMap)
                && tripletMessage == old(tripletMessage) && lp == old(lp)
      ensures added ==>
                && (v1, v2) in pairwiseMap && (v1, v3) in pairwiseMap && (v2, v3) in pairwiseMap
                && tripletFactor == old(tripletFactor) + [Zeros(Labels(v1) * Labels(v2) * Labels(v3))]
                && tripletIndices == old(tripletIndices) + [(v1, v2, v3)]
                && tripletMap == old(tripletMap)[(v1, v2, v3) := old(|tripletFactor|)]
                && lp == old(lp) + MissingPairEvents(old(pairwiseMap), old(|pairwiseFactor|), [(v1, v2), (v1, v3), (v2, v3)])
                         + TripletEvents(pairwiseMap[(v1, v2)], pairwiseMap[(v1, v3)], pairwiseMap[(v2, v3)],
                                         old(|tripletFactor|))
      ensures ZeroPairwiseGrowth(unaryFactor, old(pairwiseFactor), old(pairwiseIndices), old(pairwiseMap),
                                 pairwiseFactor, pairwiseIndices, pairwiseMap, {(v1, v2), (v1, v3), (v2, v3)})
    {
      if (v1, v2, v3) in tripletMap {
        ZeroPairwiseGrowthRefl(unaryFactor, pairwiseFactor, pairwiseIndices, pairwiseMap, {(v1, v2), (v1, v3), (v2, v3)});
        return false;
      }
      InsertTighteningTriplet(v1, v2, v3);
      added := true;
    }

    /** The insertion branch of `AddTighteningTriplet`. */
    method InsertTighteningTriplet(v1: nat, v2: nat, v3: nat)
      requires Valid() && v1 < v2 < v3 && (v1, v2, v3) !in tripletMap
      requires HasUnary(v1) && HasUnary(v2) && HasUnary(v3)
      requires Labels(v1) > 0 && Labels(v2) > 0 && Labels(v3) > 0
      modifies this`pairwiseFactor, this`pairwiseIndices, this`pairwiseMap, this`leftMessage, this`rightMessage,
               this`tripletFactor, this`tripletIndices, this`tripletMap, this`tripletMessage, this`lp
      ensures Valid()
      ensures (v1, v2) in pairwiseMap && (v1, v3) in pairwiseMap && (v2, v3) in pairwiseMap
      ensures tripletFactor == old(tripletFactor) + [Zeros(Labels(v1) * Labels(v2) * Labels(v3))]
      ensures tripletIndices == old(tripletIndices) + [(v1, v2, v3)]
      ensures tripletMap == old(tripletMap)[(v1, v2, v3) := old(|tripletFactor|)]
      ensures lp == old(lp) + MissingPairEvents(old(pairwiseMap), old(|pairwiseFactor|), [(v1, v2), (v1, v3), (v2, v3)])
                    + TripletEvents(pairwiseMap[(v1, v2)], pairwiseMap[(v1, v3)], pairwiseMap[(v2, v3)],
                                    old(|tripletFactor|))
      ensures ZeroPairwiseGrowth(unaryFactor, old(pairwiseFactor), old(pairwiseIndices), old(pairwiseMap),
                                 pairwiseFactor, pairwiseIndices, pairwiseMap, {(v1, v2), (v1, v3), (v2, v3)})
    {
      EnsureTripletPairs(v1, v2, v3);
      AddZeroTriplet(v1, v2, v3);
    }

    /** The zero-cost triplet `AddTighteningTriplet` adds once its pairs are present. */
    method AddZeroTriplet(v1: nat, v2: nat, v3: nat)
      requires Valid() && v1 < v2 < v3 && (v1, v2, v3) !in tripletMap
      requires (v1, v2) in pairwiseMap && (v1, v3) in pairwiseMap && (v2, v3) in pairwiseMap
      requires HasUnary(v1) && HasUnary(v2) && HasUnary(v3)
      modifies this`tripletFactor, this`tripletIndices, this`tripletMap, this`tripletMessage, this`lp
      ensures Valid()
      ensures tripletFactor == old(tripletFactor) + [Zeros(Labels(v1) * Labels(v2) * Labels(v3))]
      ensures tripletIndices == old(tripletIndices) + [(v1, v2, v3)]
      ensures tripletMap == old(tripletMap)[(v1, v2, v3) := old(|tripletFactor|)]
      ensures lp == old(lp) + TripletEvents(pairwiseMap[(v1, v2)], pairwiseMap[(v1, v3)], pairwiseMap[(v2, v3)],
                                            old(|tripletFactor|))
    {
      var tripletSize := Labels(v1) * Labels(v2) * Labels(v3);
      var _ := AddTripletFactor(v1, v2, v3, Zeros(tripletSize));
    }

    /** Two `AddTighteningTriplet` calls on the same variables add exactly one triplet
        when it was missing and none when it was present; the second call reports false. */
    method AddTighteningTripletTwice(v1: nat, v2: nat, v3: nat) returns (first: bool, second: bool)
      requires Valid() && v1 < v2 < v3 < GetNumberOfVariables()
      requires HasUnary(v1) && HasUnary(v2) && HasUnary(v3)
      requires Labels(v1) > 0 && Labels(v2) > 0 && Labels(v3) > 0
      modifies this`pairwiseFactor, this`pairwiseIndices, this`pairwiseMap, this`leftMessage, this`rightMessage,
               this`tripletFactor, this`tripletIndices, this`tripletMap, this`tripletMessage, this`lp
      ensures Valid() && !second
      ensures first <==> (v1, v2, v3) !in old(tripletMap)
      ensures |tripletFactor| == old(|tripletFactor|) + (if first then 1 else 0)
    {
      first := AddTighteningTriplet(v1, v2, v3);
      second := AddTighteningTriplet(v1, v2, v3);
    }
  }
}
