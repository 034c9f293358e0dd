/**
  The equality message of LP_MP: one hard constraint saying that slot
  `leftVar` of a left potential and slot `rightVar` of a right potential
  take the same label. Potentials are sequences of reals; the message value
  the source keeps in a one-entry vector is an `array<real>` of length one.
 */
module EqualityMessages {
  import opened Wrappers

  /** Which endpoint of the message is the source of primal propagation. */
  datatype Chirality = Left | Right

  /** Which slot of each message a batched update reads: `SendMessagesToLeft`
      looks at `rightVar`, `SendMessagesToRight` at `leftVar`. */
  datatype Side = LeftSlot | RightSlot

  function RMin(a: real, b: real): real { if a <= b then a else b }

  /** Minimum of a non-empty sequence, folded from the front like the scans. */
  function Min(s: seq<real>): (r: real)
    requires |s| > 0
    ensures forall i :: 0 <= i < |s| ==> r <= s[i]
  {
    if |s| == 1 then s[0]
    else
      var p := s[..|s| - 1];
      assert forall i :: 0 <= i < |p| ==> p[i] == s[i];
      RMin(Min(p), s[|s| - 1])
  }

  /** The minimum is one of the entries. */
  lemma MinAttained(s: seq<real>)
    requires |s| > 0
    ensures exists i :: 0 <= i < |s| && Min(s) == s[i]
  {
    var k := ArgMin(s);
    assert Min(s) == s[k];
  }

  /** The minimum over every entry except the one at `k`. */
  function MinExcept(s: seq<real>, k: nat): real
    requires |s| >= 2 && k < |s|
  {
    Min(s[..k] + s[k + 1..])
  }

  /** The last position holding the minimum, the one the min/second-min scan settles on. */
  function ArgMin(s: seq<real>): (k: nat)
    requires |s| > 0
    ensures k < |s| && s[k] == Min(s)
    ensures forall j :: k < j < |s| ==> s[j] > Min(s)
  {
    if |s| == 1 then 0
    else if s[|s| - 1] <= Min(s[..|s| - 1]) then |s| - 1
    else ArgMin(s[..|s| - 1])
  }

  /** The second-smallest value counted with multiplicity. */
  function SecondMin(s: seq<real>): real
    requires |s| >= 2
  {
    MinExcept(s, ArgMin(s))
  }

  /** The pair that `SmallestValues<REAL>(repam)` stands for in the source's assertion. */
  function SmallestValues(s: seq<real>): (real, real)
    requires |s| >= 2
  {
    (Min(s), SecondMin(s))
  }

  lemma {:induction false} MinExceptIsMinOfOthers(s: seq<real>, k: nat)
    requires |s| >= 2 && k < |s|
    ensures exists j :: 0 <= j < |s| && j != k && MinExcept(s, k) == s[j]
    ensures forall j :: 0 <= j < |s| && j != k ==> MinExcept(s, k) <= s[j]
  {
    var t := s[..k] + s[k + 1..];
    assert forall j :: 0 <= j < |s| && j != k ==> s[j] == t[if j < k then j else j - 1];
    MinAttained(t);
    var i :| 0 <= i < |t| && Min(t) == t[i];
    var j := if i < k then i else i + 1;
    assert s[j] == t[i];
  }

  /** A value attained at some position other than `k` and below all of them is `MinExcept(s, k)`. */
  lemma MinOfOthersUnique(s: seq<real>, k: nat, v: real)
    requires |s| >= 2 && k < |s|
    requires exists j :: 0 <= j < |s| && j != k && v == s[j]
    requires forall j :: 0 <= j < |s| && j != k ==> v <= s[j]
    ensures v == MinExcept(s, k)
  {
    MinExceptIsMinOfOthers(s, k);
  }

  /** The second minimum does not depend on which minimising position is removed. */
  lemma MinExceptAtAnyMinimiser(s: seq<real>, k: nat)
    requires |s| >= 2 && k < |s| && s[k] == Min(s)
    ensures MinExcept(s, k) == SecondMin(s)
  {
    var a := ArgMin(s);
    MinExceptIsMinOfOthers(s, k);
    MinExceptIsMinOfOthers(s, a);
    if k != a {
      assert MinExcept(s, k) <= s[a] == Min(s);
      assert MinExcept(s, a) <= s[k] == Min(s);
    }
  }

  /** `min_val <= second_min_val`, and the two coincide exactly when the minimum is attained twice. */
  lemma SecondMinTies(s: seq<real>)
    requires |s| >= 2
    ensures Min(s) <= SecondMin(s)
    ensures SecondMin(s) == Min(s) <==>
              exists i, j :: 0 <= i < j < |s| && s[i] == Min(s) && s[j] == Min(s)
  {
    MinExceptIsMinOfOthers(s, ArgMin(s));
    if SecondMin(s) == Min(s) {
      SecondMinTieAt(s);
    }
    if exists i, j :: 0 <= i < j < |s| && s[i] == Min(s) && s[j] == Min(s) {
      var i, j :| 0 <= i < j < |s| && s[i] == Min(s) && s[j] == Min(s);
      TieGivesSecondMin(s, i, j);
    }
  }

  /** A second minimum equal to the minimum sits before the last minimising position. */
  lemma SecondMinTieAt(s: seq<real>)
    requires |s| >= 2 && SecondMin(s) == Min(s)
    ensures exists i :: 0 <= i < ArgMin(s) && s[i] == Min(s)
  {
    var a := ArgMin(s);
    MinExceptIsMinOfOthers(s, a);
    var j :| 0 <= j < |s| && j != a && SecondMin(s) == s[j];
    assert j < a;
  }

  /** Two minimising positions make the second minimum the minimum. */
  lemma TieGivesSecondMin(s: seq<real>, i: nat, j: nat)
    requires i < j < |s| && s[i] == Min(s) && s[j] == Min(s)
    ensures SecondMin(s) == Min(s)
  {
    var a := ArgMin(s);
    MinExceptIsMinOfOthers(s, a);
    var other := if i != a then i else j;
    assert SecondMin(s) <= s[other];
  }

  lemma MinAppend(p: seq<real>, x: real)
    requires |p| > 0
    ensures Min(p + [x]) == RMin(Min(p), x)
  {
    assert (p + [x])[..|p|] == p;
  }

  lemma MinExceptAppend(p: seq<real>, x: real, k: nat)
    requires |p| >= 2 && k < |p|
    ensures MinExcept(p + [x], k) == RMin(MinExcept(p, k), x)
  {
    var q := p + [x];
    assert q[..k] + q[k + 1..] == (p[..k] + p[k + 1..]) + [x];
    MinAppend(p[..k] + p[k + 1..], x);
  }

  lemma MinExceptLast(p: seq<real>, x: real)
    requires |p| >= 1
    ensures |p| + 1 >= 2 && MinExcept(p + [x], |p|) == Min(p)
  {
    var q := p + [x];
    assert q[..|p|] + q[|p| + 1..] == p;
  }

  /** Sum of the weights, as `std::accumulate` from 0.0. */
  function Sum(xs: seq<real>): real
  {
    if xs == [] then 0.0 else Sum(xs[..|xs| - 1]) + xs[|xs| - 1]
  }

  /** The damped total weight of a batched update. */
  function OmegaSum(omegas: seq<real>): real
  {
    0.5 * Sum(omegas)
  }

  /** Adds a message value into one slot of a potential; every other slot keeps its value. */
  function AddAtSlot(pot: seq<real>, k: nat, msg: real): (r: seq<real>)
    requires k < |pot|
    ensures |r| == |pot| && r[k] == pot[k] + msg
    ensures forall i :: 0 <= i < |pot| && i != k ==> r[i] == pot[i]
  {
    pot[k := pot[k] + msg]
  }

  /** `msg -= w * (x - target)`: the step every make-uniform update takes. */
  function Step(msg: real, w: real, x: real, target: real): real
  {
    msg - w * (x - target)
  }

  /** The message after one make-uniform update with weight `omega` against slot `k`. */
  function SingleUpdate(msg: real, pot: seq<real>, k: nat, omega: real): real
    requires |pot| >= 2 && k < |pot|
  {
    Step(msg, omega, pot[k], MinExcept(pot, k))
  }

  /** The potential values at the slots the messages reference, in message order. */
  function CoveredValues(repam: seq<real>, slots: seq<nat>): (r: seq<real>)
    requires forall j :: 0 <= j < |slots| ==> slots[j] < |repam|
    ensures |r| == |slots| && forall j :: 0 <= j < |slots| ==> r[j] == repam[slots[j]]
  {
    seq(|slots|, j requires 0 <= j < |slots| => repam[slots[j]])
  }

  /** `min_val_covered`: None plays the role of the largest REAL when no slot is covered. */
  function CoveredMin(repam: seq<real>, slots: seq<nat>): Option<real>
    requires forall j :: 0 <= j < |slots| ==> slots[j] < |repam|
  {
    if slots == [] then None else Some(Min(CoveredValues(repam, slots)))
  }

  /** `new_val`: the global minimum when it lies strictly below every covered entry, else the second minimum. */
  function NewValue(repam: seq<real>, slots: seq<nat>): real
    requires |repam| >= 2
    requires forall j :: 0 <= j < |slots| ==> slots[j] < |repam|
  {
    var (minVal, secondMinVal) := SmallestValues(repam);
    var covered := CoveredMin(repam, slots);
    if covered.None? || minVal < covered.value then minVal else secondMinVal
  }

  /** The value of message `j` after a batched update. */
  function ParallelUpdate(msg: real, omega: real, omegaSum: real, slotValue: real, newVal: real): real
  {
    if omega > 0.0 then Step(msg, omegaSum, slotValue, newVal) else msg
  }

  /** `new_val` is the minimum over every entry except the best covered one. */
  lemma NewValueIsMinExceptBestCovered(repam: seq<real>, slots: seq<nat>, j: nat)
    requires |repam| >= 2
    requires forall i :: 0 <= i < |slots| ==> slots[i] < |repam|
    requires j < |slots| && CoveredMin(repam, slots) == Some(repam[slots[j]])
    ensures NewValue(repam, slots) == MinExcept(repam, slots[j])
  {
    var s := slots[j];
    var cov := CoveredValues(repam, slots);
    assert cov[j] == repam[s];
    var m := Min(repam);
    var a := ArgMin(repam);
    MinExceptIsMinOfOthers(repam, s);
    if m < repam[s] {
      assert a != s;
      MinOfOthersUnique(repam, s, m);
    } else {
      assert repam[s] == m;
      MinExceptAtAnyMinimiser(repam, s);
    }
  }

  /** A step from `x` toward `nv` by a fraction `w` of the gap stays above any common lower bound. */
  lemma ConvexStep(x: real, nv: real, w: real, m: real)
    requires 0.0 <= w <= 1.0 && x >= m && nv >= m
    ensures x - w * (x - nv) >= m
  {
    assert x - w * (x - nv) == (1.0 - w) * (x - m) + w * (nv - m) + m;
    assert (1.0 - w) * (x - m) >= 0.0;
    assert w * (nv - m) >= 0.0;
  }

  /** `new_val` is one of the entries' two smallest values, so never below the minimum. */
  lemma NewValueAtLeastMin(repam: seq<real>, slots: seq<nat>)
    requires |repam| >= 2
    requires forall i :: 0 <= i < |slots| ==> slots[i] < |repam|
    ensures Min(repam) <= NewValue(repam, slots)
  {
    SecondMinTies(repam);
  }

  /** The batched update never moves a covered slot below the potential's minimum
      when the damped weight lies in [0, 1]. The band (1, 1 + eps] that the source's
      assertion also lets through is not covered: there a step overshoots `new_val`. */
  lemma ParallelKeepsLowerBound(repam: seq<real>, slots: seq<nat>, omegas: seq<real>, msg: real, j: nat)
    requires |repam| >= 2 && |omegas| == |slots|
    requires forall i :: 0 <= i < |slots| ==> slots[i] < |repam|
    requires j < |slots|
    requires 0.0 <= OmegaSum(omegas) <= 1.0
    ensures repam[slots[j]] + (ParallelUpdate(msg, omegas[j], OmegaSum(omegas), repam[slots[j]], NewValue(repam, slots)) - msg)
            >= Min(repam)
  {
    var w := OmegaSum(omegas);
    var x := repam[slots[j]];
    var nv := NewValue(repam, slots);
    var m := Min(repam);
    NewValueAtLeastMin(repam, slots);
    ParallelStepBound(msg, omegas[j], w, x, nv, m);
  }

  lemma ParallelStepBound(msg: real, omega: real, w: real, x: real, nv: real, m: real)
    requires 0.0 <= w <= 1.0 && x >= m && nv >= m
    ensures x + (ParallelUpdate(msg, omega, w, x, nv) - msg) >= m
  {
    if omega > 0.0 {
      ConvexStep(x, nv, w, m);
    }
  }

  /** With a single message the covered minimum is that message's slot, so `new_val`
      is the minimum of the other entries. */
  lemma NewValueSingleton(repam: seq<real>, k: nat)
    requires |repam| >= 2 && k < |repam|
    ensures NewValue(repam, [k]) == MinExcept(repam, k)
  {
    assert CoveredValues(repam, [k]) == [repam[k]];
    NewValueIsMinExceptBestCovered(repam, [k], 0);
  }

  /** With one message the batched update is the single update with half the weight. */
  lemma ParallelSingletonIsSingle(repam: seq<real>, k: nat, w: real, msg: real)
    requires |repam| >= 2 && k < |repam| && w > 0.0
    ensures ParallelUpdate(msg, w, OmegaSum([w]), repam[k], NewValue(repam, [k]))
            == SingleUpdate(msg, repam, k, 0.5 * w)
  {
    assert Sum([w]) == Sum([]) + w;
    NewValueSingleton(repam, k);
  }

  /** One make-uniform step followed by the reparametrisation of its change: the
      slot moves toward the minimum of the others and, for omega == 1, reaches it. */
  lemma UniformThenRepam(pot: seq<real>, k: nat, omega: real)
    requires |pot| >= 2 && k < |pot| && 0.0 <= omega <= 1.0
    ensures var p := AddAtSlot(pot, k, SingleUpdate(0.0, pot, k, omega));
            && (omega == 1.0 ==> p[k] == MinExcept(pot, k))
            && (forall i :: 0 <= i < |pot| && i != k ==> p[i] == pot[i])
            && Min(p) >= Min(pot)
  {
    var d := SingleUpdate(0.0, pot, k, omega);
    SingleUpdateBounds(pot, k, omega);
    RaiseSlotKeepsMin(pot, k, pot[k] + d);
    assert AddAtSlot(pot, k, d) == pot[k := pot[k] + d];
  }

  /** The updated slot lies between the minimum of the others and its old value. */
  lemma SingleUpdateBounds(pot: seq<real>, k: nat, omega: real)
    requires |pot| >= 2 && k < |pot| && 0.0 <= omega <= 1.0
    ensures pot[k] + SingleUpdate(0.0, pot, k, omega) >= Min(pot)
    ensures omega == 1.0 ==> pot[k] + SingleUpdate(0.0, pot, k, omega) == MinExcept(pot, k)
  {
    var x, m, lo := pot[k], MinExcept(pot, k), Min(pot);
    assert lo <= m by { MinExceptAtLeastMin(pot, k); }
    assert lo <= x;
    UniformStep(x, m, omega, lo);
  }

  lemma MinExceptAtLeastMin(s: seq<real>, k: nat)
    requires |s| >= 2 && k < |s|
    ensures Min(s) <= MinExcept(s, k)
  {
    MinExceptIsMinOfOthers(s, k);
  }

  lemma UniformStep(x: real, m: real, omega: real, lo: real)
    requires 0.0 <= omega <= 1.0 && x >= lo && m >= lo
    ensures x + Step(0.0, omega, x, m) >= lo
    ensures omega == 1.0 ==> x + Step(0.0, omega, x, m) == m
  {
    ConvexStep(x, m, omega, lo);
  }

  /** Replacing one entry by a value no smaller than the minimum keeps the minimum from falling. */
  lemma RaiseSlotKeepsMin(pot: seq<real>, k: nat, v: real)
    requires k < |pot| && v >= Min(pot)
    ensures Min(pot[k := v]) >= Min(pot)
  {
    var p := pot[k := v];
    MinAttained(p);
    var i :| 0 <= i < |p| && Min(p) == p[i];
  }

  /** Primal label of a factor, with the number of labels it ranges over. */
  class PrimalFactor {
    var primal: nat
    const size: nat

    constructor (size: nat, primal: nat)
      ensures this.size == size && this.primal == primal
    {
      this.size := size;
      this.primal := primal;
    }
  }

  /** A message between two potentials; `computeMessages` is the source's
      `COMPUTE_MESSAGES` switch and `chirality` its `Chirality` tag. */
  datatype EqualityMessage = EqualityMessage(leftVar: nat, rightVar: nat, chirality: Chirality, computeMessages: bool)
  {
    /** The slot a batched update reads for this message. */
    function Slot(side: Side): nat
    {
      match side
      case LeftSlot => leftVar
      case RightSlot => rightVar
    }

    /** `min_val`: the loop over every entry except `varIdx`; None is the largest REAL. */
    static method ScanMinExcept(repamPot: seq<real>, varIdx: nat) returns (minVal: real)
      requires |repamPot| >= 2 && varIdx < |repamPot|
      ensures minVal == MinExcept(repamPot, varIdx)
    {
      var best: Option<real> := None;
      var i := 0;
      while i < |repamPot|
        invariant 0 <= i <= |repamPot|
        invariant best.None? <==> (i == 0 || (i == 1 && varIdx == 0))
        invariant best.Some? ==> exists j :: 0 <= j < i && j != varIdx && best.value == repamPot[j]
        invariant best.Some? ==> forall j :: 0 <= j < i && j != varIdx ==> best.value <= repamPot[j]
      {
        if i != varIdx {
          best := Some(match best
                       case None => repamPot[i]
                       case Some(m) => RMin(m, repamPot[i]));
        }
        i := i + 1;
      }
      minVal := best.value;
      MinOfOthersUnique(repamPot, varIdx, minVal);
    }

    /** Makes the potential uniform against slot `varIdx` by changing the message. */
    method MakeFactorUniform(repamPot: seq<real>, msg: array<real>, varIdx: nat, omega: real)
      requires msg.Length == 1 && varIdx < |repamPot| && |repamPot| >= 2
      modifies msg
      ensures msg[0] == SingleUpdate(old(msg[0]), repamPot, varIdx, omega)
    {
      var minVal := ScanMinExcept(repamPot, varIdx);
      msg[0] := Step(msg[0], omega, repamPot[varIdx], minVal);
    }

    method ReceiveMessageFromRight(rightPot: seq<real>, msg: array<real>)
      requires computeMessages
      requires msg.Length == 1 && rightVar < |rightPot| && |rightPot| >= 2
      modifies msg
      ensures msg[0] == SingleUpdate(old(msg[0]), rightPot, rightVar, 1.0)
    {
      MakeFactorUniform(rightPot, msg, rightVar, 1.0);
    }

    method ReceiveMessageFromLeft(leftPot: seq<real>, msg: array<real>)
      requires computeMessages
      requires msg.Length == 1 && leftVar < |leftPot| && |leftPot| >= 2
      modifies msg
      ensures msg[0] == SingleUpdate(old(msg[0]), leftPot, leftVar, 1.0)
    {
      MakeFactorUniform(leftPot, msg, leftVar, 1.0);
    }

    /** `min_val` and `second_min_val`: one pass keeping the two smallest values; on a
        tie the second minimum takes the lowest value too. The first two steps of the
        source's pass from the largest REAL are unrolled into the initialisation. */
    static method ScanSmallestValues(repam: seq<real>) returns (minVal: real, secondMinVal: real)
      requires |repam| >= 2
      ensures (minVal, secondMinVal) == SmallestValues(repam)
      ensures minVal <= secondMinVal
    {
      ghost var k: nat;
      if repam[0] >= repam[1] {
        minVal, secondMinVal, k := repam[1], repam[0], 1;
      } else {
        minVal, secondMinVal, k := repam[0], repam[1], 0;
      }
      assert repam[..2] == [repam[0], repam[1]];
      assert [repam[0], repam[1]][..1] == [repam[0]];
      assert MinExcept(repam[..2], k) == repam[1 - k] by {
        assert repam[..2][..k] + repam[..2][k + 1..] == [repam[1 - k]];
      }
      var i := 2;
      while i < |repam|
        invariant 2 <= i <= |repam|
        invariant k < i && repam[k] == minVal == Min(repam[..i])
        invariant secondMinVal == MinExcept(repam[..i], k)
      {
        minVal, secondMinVal, k := ScanSmallestStep(repam, i, minVal, secondMinVal, k);
        i := i + 1;
      }
      assert repam[..i] == repam;
      MinExceptAtAnyMinimiser(repam, k);
      SecondMinTies(repam);
    }

    /** One entry of the min/second-min scan: a new minimum pushes the old one to second
        place, otherwise the entry may only lower the second minimum. */
    static method ScanSmallestStep(repam: seq<real>, i: nat, minVal: real, secondMinVal: real, ghost k: nat)
      returns (minVal': real, secondMinVal': real, ghost k': nat)
      requires 2 <= i < |repam|
      requires k < i && repam[k] == minVal == Min(repam[..i])
      requires secondMinVal == MinExcept(repam[..i], k)
      ensures k' < i + 1 && repam[k'] == minVal' == Min(repam[..i + 1])
      ensures secondMinVal' == MinExcept(repam[..i + 1], k')
    {
      var curVal := repam[i];
      assert repam[..i + 1] == repam[..i] + [curVal];
      MinAppend(repam[..i], curVal);
      if minVal >= curVal {
        MinExceptLast(repam[..i], curVal);
        secondMinVal', minVal', k' := minVal, curVal, i;
      } else if secondMinVal > curVal {
        MinExceptAppend(repam[..i], curVal, k);
        secondMinVal', minVal', k' := curVal, minVal, k;
      } else {
        MinExceptAppend(repam[..i], curVal, k);
        secondMinVal', minVal', k' := secondMinVal, minVal, k;
      }
    }

    /** `min_val_covered`: the minimum over the slots the messages reference. */
    static method ScanMinCovered(repam: seq<real>, slots: seq<nat>) returns (covered: Option<real>)
      requires forall j :: 0 <= j < |slots| ==> slots[j] < |repam|
      ensures covered == CoveredMin(repam, slots)
    {
      var values := CoveredValues(repam, slots);
      covered := None;
      var j := 0;
      while j < |slots|
        invariant 0 <= j <= |slots|
        invariant covered == if j == 0 then None else Some(Min(values[..j]))
      {
        var v := repam[slots[j]];
        assert values[..j + 1] == values[..j] + [v];
        if j > 0 {
          MinAppend(values[..j], v);
        } else {
          assert values[..1] == [v];
        }
        covered := Some(match covered
                        case None => v
                        case Some(m) => RMin(m, v));
        j := j + 1;
      }
      assert values[..j] == values;
    }

    /** The batched make-uniform update of every message referencing `repam`. */
    static method MakeFactorUniformParallel(side: Side, edges: seq<EqualityMessage>, msgs: array<real>,
                                            repam: seq<real>, omegas: seq<real>, eps: real)
      requires msgs.Length == |edges| == |omegas| && |repam| >= 2
      requires forall j :: 0 <= j < |edges| ==> edges[j].Slot(side) < |repam|
      requires OmegaSum(omegas) <= 1.0 + eps
      modifies msgs
      ensures var slots := Slots(edges, side);
              forall j :: 0 <= j < msgs.Length ==>
                msgs[j] == ParallelUpdate(old(msgs[j]), omegas[j], OmegaSum(omegas),
                                          repam[slots[j]], NewValue(repam, slots))
    {
      var omegaSum := 0.5 * Sum(omegas);
      var slots := Slots(edges, side);
      var covered := ScanMinCovered(repam, slots);
      var minVal, secondMinVal := ScanSmallestValues(repam);
      var newVal: real;
      if covered.None? || minVal < covered.value { newVal := minVal; } else { newVal := secondMinVal; }
      assert newVal == NewValue(repam, slots);
      var j := 0;
      while j < msgs.Length
        invariant 0 <= j <= msgs.Length
        invariant forall i :: 0 <= i < j ==>
                    msgs[i] == ParallelUpdate(old(msgs[i]), omegas[i], omegaSum, repam[slots[i]], newVal)
        invariant forall i :: j <= i < msgs.Length ==> msgs[i] == old(msgs[i])
      {
        if omegas[j] > 0.0 {
          msgs[j] := Step(msgs[j], omegaSum, repam[slots[j]], newVal);
        }
        j := j + 1;
      }
    }

    static method SendMessagesToLeft(edges: seq<EqualityMessage>, rightRepam: seq<real>, msgs: array<real>,
                                     omegas: seq<real>, eps: real)
      requires forall j :: 0 <= j < |edges| ==> edges[j].computeMessages
      requires msgs.Length == |edges| == |omegas| && |rightRepam| >= 2
      requires forall j :: 0 <= j < |edges| ==> edges[j].rightVar < |rightRepam|
      requires OmegaSum(omegas) <= 1.0 + eps
      modifies msgs
      ensures var slots := Slots(edges, RightSlot);
              forall j :: 0 <= j < msgs.Length ==>
                msgs[j] == ParallelUpdate(old(msgs[j]), omegas[j], OmegaSum(omegas),
                                          rightRepam[edges[j].rightVar], NewValue(rightRepam, slots))
    {
      MakeFactorUniformParallel(RightSlot, edges, msgs, rightRepam, omegas, eps);
    }

    static method SendMessagesToRight(edges: seq<EqualityMessage>, leftRepam: seq<real>, msgs: array<real>,
                                      omegas: seq<real>, eps: real)
      requires forall j :: 0 <= j < |edges| ==> edges[j].computeMessages
      requires msgs.Length == |edges| == |omegas| && |leftRepam| >= 2
      requires forall j :: 0 <= j < |edges| ==> edges[j].leftVar < |leftRepam|
      requires OmegaSum(omegas) <= 1.0 + eps
      modifies msgs
      ensures var slots := Slots(edges, LeftSlot);
              forall j :: 0 <= j < msgs.Length ==>
                msgs[j] == ParallelUpdate(old(msgs[j]), omegas[j], OmegaSum(omegas),
                                          leftRepam[edges[j].leftVar], NewValue(leftRepam, slots))
    {
      MakeFactorUniformParallel(LeftSlot, edges, msgs, leftRepam, omegas, eps);
    }

    method RepamLeft(leftRepamPot: array<real>, msg: real, dim: nat)
      requires dim == 0 && leftVar < leftRepamPot.Length
      modifies leftRepamPot
      ensures leftRepamPot[..] == AddAtSlot(old(leftRepamPot[..]), leftVar, msg)
    {
      leftRepamPot[leftVar] := leftRepamPot[leftVar] + msg;
    }

    method RepamRight(rightRepamPot: array<real>, msg: real, dim: nat)
      requires dim == 0 && rightVar < rightRepamPot.Length
      modifies rightRepamPot
      ensures rightRepamPot[..] == AddAtSlot(old(rightRepamPot[..]), rightVar, msg)
    {
      rightRepamPot[rightVar] := rightRepamPot[rightVar] + msg;
    }

    /** The left label after right-to-left propagation. */
    function LeftFromRight(leftPrimal: nat, rightPrimal: nat): nat
    {
      if rightPrimal == rightVar then leftVar else leftPrimal
    }

    /** The right label after left-to-right propagation: out-of-range labels first
        become the last label (the "unassigned" label of a matching). */
    function RightFromLeft(leftPrimal: nat, rightPrimal: nat, rightSize: nat): nat
      requires rightSize > 0
    {
      var clamped := if rightPrimal >= rightSize then rightSize - 1 else rightPrimal;
      if leftPrimal == leftVar then rightVar else clamped
    }

    method ComputeLeftFromRightPrimal(l: PrimalFactor, r: PrimalFactor)
      requires chirality == Right
      modifies l
      ensures l.primal == LeftFromRight(old(l.primal), old(r.primal))
    {
      if r.primal == rightVar {
        l.primal := leftVar;
      }
    }

    method ComputeRightFromLeftPrimal(l: PrimalFactor, r: PrimalFactor)
      requires chirality == Left
      requires l != r && r.size > 0
      modifies r
      ensures r.primal == RightFromLeft(l.primal, old(r.primal), r.size)
    {
      if r.primal >= r.size {
        r.primal := r.size - 1;
      }
      if l.primal == leftVar {
        r.primal := rightVar;
      }
    }

    /** Whether the two labels satisfy the equality constraint. */
    function CheckPrimalConsistency(leftPrimal: nat, rightPrimal: nat): (ok: bool)
      ensures ok <==> (leftPrimal == leftVar <==> rightPrimal == rightVar)
    {
      if leftPrimal == leftVar then rightPrimal == rightVar
      else if rightPrimal == rightVar then leftPrimal == leftVar
      else true
    }

    /** Right-to-left propagation repairs every violation caused by a matching right label,
        and leaves a violation only where the left label alone matches. */
    lemma LeftFromRightConsistency(leftPrimal: nat, rightPrimal: nat)
      ensures CheckPrimalConsistency(LeftFromRight(leftPrimal, rightPrimal), rightPrimal)
              <==> (rightPrimal == rightVar || leftPrimal != leftVar)
    {
    }

    /** Left-to-right propagation: the labels are consistent afterwards unless the left
        label does not match and the clamped right label does. */
    lemma RightFromLeftConsistency(leftPrimal: nat, rightPrimal: nat, rightSize: nat)
      requires rightSize > 0
      ensures RightFromLeft(leftPrimal, rightPrimal, rightSize) < rightSize || leftPrimal == leftVar
      ensures leftPrimal == leftVar ==> CheckPrimalConsistency(leftPrimal, RightFromLeft(leftPrimal, rightPrimal, rightSize))
    {
    }
  }

  /** The slot each message of a batch references. */
  function Slots(edges: seq<EqualityMessage>, side: Side): (slots: seq<nat>)
    ensures |slots| == |edges| && forall j :: 0 <= j < |edges| ==> slots[j] == edges[j].Slot(side)
  {
    seq(|edges|, j requires 0 <= j < |edges| => edges[j].Slot(side))
  }
}
