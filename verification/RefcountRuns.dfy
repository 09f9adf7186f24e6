/** What every interleaving of reference count operations keeps. */
module RefcountRuns {
  import opened Refcount
  import opened Wrappers

  // ----- steps that leave the count alone -----

  /** A call moves to another phase while count, log and lock stay as they are. */
  lemma EnterKeeps(start: nat, s: State, t: nat, phase: Phase)
    requires Inv(start, s) && t < |s.calls| && CallOk(s, t, s.calls[t].(phase := phase))
    ensures Inv(start, Enter(s, t, phase))
  {
    var s' := Enter(s, t, phase);
    forall i | 0 <= i < |s'.log| ensures LegalAt(start, s', i) {
      assert LegalAt(start, s, i);
    }
    forall u | 0 <= u < |s'.calls| ensures CallOk(s', u, s'.calls[u]) {
      assert CallOk(s, u, s.calls[u]);
    }
  }

  lemma StartKeeps(start: nat, s: State, op: Op)
    requires Inv(start, s)
    ensures Inv(start, Apply(s, Start(op)))
  {
    var s' := Apply(s, Start(op));
    forall i | 0 <= i < |s'.log| ensures LegalAt(start, s', i) {
      assert LegalAt(start, s, i);
    }
    forall u | 0 <= u < |s'.calls| ensures CallOk(s', u, s'.calls[u]) {
      if u < |s.calls| {
        assert CallOk(s, u, s.calls[u]);
      } else {
        forall i | 0 <= i < |s.log| ensures s.log[i].who != u { assert LegalAt(start, s, i); }
      }
    }
  }

  /** The lock changes hands only between nobody and `t`. */
  lemma LockKeeps(start: nat, s: State, t: nat, lock: Option<nat>, phase: Phase)
    requires Inv(start, s) && t < |s.calls|
    requires s.lock in {None, Some(t)} && CallOk(s.(lock := lock), t, s.calls[t].(phase := phase))
    ensures Inv(start, Enter(s.(lock := lock), t, phase))
  {
    var s' := Enter(s.(lock := lock), t, phase);
    forall i | 0 <= i < |s'.log| ensures LegalAt(start, s', i) {
      assert LegalAt(start, s, i);
    }
    forall u | 0 <= u < |s'.calls| ensures CallOk(s', u, s'.calls[u]) {
      assert CallOk(s, u, s.calls[u]);
    }
  }

  // ----- an exchange -----

  lemma OthersMade(s: State, t: nat, next: nat, u: nat, made: Option<nat>)
    requires u != t && MadeOnly(s, u, made)
    ensures MadeOnly(Exchange_(s, t, next), u, made)
  {
  }

  /** An exchange changes nothing for another call: it takes a count that is neither 0 nor saturated. */
  lemma OtherKeeps(s: State, t: nat, next: nat, u: nat, c: Call)
    requires CallOk(s, u, c) && u != t && 0 < s.count < UINT_MAX
    ensures CallOk(Exchange_(s, t, next), u, c)
  {
    OthersMade(s, t, next, u, match c.phase case Unlocking(made) => made case Done(_, made) => made case _ => None);
  }

  lemma ChainedSnoc(start: nat, s: State, t: nat, next: nat)
    requires Chained(start, s) && t < |s.calls| && Legal(s.calls[t].op, s.count, next)
    ensures Chained(start, Exchange_(s, t, next))
  {
    var s' := Exchange_(s, t, next);
    forall i | 0 <= i < |s'.log| ensures LegalAt(start, s', i) {
      if i < |s.log| { assert LegalAt(start, s, i); }
    }
  }

  lemma ExchangeKeeps(start: nat, s: State, t: nat, next: nat, phase: Phase)
    requires Inv(start, s) && t < |s.calls| && Legal(s.calls[t].op, s.count, next)
    requires CallOk(Exchange_(s, t, next), t, s.calls[t].(phase := phase))
    ensures Inv(start, Enter(Exchange_(s, t, next), t, phase))
  {
    var s1 := Exchange_(s, t, next);
    var s' := Enter(s1, t, phase);
    ChainedSnoc(start, s, t, next);
    forall i | 0 <= i < |s'.log| ensures LegalAt(start, s', i) {
      assert LegalAt(start, s1, i);
    }
    forall u | 0 <= u < |s'.calls| ensures CallOk(s', u, s'.calls[u]) {
      if u != t {
        assert CallOk(s, u, s.calls[u]);
        OtherKeeps(s, t, next, u, s.calls[u]);
      }
    }
  }

  /** The exchange just made is the only one of a call that had made none. */
  lemma MadeNow(s: State, t: nat, next: nat)
    requires MadeNone(s, t)
    ensures MadeOne(Exchange_(s, t, next), t, |s.log|)
  {
  }

  // ----- every step -----

  lemma FirstKeeps(start: nat, s: State, t: nat, val: nat)
    requires Inv(start, s) && t < |s.calls| && s.calls[t].phase == Looping(val)
    ensures Inv(start, RunFirst(s, t, val))
  {
    var op := s.calls[t].op;
    assert CallOk(s, t, s.calls[t]);
    RoundTells(op, val);
    match FirstRound(op, val)
    case Return(result) => EnterKeeps(start, s, t, FirstEnd(op, result, None));
    case Exchange(next, result) =>
      if s.count == val {
        FirstRoundLegal(op, val);
        MadeNow(s, t, next);
        ExchangeKeeps(start, s, t, next, FirstEnd(op, result, Some(|s.log|)));
      } else if op == DecIfOne {
        EnterKeeps(start, s, t, Done(false, None));
      } else {
        EnterKeeps(start, s, t, Looping(s.count));
      }
  }

  /** What the result of a round says about the value it started from. */
  lemma RoundTells(op: Op, val: nat)
    requires val <= UINT_MAX && (op == DecIfOne ==> val == 1)
    ensures match FirstRound(op, val)
            case Return(result) =>
              && (op.Sub? ==> !result) && op != DecIfOne
              && (op.Add? || op.Inc? ==> if result then val == UINT_MAX else val == 0)
              && (op == DecNotOne || op == DecAndLock ==> if result then val in {0, UINT_MAX} else val == 1)
            case Exchange(next, result) => (TellsZero(op) && op != DecAndLock ==> (result <==> next == 0)) &&
                                           (op == DecAndLock ==> result && next != 0) && (!TellsZero(op) ==> result)
  {
    match op
    case Add(i) => AddRoundLegal(i, val);
    case Inc => Wrap(val + 1);
    case Sub(i) => SubRoundLegal(i, val);
    case DecIfOne =>
    case DecNotOne => DecNotOneRoundLegal(val);
    case DecAndLock => DecNotOneRoundLegal(val);
  }

  lemma LockedKeeps(start: nat, s: State, t: nat, val: nat)
    requires Inv(start, s) && t < |s.calls| && s.calls[t].phase == LockedLooping(val)
    ensures Inv(start, RunLocked(s, t, val))
  {
    assert CallOk(s, t, s.calls[t]);
    SubRoundLegal(1, val);
    match SubRound(1, val)
    case Return(_) => EnterKeeps(start, s, t, Unlocking(None));
    case Exchange(next, result) =>
      if s.count == val {
        MadeNow(s, t, next);
        ExchangeKeeps(start, s, t, next, if result then Done(true, Some(|s.log|)) else Unlocking(Some(|s.log|)));
      } else {
        EnterKeeps(start, s, t, LockedLooping(s.count));
      }
  }

  lemma RunKeeps(start: nat, s: State, t: nat)
    requires Inv(start, s) && t < |s.calls|
    ensures Inv(start, Run(s, t))
  {
    assert CallOk(s, t, s.calls[t]);
    match s.calls[t].phase
    case Called => EnterKeeps(start, s, t, Looping(if s.calls[t].op == DecIfOne then 1 else s.count));
    case Looping(val) => FirstKeeps(start, s, t, val);
    case Blocked => if s.lock.None? { LockKeeps(start, s, t, Some(t), LockedCalled); }
    case LockedCalled => EnterKeeps(start, s, t, LockedLooping(s.count));
    case LockedLooping(val) => LockedKeeps(start, s, t, val);
    case Unlocking(made) => LockKeeps(start, s, t, None, Done(false, made));
    case Done(result, made) =>
      if s.lock == Some(t) {
        LockKeeps(start, s, t, None, Done(result, made));
        assert Enter(s.(lock := None), t, Done(result, made)) == s.(lock := None);
      }
  }

  lemma StepKeeps(start: nat, s: State, a: Action)
    requires Inv(start, s)
    ensures Inv(start, Apply(s, a))
  {
    match a
    case Start(op) => StartKeeps(start, s, op);
    case Step(t) => if t < |s.calls| { RunKeeps(start, s, t); }
  }

  lemma {:induction false} EveryRunKeeps(start: nat, actions: seq<Action>)
    requires start <= UINT_MAX
    ensures Inv(start, After(start, actions))
    decreases |actions|
  {
    if actions != [] {
      EveryRunKeeps(start, actions[..|actions| - 1]);
      StepKeeps(start, After(start, actions[..|actions| - 1]), actions[|actions| - 1]);
    }
  }

  // ----- what follows for every run -----

  /** Nothing moves the count from 0 or from the saturated value. */
  lemma Absorbing(start: nat, s: State, a: Action)
    requires Inv(start, s) && (s.count == 0 || s.count == UINT_MAX)
    ensures Apply(s, a).count == s.count
  {
    StepKeeps(start, s, a);
    var s' := Apply(s, a);
    if |s'.log| > |s.log| { assert LegalAt(start, s', |s.log|); }
  }

  lemma {:induction false} AbsorbingRun(start: nat, actions: seq<Action>, n: nat)
    requires start <= UINT_MAX && n <= |actions|
    requires After(start, actions[..n]).count in {0, UINT_MAX}
    ensures After(start, actions).count == After(start, actions[..n]).count
    decreases |actions|
  {
    if n == |actions| {
      assert actions[..n] == actions;
    } else {
      var before := actions[..|actions| - 1];
      assert before[..n] == actions[..n];
      AbsorbingRun(start, before, n);
      EveryRunKeeps(start, before);
      Absorbing(start, After(start, before), actions[|actions| - 1]);
    }
  }

  /** An exchange to 0 is the last one. */
  lemma ZeroIsLast(start: nat, s: State, i: nat)
    requires Inv(start, s) && i < |s.log| && s.log[i].to == 0
    ensures i == |s.log| - 1 && s.count == 0
  {
    forall k | 0 <= k < |s.log| - 1 ensures s.log[k].to > 0 { assert LegalAt(start, s, k + 1); }
  }

  predicate Reports(s: State, t: nat) {
    t < |s.calls| && TellsZero(s.calls[t].op) && s.calls[t].phase.Done? && s.calls[t].phase.result
  }

  /** At most one operation of a run ever reports that it took the count to 0. */
  lemma AtMostOneReport(start: nat, actions: seq<Action>, t: nat, u: nat)
    requires start <= UINT_MAX
    requires Reports(After(start, actions), t) && Reports(After(start, actions), u)
    ensures t == u && After(start, actions).count == 0
  {
    var s := After(start, actions);
    EveryRunKeeps(start, actions);
    assert CallOk(s, t, s.calls[t]) && CallOk(s, u, s.calls[u]);
    ZeroIsLast(start, s, s.calls[t].phase.made.value);
    ZeroIsLast(start, s, s.calls[u].phase.made.value);
  }

  /** And one does whenever the count has come down to 0. */
  lemma ZeroIsReported(start: nat, actions: seq<Action>) returns (t: nat)
    requires 0 < start <= UINT_MAX && After(start, actions).count == 0
    ensures Reports(After(start, actions), t)
  {
    var s := After(start, actions);
    EveryRunKeeps(start, actions);
    var last := |s.log| - 1;
    assert LegalAt(start, s, last);
    t := s.log[last].who;
    assert CallOk(s, t, s.calls[t]);
  }

  /** What the exchanges made add up to. */
  function Sum(s: State, n: nat): int
    requires n <= |s.log| && forall i :: 0 <= i < n ==> s.log[i].who < |s.calls|
  {
    if n == 0 then 0 else Sum(s, n - 1) + Delta(s.calls[s.log[n - 1].who].op)
  }

  lemma {:induction false} SumUpTo(start: nat, s: State, n: nat)
    requires Inv(start, s) && n <= |s.log| && s.count != UINT_MAX
    ensures forall i :: 0 <= i < |s.log| ==> s.log[i].who < |s.calls|
    ensures (if n == 0 then start else s.log[n - 1].to) == start + Sum(s, n)
    decreases n
  {
    forall i | 0 <= i < |s.log| ensures s.log[i].who < |s.calls| { assert LegalAt(start, s, i); }
    if n > 0 {
      SumUpTo(start, s, n - 1);
      assert LegalAt(start, s, n - 1);
      if n < |s.log| { assert LegalAt(start, s, n); }
    }
  }

  /** A count that is not saturated is the start, plus all that was added, less all that was taken. */
  lemma Conservation(start: nat, actions: seq<Action>)
    requires start <= UINT_MAX && After(start, actions).count != UINT_MAX
    ensures var s := After(start, actions);
            && (forall i :: 0 <= i < |s.log| ==> s.log[i].who < |s.calls|)
            && s.count == start + Sum(s, |s.log|)
  {
    EveryRunKeeps(start, actions);
    SumUpTo(start, After(start, actions), |After(start, actions).log|);
  }

  /** A locking decrement comes to return true exactly in the step in which it takes the count from 1
      to 0, and it then holds the lock. */
  lemma LockedReport(start: nat, s: State, t: nat)
    requires Inv(start, s) && t < |s.calls| && s.calls[t].op == DecAndLock && !s.calls[t].phase.Done?
    ensures var s' := Run(s, t);
            Reports(s', t) <==> s.count == 1 && s'.count == 0
    ensures Reports(Run(s, t), t) ==> Run(s, t).lock == Some(t) == s.lock
  {
    assert CallOk(s, t, s.calls[t]);
    match s.calls[t].phase
    case Looping(val) => DecNotOneRoundLegal(val);
    case LockedLooping(val) => SubRoundLegal(1, val);
    case _ =>
  }

  /** It then keeps the lock until it gives it back: no other call's step takes it away. */
  lemma LockKept(start: nat, s: State, t: nat, a: Action)
    requires Inv(start, s) && s.lock == Some(t) && a != Step(t)
    ensures Apply(s, a).lock == Some(t)
  {
    if a.Step? && a.t < |s.calls| { assert CallOk(s, a.t, s.calls[a.t]); }
  }
}
