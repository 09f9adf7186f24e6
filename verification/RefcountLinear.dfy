/** Every operation on a reference count takes effect at one moment between its call and its return, as if
    nothing else were going on then. */
module RefcountLinear {
  import opened Refcount
  import opened RefcountRuns
  import opened Sequences
  import opened Wrappers

  /** What an operation alone returns, and the count it leaves: 0 and the saturated count stay; nothing is
      added beyond saturation or taken below 0. */
  function Atomic(op: Op, v: nat): (bool, nat) {
    match op
    case Add(i) => if v == 0 then (false, 0) else (true, if v + i >= UINT_MAX then UINT_MAX else v + i)
    case Inc => if v == 0 then (false, 0) else (true, if v + 1 >= UINT_MAX then UINT_MAX else v + 1)
    case Sub(i) => if v == UINT_MAX || v < i then (false, v) else (v == i, v - i)
    case DecIfOne => if v == 1 then (true, 0) else (false, v)
    case DecNotOne => if v == 1 then (false, 1) else (true, if v == 0 || v == UINT_MAX then v else v - 1)
    case DecAndLock => (v == 1, if v == 0 || v == UINT_MAX then v else v - 1)
  }

  function At(start: nat, actions: seq<Action>, m: nat): State
    requires m <= |actions|
  {
    After(start, actions[..m])
  }

  /** The call has been made and has not returned. */
  predicate Pending(start: nat, actions: seq<Action>, t: nat, m: nat) {
    m <= |actions| && t < |At(start, actions, m).calls| && !At(start, actions, m).calls[t].phase.Done?
  }

  /** Meanwhile the count has been `v`. */
  ghost predicate Seen(start: nat, actions: seq<Action>, t: nat, v: nat) {
    exists m :: Pending(start, actions, t, m) && At(start, actions, m).count == v
  }

  /** At that moment the operation alone returns this, and either leaves the count or changes it then. */
  predicate EffectAt(start: nat, actions: seq<Action>, t: nat, op: Op, result: bool, made: Option<nat>, m: nat) {
    && Pending(start, actions, t, m)
    && var v := At(start, actions, m).count;
    && v <= UINT_MAX && Atomic(op, v).0 == result
    && if made.None? then Atomic(op, v).1 == v
       else m < |actions| && actions[m] == Step(t) && At(start, actions, m + 1).count == Atomic(op, v).1 != v
  }

  ghost predicate Effective(start: nat, actions: seq<Action>, t: nat, op: Op, result: bool, made: Option<nat>) {
    exists m :: EffectAt(start, actions, t, op, result, made, m)
  }

  ghost predicate Explained(start: nat, actions: seq<Action>, t: nat, c: Call) {
    match c.phase
    case Looping(val) => if c.op == DecIfOne then val == 1 else Seen(start, actions, t, val)
    case LockedLooping(val) => Seen(start, actions, t, val)
    case Unlocking(made) => Effective(start, actions, t, c.op, false, made)
    case Done(result, made) => Effective(start, actions, t, c.op, result, made)
    case _ => true
  }

  ghost predicate AllExplained(start: nat, actions: seq<Action>) {
    var s := After(start, actions);
    forall t :: 0 <= t < |s.calls| ==> Explained(start, actions, t, s.calls[t])
  }

  // ----- later -----

  lemma SamePrefix(start: nat, actions: seq<Action>, a: Action, m: nat)
    requires m <= |actions|
    ensures (actions + [a])[..m] == actions[..m] && At(start, actions + [a], m) == At(start, actions, m)
    ensures m < |actions| ==> (actions + [a])[m] == actions[m]
  {
    assert (actions + [a])[..m] == actions[..m];
  }

  lemma Whole(start: nat, actions: seq<Action>)
    ensures At(start, actions, |actions|) == After(start, actions)
  {
    assert actions[..|actions|] == actions;
  }

  lemma SeenLater(start: nat, actions: seq<Action>, a: Action, t: nat, v: nat)
    requires Seen(start, actions, t, v)
    ensures Seen(start, actions + [a], t, v)
  {
    var m: nat :| Pending(start, actions, t, m) && At(start, actions, m).count == v;
    SamePrefix(start, actions, a, m);
    assert Pending(start, actions + [a], t, m);
  }

  lemma EffectiveLater(start: nat, actions: seq<Action>, a: Action, t: nat, op: Op, result: bool, made: Option<nat>)
    requires Effective(start, actions, t, op, result, made)
    ensures Effective(start, actions + [a], t, op, result, made)
  {
    var m: nat :| EffectAt(start, actions, t, op, result, made, m);
    SamePrefix(start, actions, a, m);
    if m < |actions| { SamePrefix(start, actions, a, m + 1); }
    assert EffectAt(start, actions + [a], t, op, result, made, m);
  }

  lemma ExplainedLater(start: nat, actions: seq<Action>, a: Action, t: nat, c: Call)
    requires Explained(start, actions, t, c)
    ensures Explained(start, actions + [a], t, c)
  {
    match c.phase
    case Looping(val) => if c.op != DecIfOne { SeenLater(start, actions, a, t, val); }
    case LockedLooping(val) => SeenLater(start, actions, a, t, val);
    case Unlocking(made) => EffectiveLater(start, actions, a, t, c.op, false, made);
    case Done(result, made) => EffectiveLater(start, actions, a, t, c.op, result, made);
    case _ =>
  }

  // ----- now -----

  lemma SeenNow(start: nat, actions: seq<Action>, t: nat)
    requires var s := After(start, actions); t < |s.calls| && !s.calls[t].phase.Done?
    ensures Seen(start, actions, t, After(start, actions).count)
  {
    Whole(start, actions);
    assert Pending(start, actions, t, |actions|);
  }

  /** An operation that changes nothing, by a value seen. */
  lemma UnchangedBy(start: nat, actions: seq<Action>, t: nat, op: Op, result: bool, v: nat)
    requires Seen(start, actions, t, v) && v <= UINT_MAX && Atomic(op, v) == (result, v)
    ensures Effective(start, actions, t, op, result, None)
  {
    var m: nat :| Pending(start, actions, t, m) && At(start, actions, m).count == v;
    assert EffectAt(start, actions, t, op, result, None, m);
  }

  /** An exchange that has just been made. */
  lemma ExchangedNow(start: nat, actions: seq<Action>, t: nat, op: Op, result: bool, made: nat, next: nat)
    requires var s := After(start, actions);
             && t < |s.calls| && !s.calls[t].phase.Done? && s.count <= UINT_MAX
             && Atomic(op, s.count) == (result, next) && next != s.count
    requires After(start, actions + [Step(t)]).count == next
    ensures Effective(start, actions + [Step(t)], t, op, result, Some(made))
  {
    Whole(start, actions);
    Whole(start, actions + [Step(t)]);
    SamePrefix(start, actions, Step(t), |actions|);
    assert EffectAt(start, actions + [Step(t)], t, op, result, Some(made), |actions|);
  }

  // ----- rounds -----

  /** A round that starts from a value does what the operation alone does to it; only the first loop of a
      locking decrement leaves a count of 1 to the second. */
  lemma RoundAtomic(op: Op, val: nat)
    requires val <= UINT_MAX && (op == DecIfOne ==> val == 1)
    ensures match FirstRound(op, val)
            case Return(result) =>
              if op == DecAndLock then (result ==> Atomic(op, val) == (false, val)) else Atomic(op, val) == (result, val)
            case Exchange(next, result) =>
              && next != val
              && if op == DecAndLock then result && Atomic(op, val) == (false, next) else Atomic(op, val) == (result, next)
  {
    match op
    case Add(i) => AddRoundLegal(i, val);
    case Inc => Wrap(val + 1);
    case Sub(i) => SubRoundLegal(i, val);
    case DecIfOne =>
    case DecNotOne => DecNotOneRoundLegal(val);
    case DecAndLock => DecNotOneRoundLegal(val);
  }

  lemma LockedRoundAtomic(val: nat)
    requires val <= UINT_MAX
    ensures match SubRound(1, val)
            case Return(_) => Atomic(DecAndLock, val) == (false, val)
            case Exchange(next, result) => next != val && Atomic(DecAndLock, val) == (result, next)
  {
    SubRoundLegal(1, val);
  }

  lemma AfterSnoc(start: nat, actions: seq<Action>, a: Action)
    ensures After(start, actions + [a]) == Apply(After(start, actions), a)
  {
    assert (actions + [a])[..|actions|] == actions;
  }

  lemma FirstExplained(start: nat, actions: seq<Action>, t: nat, val: nat)
    requires var s := After(start, actions);
             Inv(start, s) && t < |s.calls| && s.calls[t].phase == Looping(val) && Explained(start, actions, t, s.calls[t])
    ensures var s' := After(start, actions + [Step(t)]);
            t < |s'.calls| && Explained(start, actions + [Step(t)], t, s'.calls[t])
  {
    var s := After(start, actions);
    var op := s.calls[t].op;
    var later := actions + [Step(t)];
    AfterSnoc(start, actions, Step(t));
    assert CallOk(s, t, s.calls[t]);
    RoundAtomic(op, val);
    ExplainedLater(start, actions, Step(t), t, s.calls[t]);
    SeenNow(start, actions, t);
    SeenLater(start, actions, Step(t), t, s.count);
    match FirstRound(op, val)
    case Return(result) =>
      if op != DecAndLock { UnchangedBy(start, later, t, op, result, val); }
      else if result { UnchangedBy(start, later, t, op, false, val); }
    case Exchange(next, result) =>
      if s.count == val {
        ExchangedNow(start, actions, t, op, op != DecAndLock && result, |s.log|, next);
      } else if op == DecIfOne {
        UnchangedBy(start, later, t, op, false, s.count);
      }
  }

  lemma LockedExplained(start: nat, actions: seq<Action>, t: nat, val: nat)
    requires var s := After(start, actions);
             && Inv(start, s) && t < |s.calls| && s.calls[t].phase == LockedLooping(val)
             && Explained(start, actions, t, s.calls[t])
    ensures var s' := After(start, actions + [Step(t)]);
            t < |s'.calls| && Explained(start, actions + [Step(t)], t, s'.calls[t])
  {
    var s := After(start, actions);
    var later := actions + [Step(t)];
    AfterSnoc(start, actions, Step(t));
    assert CallOk(s, t, s.calls[t]);
    LockedRoundAtomic(val);
    ExplainedLater(start, actions, Step(t), t, s.calls[t]);
    SeenNow(start, actions, t);
    SeenLater(start, actions, Step(t), t, s.count);
    match SubRound(1, val)
    case Return(_) => UnchangedBy(start, later, t, DecAndLock, false, val);
    case Exchange(next, result) =>
      if s.count == val { ExchangedNow(start, actions, t, DecAndLock, result, |s.log|, next); }
  }

  lemma StepExplained(start: nat, actions: seq<Action>, t: nat)
    requires var s := After(start, actions);
             Inv(start, s) && t < |s.calls| && Explained(start, actions, t, s.calls[t])
    ensures var s' := After(start, actions + [Step(t)]);
            t < |s'.calls| && Explained(start, actions + [Step(t)], t, s'.calls[t])
  {
    var s := After(start, actions);
    AfterSnoc(start, actions, Step(t));
    ExplainedLater(start, actions, Step(t), t, s.calls[t]);
    match s.calls[t].phase
    case Looping(val) => FirstExplained(start, actions, t, val);
    case LockedLooping(val) => LockedExplained(start, actions, t, val);
    case Done(_, _) =>
    case _ =>
      assert CallOk(s, t, s.calls[t]);
      SeenNow(start, actions, t);
      SeenLater(start, actions, Step(t), t, s.count);
  }

  lemma OthersStay(s: State, a: Action, u: nat)
    requires u < |s.calls| && a != Step(u)
    ensures u < |Apply(s, a).calls| && Apply(s, a).calls[u] == s.calls[u]
  {
  }

  lemma NewCall(s: State, a: Action, u: nat)
    requires |s.calls| <= u < |Apply(s, a).calls|
    ensures Apply(s, a).calls[u].phase == Called
  {
  }

  lemma {:induction false} EveryRunExplained(start: nat, actions: seq<Action>)
    requires start <= UINT_MAX
    ensures AllExplained(start, actions)
    decreases |actions|
  {
    if actions != [] {
      var before, a := actions[..|actions| - 1], actions[|actions| - 1];
      var s := After(start, before);
      InitLast(actions);
      EveryRunKeeps(start, before);
      EveryRunExplained(start, before);
      AfterSnoc(start, before, a);
      forall u | 0 <= u < |After(start, actions).calls|
        ensures Explained(start, actions, u, After(start, actions).calls[u])
      {
        if u >= |s.calls| {
          NewCall(s, a, u);
        } else if a == Step(u) {
          StepExplained(start, before, u);
        } else {
          OthersStay(s, a, u);
          ExplainedLater(start, before, a, u, s.calls[u]);
        }
      }
    }
  }

  /** In every run, each call that has returned did so as if it had been made alone at some moment since it was
      called, with the count of that moment; if it changed the count it did so then, in one step. */
  lemma Linearizable(start: nat, actions: seq<Action>, t: nat) returns (m: nat)
    requires start <= UINT_MAX && t < |After(start, actions).calls| && After(start, actions).calls[t].phase.Done?
    ensures var c := After(start, actions).calls[t];
            EffectAt(start, actions, t, c.op, c.phase.result, c.phase.made, m)
  {
    EveryRunExplained(start, actions);
    var c := After(start, actions).calls[t];
    assert Explained(start, actions, t, c);
    m :| EffectAt(start, actions, t, c.op, c.phase.result, c.phase.made, m);
  }

  // ----- who holds the lock -----

  /** A call holds the lock only between taking and giving it back, or having returned true. */
  predicate Holder(s: State) {
    s.lock.Some? ==>
      && s.lock.value < |s.calls| && s.calls[s.lock.value].op == DecAndLock
      && var p := s.calls[s.lock.value].phase;
         p.LockedCalled? || p.LockedLooping? || p.Unlocking? || (p.Done? && p.result)
  }

  lemma HolderStep(start: nat, s: State, a: Action)
    requires Inv(start, s) && Holder(s)
    ensures Holder(Apply(s, a))
  {
    if a.Step? && a.t < |s.calls| { assert CallOk(s, a.t, s.calls[a.t]); }
  }

  lemma {:induction false} EveryRunHolds(start: nat, actions: seq<Action>)
    requires start <= UINT_MAX
    ensures Holder(After(start, actions))
    decreases |actions|
  {
    if actions != [] {
      EveryRunKeeps(start, actions[..|actions| - 1]);
      EveryRunHolds(start, actions[..|actions| - 1]);
      HolderStep(start, After(start, actions[..|actions| - 1]), actions[|actions| - 1]);
    }
  }

  /** A locking decrement that has returned false does not hold the lock. */
  lemma FalseHoldsNoLock(start: nat, actions: seq<Action>, t: nat)
    requires start <= UINT_MAX && t < |After(start, actions).calls|
    requires var p := After(start, actions).calls[t].phase; p.Done? && !p.result
    ensures After(start, actions).lock != Some(t)
  {
    EveryRunHolds(start, actions);
  }
}
