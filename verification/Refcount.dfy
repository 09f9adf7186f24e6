/** Operations on one reference count, each a loop around a compare-and-exchange, in any
    interleaving. */
module Refcount {
  import opened Wrappers

  const UINT_MAX: nat := 0xffff_ffff
  const WIDTH: nat := 0x1_0000_0000

  type Amount = i: nat | 1 <= i <= UINT_MAX witness 1

  datatype Op = Add(i: Amount) | Inc | Sub(i: Amount) | DecIfOne | DecNotOne | DecAndLock

  /** What a round of a loop does with the value it has read. */
  datatype Round = Return(result: bool) | Exchange(next: nat, result: bool)

  function AddRound(i: Amount, val: nat): Round {
    if val == 0 then Return(false)
    else if val == UINT_MAX then Return(true)
    else
      var sum := (val + i) % WIDTH;
      Exchange(if sum < val then UINT_MAX else sum, true)
  }

  function IncRound(val: nat): Round {
    var sum := (val + 1) % WIDTH;
    if val == 0 then Return(false) else if sum == 0 then Return(true) else Exchange(sum, true)
  }

  function SubRound(i: Amount, val: nat): Round {
    var rest: nat := (val - i) % WIDTH;
    if val == UINT_MAX then Return(false)
    else if rest > val then Return(false)
    else Exchange(rest, rest == 0)
  }

  function DecNotOneRound(val: nat): Round {
    var rest: nat := (val - 1) % WIDTH;
    if val == UINT_MAX then Return(true)
    else if val == 1 then Return(false)
    else if rest > val then Return(true)
    else Exchange(rest, true)
  }

  /** The first loop of an operation. */
  function FirstRound(op: Op, val: nat): Round {
    match op
    case Add(i) => AddRound(i, val)
    case Inc => IncRound(val)
    case Sub(i) => SubRound(i, val)
    case DecIfOne => Exchange(0, true)
    case DecNotOne => DecNotOneRound(val)
    case DecAndLock => DecNotOneRound(val)
  }

  // ----- the machine -----

  /** `made` is the exchange the operation made, if it made one. */
  datatype Phase =
    | Called
    | Looping(val: nat)
    | Blocked
    | LockedCalled
    | LockedLooping(val: nat)
    | Unlocking(made: Option<nat>)
    | Done(result: bool, made: Option<nat>)

  datatype Call = Call(op: Op, phase: Phase)

  datatype Exchanged = Exchanged(who: nat, from: nat, to: nat)

  /** All calls ever made, all exchanges that succeeded, and the call that holds the lock. */
  datatype State = State(count: nat, calls: seq<Call>, log: seq<Exchanged>, lock: Option<nat>)

  function Enter(s: State, t: nat, phase: Phase): State
    requires t < |s.calls|
  {
    s.(calls := s.calls[t := s.calls[t].(phase := phase)])
  }

  /** The compare-and-exchange itself. */
  function Exchange_(s: State, t: nat, next: nat): State {
    s.(count := next, log := s.log + [Exchanged(t, s.count, next)])
  }

  /** Where the first loop of an operation leaves it. */
  function FirstEnd(op: Op, result: bool, made: Option<nat>): Phase {
    if op == DecAndLock then if result then Done(false, made) else Blocked else Done(result, made)
  }

  function RunFirst(s: State, t: nat, val: nat): State
    requires t < |s.calls|
  {
    var op := s.calls[t].op;
    match FirstRound(op, val)
    case Return(result) => Enter(s, t, FirstEnd(op, result, None))
    case Exchange(next, result) =>
      if s.count == val then Enter(Exchange_(s, t, next), t, FirstEnd(op, result, Some(|s.log|)))
      else if op == DecIfOne then Enter(s, t, Done(false, None))
      else Enter(s, t, Looping(s.count))
  }

  /** The second loop of the locking form, with the lock held. */
  function RunLocked(s: State, t: nat, val: nat): State
    requires t < |s.calls|
  {
    match SubRound(1, val)
    case Return(_) => Enter(s, t, Unlocking(None))
    case Exchange(next, result) =>
      if s.count == val then
        Enter(Exchange_(s, t, next), t, if result then Done(true, Some(|s.log|)) else Unlocking(Some(|s.log|)))
      else Enter(s, t, LockedLooping(s.count))
  }

  /** One step of call `t`: one access to the count or the lock. A finished call that still holds the
      lock gives it back. */
  function Run(s: State, t: nat): State
    requires t < |s.calls|
  {
    match s.calls[t].phase
    case Called => Enter(s, t, Looping(if s.calls[t].op == DecIfOne then 1 else s.count))
    case Looping(val) => RunFirst(s, t, val)
    case Blocked => if s.lock.None? then Enter(s.(lock := Some(t)), t, LockedCalled) else s
    case LockedCalled => Enter(s, t, LockedLooping(s.count))
    case LockedLooping(val) => RunLocked(s, t, val)
    case Unlocking(made) => Enter(s.(lock := None), t, Done(false, made))
    case Done(_, _) => if s.lock == Some(t) then s.(lock := None) else s
  }

  datatype Action = Start(op: Op) | Step(t: nat)

  function Apply(s: State, a: Action): State {
    match a
    case Start(op) => s.(calls := s.calls + [Call(op, Called)])
    case Step(t) => if t < |s.calls| then Run(s, t) else s
  }

  function After(start: nat, actions: seq<Action>): State
    decreases |actions|
  {
    if actions == [] then State(start, [], [], None)
    else Apply(After(start, actions[..|actions| - 1]), actions[|actions| - 1])
  }

  // ----- one exchange -----

  function Delta(op: Op): int {
    match op
    case Add(i) => i as int
    case Inc => 1
    case Sub(i) => 0 - i
    case _ => -1
  }

  /** An exchange an operation may make: never on 0 or the saturated count, and by its own amount
      unless it saturates. */
  predicate Legal(op: Op, from: nat, to: nat) {
    && 0 < from < UINT_MAX && to <= UINT_MAX
    && to == (if from + Delta(op) >= UINT_MAX then UINT_MAX else from + Delta(op))
    && (op == DecNotOne ==> to != 0)
  }

  lemma Wrap(x: int)
    requires 0 - WIDTH < x < 2 * WIDTH
    ensures x % WIDTH == if x < 0 then x + WIDTH else if x < WIDTH then x else x - WIDTH
  {
  }

  lemma SubRoundLegal(i: Amount, val: nat)
    requires val <= UINT_MAX
    ensures SubRound(i, val).Return? <==> val == UINT_MAX || i > val
    ensures SubRound(i, val).Exchange? ==> SubRound(i, val) == Exchange(val - i, i == val)
  {
    Wrap(val - i);
  }

  lemma DecNotOneRoundLegal(val: nat)
    requires val <= UINT_MAX
    ensures DecNotOneRound(val) == if val == 0 || val == UINT_MAX then Return(true)
                                   else if val == 1 then Return(false) else Exchange(val - 1, true)
  {
    Wrap(val - 1);
  }

  lemma AddRoundLegal(i: Amount, val: nat)
    requires val <= UINT_MAX
    ensures AddRound(i, val) == if val == 0 then Return(false) else if val == UINT_MAX then Return(true)
                                else Exchange(if val + i >= UINT_MAX then UINT_MAX else val + i, true)
  {
    Wrap(val + i);
  }

  /** Every exchange a first loop makes is legal. */
  lemma FirstRoundLegal(op: Op, val: nat)
    requires val <= UINT_MAX && FirstRound(op, val).Exchange? && (op == DecIfOne ==> val == 1)
    ensures Legal(op, val, FirstRound(op, val).next)
  {
    match op
    case Add(i) => AddRoundLegal(i, val);
    case Inc => Wrap(val + 1);
    case Sub(i) => SubRoundLegal(i, val);
    case DecIfOne =>
    case DecNotOne => DecNotOneRoundLegal(val);
    case DecAndLock => DecNotOneRoundLegal(val);
  }

  // ----- the invariant -----

  /** The exchanges lead from the start to the count, each legal for the call that made it. */
  predicate Chained(start: nat, s: State) {
    && (forall i :: 0 <= i < |s.log| ==> LegalAt(start, s, i))
    && s.count == if s.log == [] then start else s.log[|s.log| - 1].to
  }

  predicate LegalAt(start: nat, s: State, i: nat)
    requires i < |s.log|
  {
    && s.log[i].who < |s.calls| && Legal(s.calls[s.log[i].who].op, s.log[i].from, s.log[i].to)
    && s.log[i].from == if i == 0 then start else s.log[i - 1].to
  }

  predicate MadeNone(s: State, t: nat) { forall i :: 0 <= i < |s.log| ==> s.log[i].who != t }

  /** The exchange `made` is the only one of call `t`. */
  predicate MadeOne(s: State, t: nat, made: nat) {
    made < |s.log| && s.log[made].who == t && forall i :: 0 <= i < |s.log| && i != made ==> s.log[i].who != t
  }

  predicate MadeOnly(s: State, t: nat, made: Option<nat>) {
    match made
    case None => MadeNone(s, t)
    case Some(i) => MadeOne(s, t, i)
  }

  /** A value read earlier tells of now only when it is 0 or saturated. */
  predicate Read(s: State, val: nat) {
    val <= UINT_MAX && (val == 0 ==> s.count == 0) && (val == UINT_MAX ==> s.count == UINT_MAX)
  }

  /** Whether an operation that returns true has taken the count to 0. */
  predicate TellsZero(op: Op) { op.Sub? || op == DecIfOne || op == DecAndLock }

  /** What a finished call has seen or done. */
  predicate Told(s: State, t: nat, op: Op, result: bool, made: Option<nat>)
    requires made.Some? ==> made.value < |s.log|
  {
    && (TellsZero(op) ==> (result <==> made.Some? && s.log[made.value].to == 0))
    && (op == DecAndLock && result ==> s.log[made.value].from == 1)
    && (op.Add? || op.Inc? ==> (!result ==> made.None? && s.count == 0) &&
                               (result && made.None? ==> s.count == UINT_MAX))
    && (op == DecNotOne ==> (!result ==> made.None?) &&
                            (result && made.None? ==> s.count == 0 || s.count == UINT_MAX))
  }

  predicate CallOk(s: State, t: nat, c: Call) {
    match c.phase
    case Called => MadeNone(s, t)
    case Looping(val) => MadeNone(s, t) && (if c.op == DecIfOne then val == 1 else Read(s, val))
    case Blocked => MadeNone(s, t) && c.op == DecAndLock
    case LockedCalled => MadeNone(s, t) && c.op == DecAndLock && s.lock == Some(t)
    case LockedLooping(val) => MadeNone(s, t) && c.op == DecAndLock && s.lock == Some(t) && Read(s, val)
    case Unlocking(made) =>
      && MadeOnly(s, t, made) && c.op == DecAndLock && s.lock == Some(t)
      && (made.Some? ==> s.log[made.value].to != 0)
    case Done(result, made) => MadeOnly(s, t, made) && Told(s, t, c.op, result, made)
  }

  predicate Inv(start: nat, s: State) {
    && start <= UINT_MAX && s.count <= UINT_MAX && Chained(start, s)
    && forall t :: 0 <= t < |s.calls| ==> CallOk(s, t, s.calls[t])
  }
}
