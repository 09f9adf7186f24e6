/** Insertion through a chain of tables (`rhashtable_try_insert`, `__rhashtable_insert_fast`):
    at most one object per key, in every interleaving of locked bucket visits, table
    attachments, moves and removals. */
module RhashInsert {

  /** Table sizes, whether their buckets are nested, their hash functions; the key of each object,
      and whether objects of equal key are chained below one head (`rhlist`). */
  datatype Config = Config(size: nat -> nat, nested: nat -> bool, hash: (nat, nat) -> nat, key: nat -> nat, rhlist: bool)
  {
    function Bucket(t: nat, o: nat): nat { hash(t, key(o)) }
  }

  /** The initial table is allocated where it may wait for memory, so it is never nested. */
  ghost predicate Sound(c: Config) {
    !c.nested(0) && forall t: nat, k: nat {:trigger c.hash(t, k)} :: c.hash(t, k) < c.size(t)
  }

  /** Where the insertion of one object stands. `Holding` has the bucket lock of a table in which
      it found no equal key and whose `future_tbl` it read as null; `NoBucket` could not get a
      nested bucket. */
  datatype Pc = Start | At(table: nat) | Holding(table: nat) | NoBucket(table: nat) | Inserted | Refused

  /** `home` gives the table of every object that heads a bucket entry; `under` the head an object
      was put in front of; `first` is `ht->tbl`, `cursor` the bucket the rehash is at. */
  datatype State = State(home: map<nat, nat>, under: map<nat, nat>, first: nat, count: nat, cursor: nat, pc: map<nat, Pc>)
  {
    function Pc(o: nat): Pc { if o in pc then pc[o] else Start }
    function SetPc(o: nat, p: Pc): State { this.(pc := pc[o := p]) }
  }

  datatype Action =
    | Begin(obj: nat)
    | Visit(obj: nat)
    | Meet(obj: nat, found: nat)
    | Commit(obj: nat)
    | Retry(obj: nat)
    | Attach
    | Move(obj: nat, to: nat)
    | NextBucket
    | GiveUp
    | Advance
    | Remove(obj: nat)
    | AllocFails(obj: nat)
    | PassUnseen(obj: nat)

  /** Nobody holds the lock of the bucket. */
  ghost predicate Free(c: Config, s: State, t: nat, b: nat) {
    forall p :: p in s.pc && s.pc[p] == Holding(t) ==> c.Bucket(t, p) != b
  }

  /** An object of the key of `o` heads an entry of table `t`. */
  ghost predicate Present(c: Config, s: State, t: nat, o: nat) {
    exists x :: x in s.home && s.home[x] == t && c.key(x) == c.key(o)
  }

  /** The bucket is one of a nested table and nothing is in it, so it may not exist. */
  ghost predicate MayLack(c: Config, s: State, t: nat, b: nat) {
    c.nested(t) && Free(c, s, t, b) && forall x :: x in s.home && s.home[x] == t ==> c.Bucket(t, x) != b
  }

  ghost predicate Enabled(c: Config, s: State, a: Action) {
    match a
    case Begin(o) => s.Pc(o) == Start && o !in s.home
    case Visit(o) =>
      s.Pc(o).At? && Free(c, s, s.Pc(o).table, c.Bucket(s.Pc(o).table, o)) && !Present(c, s, s.Pc(o).table, o)
    case Meet(o, x) =>
      && s.Pc(o).At? && Free(c, s, s.Pc(o).table, c.Bucket(s.Pc(o).table, o))
      && x in s.home && s.home[x] == s.Pc(o).table && c.key(x) == c.key(o)
    case Commit(o) => s.Pc(o).Holding?
    case Retry(o) => s.Pc(o).Holding?
    case Attach => true
    case Move(x, t) =>
      && s.first < t < s.count && !c.nested(t) && x in s.home && s.home[x] == s.first && c.Bucket(s.first, x) == s.cursor
      && Free(c, s, s.first, s.cursor) && Free(c, s, t, c.Bucket(t, x))
    case NextBucket =>
      && s.first + 1 < s.count && s.cursor < c.size(s.first) && Free(c, s, s.first, s.cursor)
      && forall x :: x in s.home && s.home[x] == s.first ==> c.Bucket(s.first, x) != s.cursor
    case GiveUp => s.first + 1 < s.count && c.nested(s.count - 1)
    case Advance => s.first + 1 < s.count && s.cursor == c.size(s.first)
    case Remove(x) => !c.rhlist && x in s.home && Free(c, s, s.home[x], c.Bucket(s.home[x], x))
    case AllocFails(o) =>
      s.Pc(o).At? && s.Pc(o).table + 1 == s.count && MayLack(c, s, s.Pc(o).table, c.Bucket(s.Pc(o).table, o))
    case PassUnseen(o) => s.Pc(o).NoBucket?
  }

  function After(c: Config, s: State, a: Action): State {
    match a
    case Begin(o) => s.SetPc(o, At(s.first))
    case Visit(o) =>
      if !s.Pc(o).At? then s
      else if s.Pc(o).table + 1 < s.count then s.SetPc(o, At(s.Pc(o).table + 1))
      else s.SetPc(o, Holding(s.Pc(o).table))
    case Meet(o, x) =>
      if !s.Pc(o).At? then s
      else if c.rhlist then
        s.(home := (s.home - {x})[o := s.Pc(o).table], under := s.under[o := x]).SetPc(o, Inserted)
      else s.SetPc(o, Refused)
    case Commit(o) => if !s.Pc(o).Holding? then s else s.(home := s.home[o := s.Pc(o).table]).SetPc(o, Inserted)
    case Retry(o) => s.SetPc(o, Start)
    case Attach => s.(count := s.count + 1)
    case Move(x, t) => s.(home := s.home[x := t])
    case NextBucket => s.(cursor := s.cursor + 1)
    case GiveUp => s.(cursor := 0)
    case Advance => s.(first := s.first + 1, cursor := 0)
    case Remove(x) => s.(home := s.home - {x}, pc := s.pc - {x})
    case AllocFails(o) => if !s.Pc(o).At? then s else s.SetPc(o, NoBucket(s.Pc(o).table))
    case PassUnseen(o) =>
      if !s.Pc(o).NoBucket? then s
      else if s.Pc(o).table + 1 < s.count then s.SetPc(o, At(s.Pc(o).table + 1))
      else s.SetPc(o, Start)
  }

  // ----- the invariant -----

  /** No two objects of one key head entries, over the whole chain of tables. */
  ghost predicate OnePerKey(c: Config, s: State) {
    forall x, y :: x in s.home && y in s.home && c.key(x) == c.key(y) ==> x == y
  }

  ghost predicate Housed(c: Config, s: State) {
    && s.first < s.count && (s.first + 1 == s.count ==> s.cursor == 0)
    && forall x :: x in s.home ==>
         s.first <= s.home[x] < s.count && (s.home[x] == s.first ==> c.Bucket(s.first, x) >= s.cursor)
  }

  /** Nothing of the key of `o` lies, or is about to be put, in a table before `t`. */
  ghost predicate CleanBefore(c: Config, s: State, o: nat, t: nat) {
    && (forall x :: x in s.home && c.key(x) == c.key(o) ==> t <= s.home[x])
    && (forall p :: p in s.pc && s.pc[p].Holding? && c.key(p) == c.key(o) ==> t <= s.pc[p].table)
  }

  /** A thread about to insert is alone with its key. */
  ghost predicate Alone(c: Config, s: State, o: nat, t: nat) {
    && s.first <= t < s.count && (t == s.first ==> c.Bucket(t, o) >= s.cursor)
    && (forall x :: x in s.home ==> c.key(x) != c.key(o))
    && (forall p :: p in s.pc && s.pc[p].Holding? && c.key(p) == c.key(o) ==> p == o)
  }

  ghost predicate ThreadOk(c: Config, s: State, o: nat, p: Pc) {
    match p
    case At(t) => t < s.count && o !in s.home && CleanBefore(c, s, o, t)
    case Holding(t) => Alone(c, s, o, t)
    case NoBucket(t) => t < s.count && o !in s.home
    case Inserted => o in s.home || o in s.under.Values
    case _ => true
  }

  ghost predicate Threads(c: Config, s: State) { forall o :: o in s.pc ==> ThreadOk(c, s, o, s.pc[o]) }

  /** Only an object already inserted stands in front of another. */
  ghost predicate Chained(c: Config, s: State) {
    forall o :: o in s.under ==> c.rhlist && s.Pc(o) == Inserted
  }

  ghost predicate Inv(c: Config, s: State) { Housed(c, s) && OnePerKey(c, s) && Threads(c, s) && Chained(c, s) }

  // ----- every step but one -----

  lemma VisitKeeps(c: Config, s: State, o: nat)
    requires Inv(c, s) && Enabled(c, s, Visit(o))
    ensures Inv(c, After(c, s, Visit(o)))
  {
    var t := s.Pc(o).table;
    var s' := After(c, s, Visit(o));
    assert ThreadOk(c, s, o, At(t));
    forall x | x in s.home && c.key(x) == c.key(o) ensures t < s.home[x] {}
    forall p | p in s.pc && s.pc[p].Holding? && c.key(p) == c.key(o) ensures t < s.pc[p].table {
      assert c.Bucket(t, p) == c.Bucket(t, o);
    }
    forall p | p in s'.pc ensures ThreadOk(c, s', p, s'.pc[p]) {
      assert ThreadOk(c, s, p, s.pc[p]);
      if p != o && t + 1 == s.count && s.pc[p].Holding? { assert s.pc[p].table < s.count; }
    }
  }

  lemma MeetThread(c: Config, s: State, o: nat, x: nat, p: nat)
    requires Inv(c, s) && Enabled(c, s, Meet(o, x)) && p in s.pc
    ensures var s' := After(c, s, Meet(o, x)); ThreadOk(c, s', p, s'.pc[p])
  {
    var t := s.Pc(o).table;
    var s' := After(c, s, Meet(o, x));
    assert ThreadOk(c, s, p, s.pc[p]);
    if s'.pc[p] == Inserted && c.rhlist && p != o {
      if p == x {
        assert s'.under[o] == x;
      } else if p !in s.home {
        var q :| q in s.under && s.under[q] == p;
        assert q in s'.under && s'.under[q] == p;
      }
    }
  }

  lemma MeetKeeps(c: Config, s: State, o: nat, x: nat)
    requires Inv(c, s) && Enabled(c, s, Meet(o, x))
    ensures Inv(c, After(c, s, Meet(o, x)))
  {
    var s' := After(c, s, Meet(o, x));
    assert c.Bucket(s.home[x], x) == c.Bucket(s.home[x], o);
    forall p | p in s'.pc ensures ThreadOk(c, s', p, s'.pc[p]) { MeetThread(c, s, o, x, p); }
  }

  lemma CommitKeeps(c: Config, s: State, o: nat)
    requires Inv(c, s) && Enabled(c, s, Commit(o))
    ensures Inv(c, After(c, s, Commit(o)))
  {
    assert Alone(c, s, o, s.Pc(o).table);
    var s' := After(c, s, Commit(o));
    forall p | p in s'.pc ensures ThreadOk(c, s', p, s'.pc[p]) { assert ThreadOk(c, s, p, s.pc[p]); }
  }

  lemma RehashKeeps(c: Config, s: State, a: Action)
    requires Sound(c) && Inv(c, s) && Enabled(c, s, a)
    requires a.Move? || a == NextBucket || a == GiveUp || a == Advance || a == Attach
    ensures Inv(c, After(c, s, a))
  {
    var s' := After(c, s, a);
    forall p | p in s'.pc ensures ThreadOk(c, s', p, s'.pc[p]) {
      assert ThreadOk(c, s, p, s.pc[p]) && c.hash(s.first, c.key(p)) < c.size(s.first);
    }
    if a == Advance {
      forall x | x in s.home ensures s.home[x] != s.first { assert c.hash(s.first, c.key(x)) < c.size(s.first); }
    }
  }

  lemma ThreadStep(c: Config, s: State, a: Action, p: nat)
    requires Inv(c, s) && Enabled(c, s, a) && p in After(c, s, a).pc
    requires a.Begin? || a.Retry? || a.Remove? || a.AllocFails?
    ensures ThreadOk(c, After(c, s, a), p, After(c, s, a).pc[p])
  {
    if p in s.pc { assert ThreadOk(c, s, p, s.pc[p]); }
    assert forall q :: q in s.pc ==> ThreadOk(c, s, q, s.pc[q]);
  }

  lemma ThreadKeeps(c: Config, s: State, a: Action)
    requires Inv(c, s) && Enabled(c, s, a)
    requires a.Begin? || a.Retry? || a.Remove? || a.AllocFails?
    ensures Inv(c, After(c, s, a))
  {
    var s' := After(c, s, a);
    forall p | p in s'.pc ensures ThreadOk(c, s', p, s'.pc[p]) { ThreadStep(c, s, a, p); }
  }

  /** Every step keeps the invariant, except that a thread whose bucket allocation failed is let
      past the table unseen. */
  lemma StepKeeps(c: Config, s: State, a: Action)
    requires Sound(c) && Inv(c, s) && Enabled(c, s, a) && !a.PassUnseen?
    ensures Inv(c, After(c, s, a))
  {
    match a
    case Visit(o) => VisitKeeps(c, s, o);
    case Meet(o, x) => MeetKeeps(c, s, o, x);
    case Commit(o) => CommitKeeps(c, s, o);
    case Move(_, _) => RehashKeeps(c, s, a);
    case NextBucket => RehashKeeps(c, s, a);
    case GiveUp => RehashKeeps(c, s, a);
    case Advance => RehashKeeps(c, s, a);
    case Attach => RehashKeeps(c, s, a);
    case _ => ThreadKeeps(c, s, a);
  }

  /** What a thread that goes on past a bucket it could not get must not leave behind. */
  ghost predicate Harmless(c: Config, s: State, o: nat, t: nat) { t + 1 == s.count || CleanBefore(c, s, o, t + 1) }

  lemma PassUnseenKeeps(c: Config, s: State, o: nat)
    requires Inv(c, s) && Enabled(c, s, PassUnseen(o)) && Harmless(c, s, o, s.Pc(o).table)
    ensures Inv(c, After(c, s, PassUnseen(o)))
  {
    var s' := After(c, s, PassUnseen(o));
    assert ThreadOk(c, s, o, s.Pc(o));
    forall p | p in s'.pc ensures ThreadOk(c, s', p, s'.pc[p]) { assert ThreadOk(c, s, p, s.pc[p]); }
  }

  ghost predicate Runs(c: Config, s: State, run: seq<Action>)
    decreases |run|
  {
    run == [] || (Enabled(c, s, run[0]) && Runs(c, After(c, s, run[0]), run[1..]))
  }

  function Final(c: Config, s: State, run: seq<Action>): State
    decreases |run|
  {
    if run == [] then s else Final(c, After(c, s, run[0]), run[1..])
  }

  /** A thread whose bucket could not be allocated finds no successor table and starts over, or
      passes on while its key is absent and not on its way in. */
  ghost predicate PassesCleanly(c: Config, s: State, a: Action) {
    a.PassUnseen? && s.Pc(a.obj).NoBucket? ==> Harmless(c, s, a.obj, s.Pc(a.obj).table)
  }

  ghost predicate RunsCleanly(c: Config, s: State, run: seq<Action>)
    decreases |run|
  {
    run == [] ||
    (Enabled(c, s, run[0]) && PassesCleanly(c, s, run[0]) && RunsCleanly(c, After(c, s, run[0]), run[1..]))
  }

  /** However insertions, moves, new tables and removals interleave, no two objects of one key
      ever head entries of the chain of tables, unless a failed bucket allocation lets a thread
      past its key; and with `rhlist` an inserted object is a head or hangs below one. */
  lemma {:induction false} OnePerKeyAlways(c: Config, s: State, run: seq<Action>)
    requires Sound(c) && Inv(c, s) && RunsCleanly(c, s, run)
    ensures OnePerKey(c, Final(c, s, run)) && Inv(c, Final(c, s, run))
    decreases |run|
  {
    if run != [] {
      if run[0].PassUnseen? { PassUnseenKeeps(c, s, run[0].obj); } else { StepKeeps(c, s, run[0]); }
      OnePerKeyAlways(c, After(c, s, run[0]), run[1..]);
    }
  }

  // ----- the step that is left -----

  predicate NoneUnseen(run: seq<Action>) { forall a :: a in run ==> !a.PassUnseen? }

  lemma {:induction false} NoneUnseenClean(c: Config, s: State, run: seq<Action>)
    requires Runs(c, s, run) && NoneUnseen(run)
    ensures RunsCleanly(c, s, run)
    decreases |run|
  {
    if run != [] {
      assert run[0] in run;
      NoneUnseenClean(c, After(c, s, run[0]), run[1..]);
    }
  }

  /** The key of `o` is behind it, in the table or held by a thread about to put it there. */
  ghost predicate Behind(c: Config, s: State, o: nat, t: nat) {
    && s.Pc(o) == At(t) && t < s.count && o !in s.home
    && (forall x :: x in s.home && c.key(x) == c.key(o) ==> s.home[x] < t)
    && (forall p :: p in s.pc && s.pc[p].Holding? && c.key(p) == c.key(o) ==> s.pc[p].table < t)
  }

  /** Where no bucket is locked, the thread visits the tables that are left and inserts. */
  lemma {:induction false} VisitRest(c: Config, s: State, o: nat, t: nat, x: nat) returns (run: seq<Action>)
    requires Behind(c, s, o, t) && x in s.home && c.key(x) == c.key(o)
    requires forall p :: p in s.pc ==> !s.pc[p].Holding?
    ensures Runs(c, s, run) && NoneUnseen(run) && !OnePerKey(c, Final(c, s, run))
    decreases s.count - t
  {
    var s1 := After(c, s, Visit(o));
    if t + 1 < s.count {
      run := VisitRest(c, s1, o, t + 1, x);
    } else {
      var s2 := After(c, s1, Commit(o));
      assert o in s2.home && x in s2.home;
      RunsCons(c, s1, Commit(o), []);
      run := [Commit(o)];
    }
    RunsCons(c, s, Visit(o), run);
    run := [Visit(o)] + run;
  }

  ghost function Holders(s: State): set<nat> { set p | p in s.pc && s.pc[p].Holding? }

  /** The key is there, or the thread that holds a bucket for it will put it there. */
  ghost predicate Comes(c: Config, s: State, o: nat) {
    || (exists x :: x in s.home && c.key(x) == c.key(o))
    || (exists p :: p in s.pc && s.pc[p].Holding? && c.key(p) == c.key(o))
  }

  /** First every thread that holds a bucket inserts. */
  lemma {:induction false} InsertsAgain(c: Config, s: State, o: nat, t: nat) returns (run: seq<Action>)
    requires Behind(c, s, o, t) && Comes(c, s, o)
    ensures Runs(c, s, run) && NoneUnseen(run) && !OnePerKey(c, Final(c, s, run))
    decreases |Holders(s)|
  {
    if p :| p in s.pc && s.pc[p].Holding? {
      var s1 := After(c, s, Commit(p));
      assert Holders(s1) == Holders(s) - {p} && p in Holders(s);
      assert p in s1.home && forall x :: x in s.home ==> x in s1.home;
      run := InsertsAgain(c, s1, o, t);
      RunsCons(c, s, Commit(p), run);
      run := [Commit(p)] + run;
    } else {
      var x :| x in s.home && c.key(x) == c.key(o);
      run := VisitRest(c, s, o, t, x);
    }
  }

  lemma HarmfulBehind(c: Config, s: State, o: nat)
    requires Inv(c, s) && Enabled(c, s, PassUnseen(o)) && !Harmless(c, s, o, s.Pc(o).table)
    ensures var s' := After(c, s, PassUnseen(o)); Behind(c, s', o, s.Pc(o).table + 1) && Comes(c, s', o)
  {
    var t := s.Pc(o).table;
    var s' := After(c, s, PassUnseen(o));
    assert forall p :: p in s.pc ==> ThreadOk(c, s, p, s.pc[p]);
    assert forall p :: p in s.pc && s.pc[p].Holding? ==> p in s'.pc && s'.pc[p] == s.pc[p];
  }

  /** Some run without a further such step brings two heads of one key about. */
  ghost predicate Duplicates(c: Config, s: State) {
    exists run :: Runs(c, s, run) && NoneUnseen(run) && !OnePerKey(c, Final(c, s, run))
  }

  /** Letting a thread past can lead to two heads of one key exactly when there is a table left for
      it and one of those passed holds the key, or a bucket is locked there to insert it. */
  lemma PassUnseenExact(c: Config, s: State, o: nat)
    requires Sound(c) && Inv(c, s) && Enabled(c, s, PassUnseen(o))
    ensures var t := s.Pc(o).table;
            Duplicates(c, After(c, s, PassUnseen(o))) <==> t + 1 < s.count && !CleanBefore(c, s, o, t + 1)
  {
    var s' := After(c, s, PassUnseen(o));
    assert ThreadOk(c, s, o, s.Pc(o));
    if Harmless(c, s, o, s.Pc(o).table) {
      PassUnseenKeeps(c, s, o);
      forall run | Runs(c, s', run) && NoneUnseen(run) ensures OnePerKey(c, Final(c, s', run)) {
        NoneUnseenClean(c, s', run);
        OnePerKeyAlways(c, s', run);
      }
    } else {
      HarmfulBehind(c, s, o);
      var run := InsertsAgain(c, s', o, s.Pc(o).table + 1);
    }
  }

  // ----- from the start -----

  /** A fresh table. */
  function Fresh(): State { State(map[], map[], 0, 1, 0, map[]) }

  lemma FreshIsSound(c: Config)
    ensures Inv(c, Fresh())
  {
  }

  /** From a fresh table on there is never more than one head of a key. */
  lemma OnePerKeyFromFresh(c: Config, run: seq<Action>)
    requires Sound(c) && RunsCleanly(c, Fresh(), run)
    ensures OnePerKey(c, Final(c, Fresh(), run))
  {
    FreshIsSound(c);
    OnePerKeyAlways(c, Fresh(), run);
  }

  /** It does happen: while one thread stands at the bucket of a nested table that it could not
      allocate, another inserts the same key there and a further table is attached; the first thread
      then goes on to that table and inserts the key again. */
  lemma AllocationFailureDuplicates(c: Config, a: nat, b: nat)
    requires a != b && c.key(a) == c.key(b) && c.nested(1)
    ensures exists run :: Runs(c, Fresh(), run) && !OnePerKey(c, Final(c, Fresh(), run))
  {
    FirstWaits(c, a);
    OtherInserts(c, a, b);
    FirstInserts(c, a, b);
    var one, two := [Attach, Begin(a), Visit(a), AllocFails(a)], [Begin(b), Visit(b), Visit(b), Commit(b)];
    var three := [Attach, PassUnseen(a), Visit(a), Commit(a)];
    RunsAppend(c, Waiting(a), two, three);
    RunsAppend(c, Fresh(), one, two + three);
    assert Runs(c, Fresh(), one + (two + three));
  }

  /** The thread of `a` waits at the second table without a bucket. */
  function Waiting(a: nat): State { State(map[], map[], 0, 2, 0, map[a := NoBucket(1)]) }

  lemma FirstWaits(c: Config, a: nat)
    requires c.nested(1)
    ensures var run := [Attach, Begin(a), Visit(a), AllocFails(a)];
            Runs(c, Fresh(), run) && Final(c, Fresh(), run) == Waiting(a)
  {
    var s1 := State(map[], map[], 0, 2, 0, map[]);
    var s2 := s1.SetPc(a, At(0));
    var s3 := s1.SetPc(a, At(1));
    assert After(c, s2, Visit(a)).pc == s3.pc && After(c, s3, AllocFails(a)).pc == Waiting(a).pc;
    RunsCons(c, s3, AllocFails(a), []);
    RunsCons(c, s2, Visit(a), [AllocFails(a)]);
    RunsCons(c, s1, Begin(a), [Visit(a), AllocFails(a)]);
    RunsCons(c, Fresh(), Attach, [Begin(a), Visit(a), AllocFails(a)]);
  }

  /** One key inserted meanwhile. */
  function Halfway(a: nat, b: nat): State {
    State(map[b := 1], map[], 0, 2, 0, map[a := NoBucket(1)][b := Inserted])
  }

  lemma OtherInserts(c: Config, a: nat, b: nat)
    requires a != b
    ensures var run := [Begin(b), Visit(b), Visit(b), Commit(b)];
            Runs(c, Waiting(a), run) && Final(c, Waiting(a), run) == Halfway(a, b)
  {
    var s1 := Waiting(a).SetPc(b, At(0));
    var s2 := Waiting(a).SetPc(b, At(1));
    var s3 := Waiting(a).SetPc(b, Holding(1));
    assert After(c, s1, Visit(b)).pc == s2.pc && After(c, s2, Visit(b)).pc == s3.pc;
    assert After(c, s3, Commit(b)).pc == Halfway(a, b).pc;
    RunsCons(c, s3, Commit(b), []);
    RunsCons(c, s2, Visit(b), [Commit(b)]);
    RunsCons(c, s1, Visit(b), [Visit(b), Commit(b)]);
    RunsCons(c, Waiting(a), Begin(b), [Visit(b), Visit(b), Commit(b)]);
  }

  lemma FirstInserts(c: Config, a: nat, b: nat)
    requires a != b && c.key(a) == c.key(b)
    ensures var run := [Attach, PassUnseen(a), Visit(a), Commit(a)];
            Runs(c, Halfway(a, b), run) && !OnePerKey(c, Final(c, Halfway(a, b), run))
  {
    var s1 := Halfway(a, b).(count := 3);
    var s2 := s1.SetPc(a, At(2));
    var s3 := s2.SetPc(a, Holding(2));
    var s4 := After(c, s3, Commit(a));
    assert a in s4.home && b in s4.home;
    RunsCons(c, s3, Commit(a), []);
    RunsCons(c, s2, Visit(a), [Commit(a)]);
    RunsCons(c, s1, PassUnseen(a), [Visit(a), Commit(a)]);
    RunsCons(c, Halfway(a, b), Attach, [PassUnseen(a), Visit(a), Commit(a)]);
  }

  lemma {:induction false} RunsAppend(c: Config, s: State, one: seq<Action>, two: seq<Action>)
    requires Runs(c, s, one) && Runs(c, Final(c, s, one), two)
    ensures Runs(c, s, one + two) && Final(c, s, one + two) == Final(c, Final(c, s, one), two)
    decreases |one|
  {
    if one == [] {
      assert one + two == two;
    } else {
      assert (one + two)[0] == one[0] && (one + two)[1..] == one[1..] + two;
      RunsAppend(c, After(c, s, one[0]), one[1..], two);
    }
  }

  lemma RunsCons(c: Config, s: State, a: Action, run: seq<Action>)
    requires Enabled(c, s, a) && Runs(c, After(c, s, a), run)
    ensures Runs(c, s, [a] + run) && Final(c, s, [a] + run) == Final(c, After(c, s, a), run)
  {
    assert ([a] + run)[0] == a && ([a] + run)[1..] == run;
  }
}
