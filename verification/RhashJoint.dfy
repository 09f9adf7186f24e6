/** The threads that insert, on the chains that the rehash moves objects between: both machines in one. */
module RhashJoint {
  import opened RhashChain
  import opened Sequences
  import R = RhashRehash
  import I = RhashInsert
  import Reader = RhashReader

  /** The tables of the insertions, for lookups of one key. */
  function Tables(c: I.Config, wanted: nat): R.Config { R.Config(c.size, c.nested, c.hash, c.key, wanted) }

  /** The chains, who owns what, and where each insertion stands. */
  datatype State = State(r: R.State, L: R.Owners, t: I.State)

  datatype Action = Table(a: R.Action) | Thread(b: I.Action)

  /** The rehash holds neither lock of the bucket. */
  predicate Unlocked(r: R.State, k: Slot) {
    (r.phase != R.Idle ==> k != r.Old()) && (r.phase.Linked? ==> k != r.phase.dest)
  }

  /** The chain of the bucket, from its head to its end marker. */
  ghost predicate Chain(r: R.State, k: Slot, xs: seq<nat>) { Seg(r.mem, r.mem.Head(k), xs, Nulls(k.0, k.1)) }

  /** The key of `o` is in the chain. */
  ghost predicate Shows(c: I.Config, r: R.State, k: Slot, o: nat) {
    exists xs, x :: Chain(r, k, xs) && x in xs && c.key(x) == c.key(o)
  }

  /** The bucket a thread is at. */
  function Here(c: I.Config, t: I.State, o: nat): Slot
    requires t.Pc(o).At?
  {
    (t.Pc(o).table, c.Bucket(t.Pc(o).table, o))
  }

  /** A thread has the lock of the bucket it looks into, and what it finds there is what is linked. */
  ghost predicate CanLook(c: I.Config, s: State, o: nat) {
    s.t.Pc(o).At? && I.Free(c, s.t, Here(c, s.t, o).0, Here(c, s.t, o).1) && Unlocked(s.r, Here(c, s.t, o))
  }

  ghost predicate ThreadEnabled(c: I.Config, s: State, b: I.Action) {
    match b
    case Visit(o) => CanLook(c, s, o) && !Shows(c, s.r, Here(c, s.t, o), o)
    case Meet(o, x) =>
      CanLook(c, s, o) && c.key(x) == c.key(o) && exists xs :: Chain(s.r, Here(c, s.t, o), xs) && x in xs
    case _ =>
      && (b.Begin? || b.Commit? || b.Retry? || b.AllocFails? || b.PassUnseen?)
      && I.Enabled(c, s.t, b) && I.PassesCleanly(c, s.t, b)
  }

  /** Locks are taken, objects linked and locks given back by the threads. The other steps of the chains
      are those of the rehash, of the worker that attaches tables and of a lookup. */
  ghost predicate Enabled(c: I.Config, wanted: nat, s: State, a: Action) {
    match a
    case Table(b) => R.Enabled(Tables(c, wanted), s.r, b) && !b.Lock? && !b.Insert? && !b.Release?
    case Thread(b) => ThreadEnabled(c, s, b)
  }

  /** What a step of the chains is for the threads, if anything. */
  function ForThreads(r: R.State, t: I.State, c: I.Config, a: R.Action): I.State {
    match a
    case Publish => if r.phase.Linked? then I.After(c, t, I.Move(r.phase.entry, r.phase.dest.0)) else t
    case NextBucket => I.After(c, t, I.NextBucket)
    case GiveUp => I.After(c, t, I.GiveUp)
    case Advance => I.After(c, t, I.Advance)
    case Attach => I.After(c, t, I.Attach)
    case _ => t
  }

  /** And what a step of a thread is for the chains. */
  function ForTables(t: I.State, b: I.Action): R.Action {
    match b
    case Visit(o) => if t.Pc(o).At? && t.Pc(o).table + 1 == t.count then R.Lock(o) else R.ReadStep
    case Commit(o) => R.Insert(o)
    case Retry(o) => R.Release(o)
    case _ => R.ReadStep
  }

  /** `ReadStep` stands for no step. */
  function AfterTables(c: R.Config, r: R.State, a: R.Action): R.State { if a == R.ReadStep then r else R.After(c, r, a) }

  function After(c: I.Config, wanted: nat, s: State, a: Action): State {
    var d := Tables(c, wanted);
    match a
    case Table(a) => State(R.After(d, s.r, a), R.NextOwners(d, s.r, s.L, a), ForThreads(s.r, s.t, c, a))
    case Thread(b) =>
      var a := ForTables(s.t, b);
      State(AfterTables(d, s.r, a), R.NextOwners(d, s.r, s.L, a), I.After(c, s.t, b))
  }

  // ----- the invariant -----

  /** Both machines agree: an object heads an entry of the table that owns it, and the locks that threads
      hold are those of the chains. */
  ghost predicate Agree(s: State) {
    && s.t.home == s.L.table && s.t.under == map[]
    && s.t.first == s.r.first && s.t.count == s.r.count && s.t.cursor == s.r.cursor
    && (forall o :: o in s.r.holders ==> o in s.t.pc && s.t.pc[o] == I.Holding(s.r.holders[o]))
    && (forall o :: o in s.t.pc && s.t.pc[o].Holding? ==> o in s.r.holders)
  }

  ghost predicate Inv(c: I.Config, wanted: nat, s: State) {
    R.Inv(Tables(c, wanted), s.r, s.L) && I.Inv(c, s.t) && Agree(s)
  }

  lemma SoundTables(c: I.Config, wanted: nat)
    requires I.Sound(c)
    ensures R.Sound(Tables(c, wanted))
  {
  }

  // ----- steps of the chains -----

  lemma PublishEnabled(c: I.Config, wanted: nat, s: State)
    requires Inv(c, wanted, s) && s.r.phase.Linked?
    ensures I.Enabled(c, s.t, I.Move(s.r.phase.entry, s.r.phase.dest.0))
    ensures s.t.home[s.r.phase.entry := s.r.phase.dest.0] == R.NextOwners(Tables(c, wanted), s.r, s.L, R.Publish).table
  {
    var d, e, k := Tables(c, wanted), s.r.phase.entry, s.r.Old();
    R.PublishEntry(d, s.r, s.L);
    assert k == d.SlotOf(s.L.table[e], e);
    forall p | p in s.t.pc && s.t.pc[p].Holding?
      ensures d.SlotOf(s.t.pc[p].table, p) != k && d.SlotOf(s.t.pc[p].table, p) != s.r.phase.dest
    {
      assert p in s.r.holders && R.HolderOk(d, s.r, p, s.r.holders[p]);
    }
  }

  lemma NextBucketEnabled(c: I.Config, wanted: nat, s: State)
    requires Inv(c, wanted, s) && R.Enabled(Tables(c, wanted), s.r, R.NextBucket)
    ensures I.Enabled(c, s.t, I.NextBucket)
  {
    var d, k := Tables(c, wanted), s.r.Old();
    assert R.ChainOk(s.r, s.L, k);
    forall x | x in s.t.home && s.t.home[x] == s.t.first ensures c.Bucket(s.t.first, x) != s.t.cursor {
      assert x in R.Of(s.L, d.SlotOf(s.L.table[x], x));
    }
    forall p | p in s.t.pc && s.t.pc[p] == I.Holding(s.t.first) ensures c.Bucket(s.t.first, p) != s.t.cursor {
      assert p in s.r.holders && d.SlotOf(s.r.holders[p], p) != k;
    }
  }

  lemma TableKeeps(c: I.Config, wanted: nat, s: State, a: R.Action)
    requires I.Sound(c) && Inv(c, wanted, s) && Enabled(c, wanted, s, Table(a))
    ensures Inv(c, wanted, After(c, wanted, s, Table(a)))
  {
    var d := Tables(c, wanted);
    SoundTables(c, wanted);
    R.StepKeeps(d, s.r, s.L, a);
    match a
    case Publish =>
      PublishEnabled(c, wanted, s);
      I.StepKeeps(c, s.t, I.Move(s.r.phase.entry, s.r.phase.dest.0));
    case NextBucket =>
      NextBucketEnabled(c, wanted, s);
      I.StepKeeps(c, s.t, I.NextBucket);
    case GiveUp => I.StepKeeps(c, s.t, I.GiveUp);
    case Advance => I.StepKeeps(c, s.t, I.Advance);
    case Attach => I.StepKeeps(c, s.t, I.Attach);
    case _ =>
  }

  // ----- steps of the threads -----

  /** Under its lock a bucket's chain is what the bucket owns. */
  lemma ChainIsOwned(d: R.Config, r: R.State, L: R.Owners, k: Slot, xs: seq<nat>)
    requires R.Inv(d, r, L) && Unlocked(r, k)
    ensures Chain(r, k, xs) <==> xs == R.Of(L, k)
  {
    assert R.ChainOk(r, L, k);
    if Chain(r, k, xs) { SegUnique(r.mem, r.mem.Head(k), xs, Nulls(k.0, k.1), R.Of(L, k), R.Stop(r, k)); }
  }

  /** So a thread finds its key in the chain if and only if an object of it heads an entry of the table. */
  lemma ShowsExact(c: I.Config, wanted: nat, s: State, o: nat)
    requires Inv(c, wanted, s) && CanLook(c, s, o)
    ensures Shows(c, s.r, Here(c, s.t, o), o) <==> I.Present(c, s.t, s.t.Pc(o).table, o)
  {
    var d, k := Tables(c, wanted), Here(c, s.t, o);
    ChainIsOwned(d, s.r, s.L, k, R.Of(s.L, k));
    if x :| x in s.t.home && s.t.home[x] == k.0 && c.key(x) == c.key(o) {
      assert x in R.Of(s.L, d.SlotOf(s.L.table[x], x));
    }
    if Shows(c, s.r, k, o) {
      var xs, x :| Chain(s.r, k, xs) && x in xs && c.key(x) == c.key(o);
      ChainIsOwned(d, s.r, s.L, k, xs);
      assert k == d.SlotOf(s.L.table[x], x);
    }
  }

  lemma MeetEnabled(c: I.Config, wanted: nat, s: State, o: nat, x: nat)
    requires Inv(c, wanted, s) && ThreadEnabled(c, s, I.Meet(o, x))
    ensures I.Enabled(c, s.t, I.Meet(o, x))
  {
    var d, k := Tables(c, wanted), Here(c, s.t, o);
    var xs :| Chain(s.r, k, xs) && x in xs;
    ChainIsOwned(d, s.r, s.L, k, xs);
    assert k == d.SlotOf(s.L.table[x], x);
  }

  lemma LockEnabled(c: I.Config, wanted: nat, s: State, o: nat)
    requires Inv(c, wanted, s) && ThreadEnabled(c, s, I.Visit(o)) && s.t.Pc(o).table + 1 == s.t.count
    ensures R.Enabled(Tables(c, wanted), s.r, R.Lock(o)) && s.r.Last() == s.t.Pc(o).table
  {
    var d := Tables(c, wanted);
    assert I.ThreadOk(c, s.t, o, s.t.pc[o]);
    forall p | p in s.r.holders ensures d.SlotOf(s.r.holders[p], p) != Here(c, s.t, o) {
      assert s.t.pc[p] == I.Holding(s.r.holders[p]);
    }
  }

  lemma ThreadEnabledThere(c: I.Config, wanted: nat, s: State, b: I.Action)
    requires Inv(c, wanted, s) && ThreadEnabled(c, s, b)
    ensures I.Enabled(c, s.t, b)
    ensures ForTables(s.t, b) != R.ReadStep ==> R.Enabled(Tables(c, wanted), s.r, ForTables(s.t, b))
  {
    match b
    case Visit(o) =>
      ShowsExact(c, wanted, s, o);
      if s.t.Pc(o).table + 1 == s.t.count { LockEnabled(c, wanted, s, o); }
    case Meet(o, x) => MeetEnabled(c, wanted, s, o, x);
    case _ =>
  }

  lemma ThreadKeepsThreads(c: I.Config, s: State, b: I.Action)
    requires I.Sound(c) && I.Inv(c, s.t) && I.Enabled(c, s.t, b) && I.PassesCleanly(c, s.t, b)
    ensures I.Inv(c, I.After(c, s.t, b))
  {
    if b.PassUnseen? { I.PassUnseenKeeps(c, s.t, b.obj); } else { I.StepKeeps(c, s.t, b); }
  }

  /** A step of a thread that has no lock and gets none. */
  lemma SetAgrees(s: State, o: nat, p: I.Pc)
    requires Agree(s) && !s.t.Pc(o).Holding? && !p.Holding?
    ensures Agree(s.(t := s.t.SetPc(o, p)))
  {
  }

  lemma LockAgrees(s: State, o: nat, t: nat)
    requires Agree(s) && s.r.Last() == t
    ensures Agree(s.(r := s.r.(holders := s.r.holders[o := t]), t := s.t.SetPc(o, I.Holding(t))))
  {
  }

  lemma UnlockAgrees(s: State, o: nat, p: I.Pc)
    requires Agree(s) && !p.Holding?
    ensures Agree(s.(r := s.r.(holders := s.r.holders - {o}), t := s.t.SetPc(o, p)))
  {
  }

  lemma CommitAgrees(c: I.Config, wanted: nat, s: State, o: nat)
    requires Agree(s) && s.t.Pc(o).Holding?
    ensures Agree(After(c, wanted, s, Thread(I.Commit(o))))
  {
    assert s.r.holders[o] == s.t.Pc(o).table;
  }

  lemma VisitAgrees(c: I.Config, wanted: nat, s: State, o: nat)
    requires Agree(s) && s.t.Pc(o).At? && (s.t.Pc(o).table + 1 == s.t.count ==> s.r.Last() == s.t.Pc(o).table)
    requires s.t.Pc(o).table < s.t.count
    ensures Agree(After(c, wanted, s, Thread(I.Visit(o))))
  {
    var t := s.t.Pc(o).table;
    if t + 1 == s.t.count { LockAgrees(s, o, t); } else { SetAgrees(s, o, I.At(t + 1)); }
  }

  lemma ThreadAgrees(c: I.Config, wanted: nat, s: State, b: I.Action)
    requires !c.rhlist && Inv(c, wanted, s) && ThreadEnabled(c, s, b) && I.Enabled(c, s.t, b)
    ensures Agree(After(c, wanted, s, Thread(b)))
  {
    match b
    case Visit(o) =>
      if s.t.Pc(o).table + 1 == s.t.count { LockEnabled(c, wanted, s, o); }
      assert I.ThreadOk(c, s.t, o, s.t.pc[o]);
      VisitAgrees(c, wanted, s, o);
    case Commit(o) => CommitAgrees(c, wanted, s, o);
    case Retry(o) => UnlockAgrees(s, o, I.Start);
    case _ => OtherAgrees(c, wanted, s, b);
  }

  lemma OtherAgrees(c: I.Config, wanted: nat, s: State, b: I.Action)
    requires !c.rhlist && Agree(s) && I.Enabled(c, s.t, b)
    requires b.Begin? || b.Meet? || b.AllocFails? || b.PassUnseen?
    ensures Agree(After(c, wanted, s, Thread(b)))
  {
    match b
    case Begin(o) => SetAgrees(s, o, I.At(s.t.first));
    case Meet(o, _) => SetAgrees(s, o, I.Refused);
    case AllocFails(o) => SetAgrees(s, o, I.NoBucket(s.t.Pc(o).table));
    case PassUnseen(o) =>
      var t := s.t.Pc(o).table;
      SetAgrees(s, o, if t + 1 < s.t.count then I.At(t + 1) else I.Start);
  }

  lemma ThreadKeeps(c: I.Config, wanted: nat, s: State, b: I.Action)
    requires !c.rhlist && I.Sound(c) && Inv(c, wanted, s) && ThreadEnabled(c, s, b)
    ensures Inv(c, wanted, After(c, wanted, s, Thread(b)))
  {
    SoundTables(c, wanted);
    ThreadEnabledThere(c, wanted, s, b);
    ThreadKeepsThreads(c, s, b);
    ThreadAgrees(c, wanted, s, b);
    if ForTables(s.t, b) != R.ReadStep { R.StepKeeps(Tables(c, wanted), s.r, s.L, ForTables(s.t, b)); }
  }

  /** Every step of either keeps both sound and in agreement. */
  lemma StepKeeps(c: I.Config, wanted: nat, s: State, a: Action)
    requires !c.rhlist && I.Sound(c) && Inv(c, wanted, s) && Enabled(c, wanted, s, a)
    ensures Inv(c, wanted, After(c, wanted, s, a))
  {
    match a
    case Table(b) => TableKeeps(c, wanted, s, b);
    case Thread(b) => ThreadKeeps(c, wanted, s, b);
  }

  // ----- whole runs -----

  ghost predicate Runs(c: I.Config, wanted: nat, s: State, run: seq<Action>)
    decreases |run|
  {
    run == [] || (Enabled(c, wanted, s, run[0]) && Runs(c, wanted, After(c, wanted, s, run[0]), run[1..]))
  }

  function Final(c: I.Config, wanted: nat, s: State, run: seq<Action>): State
    decreases |run|
  {
    if run == [] then s else Final(c, wanted, After(c, wanted, s, run[0]), run[1..])
  }

  lemma {:induction false} RunKeeps(c: I.Config, wanted: nat, s: State, run: seq<Action>)
    requires !c.rhlist && I.Sound(c) && Inv(c, wanted, s) && Runs(c, wanted, s, run)
    ensures Inv(c, wanted, Final(c, wanted, s, run))
    decreases |run|
  {
    if run != [] {
      StepKeeps(c, wanted, s, run[0]);
      RunKeeps(c, wanted, After(c, wanted, s, run[0]), run[1..]);
    }
  }

  /** A fresh table, and nobody inserting. */
  function Fresh(reader: R.Reader): State {
    var (r, L) := Reader.Fresh(reader);
    State(r, L, I.Fresh())
  }

  /** The links lead from objects that are in the table to others that are. */
  lemma LinksInside(d: R.Config, r: R.State, L: R.Owners, k: Slot, i: nat)
    requires R.Inv(d, r, L) && i <= |R.Of(L, k)|
    ensures var p := if i == 0 then r.mem.Head(k) else r.mem.Next(R.Of(L, k)[i - 1]);
            p.Node? ==> p.obj in r.members
  {
    var xs := R.Of(L, k);
    assert R.ChainOk(r, L, k);
    if i > 0 { SegAt(r.mem, r.mem.Head(k), xs, R.Stop(r, k), i - 1); }
    if i < |xs| {
      assert xs[i] in xs;
    } else {
      StopInside(d, r, L, k);
    }
  }

  lemma StopInside(d: R.Config, r: R.State, L: R.Owners, k: Slot)
    requires R.Inv(d, r, L)
    ensures R.Stop(r, k).Node? ==> R.Stop(r, k).obj in r.members
  {
    if r.phase.Linked? && k == r.Old() {
      var ys := R.Of(L, r.phase.dest);
      assert R.ChainOk(r, L, r.phase.dest);
      if ys != [] { assert ys[0] in ys; }
    } else if r.phase.Published? && k == r.Old() {
      assert r.phase.entry in R.Of(L, r.phase.dest);
    }
  }

  lemma NextInside(d: R.Config, r: R.State, L: R.Owners, o: nat)
    requires R.Inv(d, r, L) && o in r.members
    ensures r.mem.Next(o).Node? ==> r.mem.Next(o).obj in r.members
  {
    var own := R.Of(L, d.SlotOf(L.table[o], o));
    var i :| 0 <= i < |own| && own[i] == o;
    LinksInside(d, r, L, d.SlotOf(L.table[o], o), i + 1);
  }

  /** A path along links that never leave a set. */
  lemma {:induction false} PathInside(m: Heap, inside: set<nat>, p: Link, xs: seq<nat>, q: Link, x: nat)
    requires forall o: nat :: o in inside && m.Next(o).Node? ==> m.Next(o).obj in inside
    requires Seg(m, p, xs, q) && x in xs && (p.Node? ==> p.obj in inside)
    ensures x in inside
    decreases |xs|
  {
    if x != xs[0] {
      HeadTail(xs);
      PathInside(m, inside, m.Next(xs[0]), xs[1..], q, x);
    }
  }

  /** In every run from a fresh table, at every single pointer write of the rehash: two objects of one key
      that can both be reached, from whatever buckets of whatever tables, are the same object. */
  lemma OnePerKeyReachable(c: I.Config, wanted: nat, reader: R.Reader, run: seq<Action>, j: Slot, k: Slot, x: nat, y: nat)
    requires !c.rhlist && I.Sound(c) && Runs(c, wanted, Fresh(reader), run)
    requires var m := Final(c, wanted, Fresh(reader), run).r.mem;
             Reader.Reaches(m, m.Head(j), x) && Reader.Reaches(m, m.Head(k), y) && c.key(x) == c.key(y)
    ensures x == y
  {
    FreshSound(c, wanted, reader);
    RunKeeps(c, wanted, Fresh(reader), run);
    var s := Final(c, wanted, Fresh(reader), run);
    ReachedInside(c, wanted, s, j, x);
    ReachedInside(c, wanted, s, k, y);
  }

  lemma FreshSound(c: I.Config, wanted: nat, reader: R.Reader)
    ensures Inv(c, wanted, Fresh(reader))
  {
    Reader.FreshIsSound(Tables(c, wanted), reader);
    I.FreshIsSound(c);
  }

  lemma ReachedInside(c: I.Config, wanted: nat, s: State, k: Slot, x: nat)
    requires Inv(c, wanted, s) && Reader.Reaches(s.r.mem, s.r.mem.Head(k), x)
    ensures x in s.t.home
  {
    var xs, q :| Seg(s.r.mem, s.r.mem.Head(k), xs, q) && x in xs;
    LinksInside(Tables(c, wanted), s.r, s.L, k, 0);
    forall o | o in s.r.members && s.r.mem.Next(o).Node? ensures s.r.mem.Next(o).obj in s.r.members {
      NextInside(Tables(c, wanted), s.r, s.L, o);
    }
    PathInside(s.r.mem, s.r.members, s.r.mem.Head(k), xs, q, x);
  }
}
