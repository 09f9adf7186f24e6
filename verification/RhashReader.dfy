/** What the rehash guarantees to everybody else, over whole runs. */
module RhashReader {
  import opened RhashChain
  import opened RhashRehash
  import opened Sequences

  /** Following the links from `p` meets `o`. */
  ghost predicate Reaches(m: Heap, p: Link, o: nat) { exists xs, q :: Seg(m, p, xs, q) && o in xs }

  /** At every moment of every move each object can be reached from the bucket that one of the
      attached tables computes for it. */
  lemma AlwaysReachable(c: Config, s: State, L: Owners, o: nat)
    requires Inv(c, s, L) && o in s.members
    ensures exists t :: s.first <= t < s.count && Reaches(s.mem, s.mem.Head(c.SlotOf(t, o)), o)
  {
    var t := L.table[o];
    var k := c.SlotOf(t, o);
    assert o in Of(L, k) && ChainOk(s, L, k);
    assert Reaches(s.mem, s.mem.Head(k), o);
  }

  /** Between the first and the third write the moved entry can also still be reached from its
      old bucket, and so can every other entry of that bucket. */
  lemma OldBucketIntact(c: Config, s: State, L: Owners, o: nat)
    requires Inv(c, s, L) && s.phase != Idle
    requires o in Of(L, s.Old()) || o == s.phase.entry
    ensures Reaches(s.mem, s.mem.Head(s.Old()), o)
  {
    var k, own := s.Old(), Of(L, s.Old());
    assert ChainOk(s, L, k);
    if s.phase.Published? {
      var e := s.phase.entry;
      SegSnoc(s.mem, s.mem.Head(k), own, e, s.mem.Next(e));
      InPlus(own, e, o);
      assert Seg(s.mem, s.mem.Head(k), own + [e], s.mem.Next(e));
    } else {
      assert o in own by { assert own[|own| - 1] in own; }
    }
  }

  /** The reader is still on its way to `x`: it has not got to the table that owns `x`, or it
      stands before `x` in its chain. */
  ghost predicate Sees(c: Config, s: State, L: Owners, x: nat) {
    x in L.table &&
    match s.reader
    case NotYet => true
    case Found(o) => c.key(o) == c.wanted
    case Missing => false
    case At(t, p) =>
      || t < L.table[x]
      || (t == L.table[x] && Before(Of(L, c.SlotOf(t, x)), p, x))
  }

  ghost predicate Before(xs: seq<nat>, p: Link, x: nat) {
    exists j, i :: 0 <= j <= i < |xs| && p == Node(xs[j]) && xs[i] == x
  }

  lemma BeforeFromHead(s: State, L: Owners, k: Slot, x: nat)
    requires ChainOk(s, L, k) && x in Of(L, k)
    ensures Before(Of(L, k), s.mem.Head(k), x)
  {
    var i :| 0 <= i < |Of(L, k)| && Of(L, k)[i] == x;
    assert s.mem.Head(k) == Node(Of(L, k)[0]);
  }

  lemma BeforeLonger(xs: seq<nat>, e: nat, p: Link, x: nat)
    requires Before(xs, p, x)
    ensures Before([e] + xs, p, x)
  {
    var j, i :| 0 <= j <= i < |xs| && p == Node(xs[j]) && xs[i] == x;
    assert ([e] + xs)[j + 1] == xs[j] && ([e] + xs)[i + 1] == xs[i];
  }

  lemma BeforeShorter(xs: seq<nat>, e: nat, p: Link, x: nat)
    requires Before(xs + [e], p, x) && x != e
    ensures Before(xs, p, x)
  {
    var ys := xs + [e];
    var j, i :| 0 <= j <= i < |ys| && p == Node(ys[j]) && ys[i] == x;
    assert ys[i] == xs[i] && ys[j] == xs[j];
  }

  lemma BeforeNext(s: State, L: Owners, k: Slot, o: nat, x: nat)
    requires ChainOk(s, L, k) && Before(Of(L, k), Node(o), x) && o != x
    ensures Before(Of(L, k), s.mem.Next(o), x)
  {
    var xs := Of(L, k);
    var j, i :| 0 <= j <= i < |xs| && Node(o) == Node(xs[j]) && xs[i] == x;
    SegAt(s.mem, s.mem.Head(k), xs, Stop(s, k), j);
    assert s.mem.Next(o) == Node(xs[j + 1]);
  }

  lemma ReadSees(c: Config, s: State, L: Owners, a: Action, x: nat)
    requires Inv(c, s, L) && Enabled(c, s, a) && (a.ReadStart? || a == ReadStep)
    requires Sees(c, s, L, x) && c.key(x) == c.wanted
    ensures Sees(c, After(c, s, a), L, x)
  {
    var t := L.table[x];
    var k := c.SlotOf(t, x);
    assert x in Of(L, k) && ChainOk(s, L, k);
    BeforeFromHead(s, L, k, x);
    if s.reader.At? && s.reader.pos.Node? && s.reader.table == t && c.key(s.reader.pos.obj) != c.wanted {
      BeforeNext(s, L, k, s.reader.pos.obj, x);
    }
  }

  lemma WriteSees(c: Config, s: State, L: Owners, a: Action, x: nat)
    requires Sound(c) && Inv(c, s, L) && Enabled(c, s, a) && !a.ReadStart? && a != ReadStep
    requires Sees(c, s, L, x)
    ensures Sees(c, After(c, s, a), NextOwners(c, s, L, a), x)
  {
    if s.reader.At? && s.reader.table == L.table[x] {
      var k, p := c.SlotOf(L.table[x], x), s.reader.pos;
      match a
      case Publish =>
        PublishLists(c, s, L);
        if x != s.phase.entry {
          if k == s.Old() { BeforeShorter(Of(NextOwners(c, s, L, a), k), s.phase.entry, p, x); }
          if k == s.phase.dest { BeforeLonger(Of(L, k), s.phase.entry, p, x); }
        }
      case Insert(o) =>
        if k == Target(c, s, o) { BeforeLonger(Of(L, k), o, p, x); }
      case _ =>
    }
    if a.Publish? { PublishLists(c, s, L); }
  }

  /** A run of steps, each enabled where it is taken. */
  ghost predicate Runs(c: Config, s: State, run: seq<Action>)
    decreases |run|
  {
    run == [] || (Enabled(c, s, run[0]) && Runs(c, After(c, s, run[0]), run[1..]))
  }

  function Final(c: Config, s: State, run: seq<Action>): State
    decreases |run|
  {
    if run == [] then s else Final(c, After(c, s, run[0]), run[1..])
  }

  function FinalOwners(c: Config, s: State, L: Owners, run: seq<Action>): Owners
    decreases |run|
  {
    if run == [] then L else FinalOwners(c, After(c, s, run[0]), NextOwners(c, s, L, run[0]), run[1..])
  }

  /** Through any run the table stays sound and keeps every object it had. */
  lemma {:induction false} RunKeeps(c: Config, s: State, L: Owners, run: seq<Action>)
    requires Sound(c) && Inv(c, s, L) && Runs(c, s, run)
    ensures Inv(c, Final(c, s, run), FinalOwners(c, s, L, run))
    ensures s.members <= Final(c, s, run).members
    decreases |run|
  {
    if run != [] {
      StepKeeps(c, s, L, run[0]);
      RunKeeps(c, After(c, s, run[0]), NextOwners(c, s, L, run[0]), run[1..]);
    }
  }

  /** Tried oldest table first, a lookup never misses an object that was in the table when it
      began, however it interleaves with moves, insertions and new tables. */
  lemma {:induction false} ReaderNeverMisses(c: Config, s: State, L: Owners, x: nat, run: seq<Action>)
    requires Sound(c) && Inv(c, s, L) && Runs(c, s, run)
    requires c.key(x) == c.wanted && Sees(c, s, L, x)
    ensures Final(c, s, run).reader != Missing
    ensures Final(c, s, run).reader.Found? ==> c.key(Final(c, s, run).reader.obj) == c.wanted
    decreases |run|
  {
    if run != [] {
      var a := run[0];
      StepKeeps(c, s, L, a);
      if a.ReadStart? || a == ReadStep { ReadSees(c, s, L, a, x); } else { WriteSees(c, s, L, a, x); }
      ReaderNeverMisses(c, After(c, s, a), NextOwners(c, s, L, a), x, run[1..]);
    }
  }

  /** From a lookup that has not begun, for any object in the table. */
  lemma LookupFinds(c: Config, s: State, L: Owners, x: nat, run: seq<Action>)
    requires Sound(c) && Inv(c, s, L) && Runs(c, s, run)
    requires s.reader == NotYet && x in s.members && c.key(x) == c.wanted
    ensures Final(c, s, run).reader != Missing
  {
    ReaderNeverMisses(c, s, L, x, run);
  }

  /** A fresh table. */
  function Fresh(reader: Reader): (State, Owners) {
    (State(Heap(map[], map[]), {}, map[], 0, 1, 0, Idle, reader), Owners(map[], map[]))
  }

  lemma FreshIsSound(c: Config, reader: Reader)
    ensures Inv(c, Fresh(reader).0, Fresh(reader).1)
  {
  }

  /** From a fresh table on, every run keeps the table sound: each object in it can be reached from its
      bucket in some attached table. */
  lemma ReachableFromFresh(c: Config, reader: Reader, run: seq<Action>, o: nat)
    requires Sound(c) && Runs(c, Fresh(reader).0, run) && o in Final(c, Fresh(reader).0, run).members
    ensures var s := Final(c, Fresh(reader).0, run);
            exists t :: s.first <= t < s.count && Reaches(s.mem, s.mem.Head(c.SlotOf(t, o)), o)
  {
    var (s, L) := Fresh(reader);
    FreshIsSound(c, reader);
    RunKeeps(c, s, L, run);
    AlwaysReachable(c, Final(c, s, run), FinalOwners(c, s, L, run), o);
  }

  // ----- a lookup with nothing else going on -----

  /** The next `n` steps of a lookup, or fewer if it ends, with the tables as they are. */
  function ReadOn(c: Config, s: State, r: Reader, n: nat): Reader
    decreases n
  {
    if n == 0 || !r.At? then r else ReadOn(c, s, Read(c, s.(reader := r)), n - 1)
  }

  /** An object of the key is in what is left of the chain, or in a table behind. */
  ghost predicate Ahead(c: Config, s: State, L: Owners, t: nat, rest: seq<nat>) {
    || (exists x :: x in rest && c.key(x) == c.wanted)
    || (exists x :: x in s.members && c.key(x) == c.wanted && x in L.table && L.table[x] > t)
  }

  ghost predicate Result(c: Config, s: State, L: Owners, t: nat, rest: seq<nat>, r: Reader) {
    if Ahead(c, s, L, t, rest) then r.Found? && r.obj in s.members && c.key(r.obj) == c.wanted else r == Missing
  }

  lemma OwnedInside(c: Config, s: State, L: Owners, k: Slot)
    requires Inv(c, s, L)
    ensures forall x :: x in Of(L, k) ==> x in s.members && x in L.table && L.table[x] == k.0
  {
  }

  lemma WantedOwned(c: Config, s: State, L: Owners, x: nat)
    requires Inv(c, s, L) && x in s.members && c.key(x) == c.wanted
    ensures x in L.table && L.table[x] < s.count && x in Of(L, c.Wanted(L.table[x]))
  {
    assert x in Of(L, c.SlotOf(L.table[x], x));
  }

  lemma InNextTable(c: Config, s: State, L: Owners, t: nat)
    requires Inv(c, s, L)
    ensures Ahead(c, s, L, t, []) <==> Ahead(c, s, L, t + 1, Of(L, c.Wanted(t + 1)))
    ensures t + 1 >= s.count ==> !Ahead(c, s, L, t, [])
  {
    OwnedInside(c, s, L, c.Wanted(t + 1));
    forall x | x in s.members && c.key(x) == c.wanted
      ensures x in L.table && L.table[x] < s.count && x in Of(L, c.Wanted(L.table[x]))
    {
      WantedOwned(c, s, L, x);
    }
  }

  lemma AheadNext(c: Config, s: State, L: Owners, t: nat, rest: seq<nat>)
    requires rest != [] && c.key(rest[0]) != c.wanted
    ensures Ahead(c, s, L, t, rest) <==> Ahead(c, s, L, t, rest[1..])
  {
    assert forall x :: x in rest <==> x == rest[0] || x in rest[1..];
  }

  /** What a lookup needs to know of a table it comes to. */
  ghost predicate Readable(c: Config, s: State, L: Owners, t: nat) {
    var k := c.Wanted(t);
    && Seg(s.mem, s.mem.Head(k), Of(L, k), Nulls(t, k.1)) && (forall x :: x in Of(L, k) ==> x in s.members)
    && (Ahead(c, s, L, t, []) <==> Ahead(c, s, L, t + 1, Of(L, c.Wanted(t + 1))))
    && (t + 1 >= s.count ==> !Ahead(c, s, L, t, []))
  }

  lemma AllReadable(c: Config, s: State, L: Owners)
    requires Inv(c, s, L) && s.phase == Idle
    ensures forall t: nat :: Readable(c, s, L, t)
  {
    forall t: nat ensures Readable(c, s, L, t) {
      assert ChainOk(s, L, c.Wanted(t));
      OwnedInside(c, s, L, c.Wanted(t));
      InNextTable(c, s, L, t);
    }
  }

  lemma ReadOnNext(c: Config, s: State, r: Reader, n: nat)
    requires r.At?
    ensures ReadOn(c, s, r, n + 1) == ReadOn(c, s, Read(c, s.(reader := r)), n)
  {
  }

  lemma ReadEnds(c: Config, s: State, r: Reader)
    requires r.At? && !Read(c, s.(reader := r)).At?
    ensures ReadOn(c, s, r, 1) == Read(c, s.(reader := r))
  {
    ReadOnNext(c, s, r, 0);
  }

  lemma {:induction false} ReadsOut(c: Config, s: State, L: Owners, r: Reader, rest: seq<nat>) returns (n: nat)
    requires (forall t: nat :: Readable(c, s, L, t)) && r.At?
    requires Seg(s.mem, r.pos, rest, Nulls(r.table, c.Wanted(r.table).1)) && forall x :: x in rest ==> x in s.members
    ensures Result(c, s, L, r.table, rest, ReadOn(c, s, r, n))
    decreases if r.table < s.count then s.count - r.table else 0, |rest|
  {
    var t := r.table;
    var next := Read(c, s.(reader := r));
    assert Readable(c, s, L, t);
    if rest == [] && t + 1 < s.count {
      assert Readable(c, s, L, t + 1);
      n := ReadsOut(c, s, L, next, Of(L, c.Wanted(t + 1)));
      ReadOnNext(c, s, r, n);
      n := n + 1;
    } else if rest == [] || c.key(rest[0]) == c.wanted {
      ReadEnds(c, s, r);
      assert rest != [] ==> rest[0] in rest;
      n := 1;
    } else {
      HeadTail(rest);
      AheadNext(c, s, L, t, rest);
      n := ReadsOut(c, s, L, next, rest[1..]);
      ReadOnNext(c, s, r, n);
      n := n + 1;
    }
  }

  /** While no move is half done and nothing else happens, a lookup ends: with an object of the key if one is in
      the table, and without one if not. */
  lemma LookupExact(c: Config, s: State, L: Owners, from: nat) returns (n: nat)
    requires Inv(c, s, L) && s.phase == Idle && s.reader == NotYet && from <= s.first
    ensures var r := ReadOn(c, s, After(c, s, ReadStart(from)).reader, n);
            if exists x :: x in s.members && c.key(x) == c.wanted
            then r.Found? && r.obj in s.members && c.key(r.obj) == c.wanted else r == Missing
  {
    var k := c.Wanted(from);
    AllReadable(c, s, L);
    assert Readable(c, s, L, from);
    n := ReadsOut(c, s, L, At(from, s.mem.Head(k)), Of(L, k));
    forall x | x in s.members && c.key(x) == c.wanted ensures x in L.table && (x in Of(L, k) || L.table[x] > from) {
      WantedOwned(c, s, L, x);
      NotBefore(c, s, L, x, from);
    }
  }

  lemma NotBefore(c: Config, s: State, L: Owners, x: nat, from: nat)
    requires Inv(c, s, L) && x in s.members && c.key(x) == c.wanted && from <= s.first
    ensures x in L.table && L.table[x] >= from
  {
    WantedOwned(c, s, L, x);
    assert Of(L, c.Wanted(L.table[x])) != [];
  }
}
