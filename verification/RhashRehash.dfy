/** Moving objects to a new table while readers and inserters run: every interleaving of the
    single pointer writes of `rhashtable_rehash_one` with insertions, table attachments and a
    lookup. */
module RhashRehash {
  import opened RhashChain
  import opened Wrappers
  import opened Sequences

  /** The tables in the order they are attached: their sizes, whether their buckets are nested,
      their hash functions; the key of each object; and the key a reader looks up. */
  datatype Config = Config(size: nat -> nat, nested: nat -> bool, hash: (nat, nat) -> nat, key: nat -> nat, wanted: nat)
  {
    function SlotOf(t: nat, o: nat): Slot { (t, hash(t, key(o))) }
    function Wanted(t: nat): Slot { (t, hash(t, wanted)) }
  }

  ghost predicate Sound(c: Config) { forall t: nat, k: nat {:trigger c.hash(t, k)} :: c.hash(t, k) < c.size(t) }

  /** Where `rhashtable_rehash_one` stands: nothing begun, after `entry->next` is set, after the
      new bucket points to the entry. */
  datatype Phase =
    | Idle
    | Linked(entry: nat, pprev: Option<nat>, dest: Slot, after: Link)
    | Published(entry: nat, pprev: Option<nat>, dest: Slot, after: Link)

  /** `__rhashtable_lookup`: at a link of a table, or done. */
  datatype Reader = NotYet | At(table: nat, pos: Link) | Found(obj: nat) | Missing

  /** `first` is `ht->tbl`; tables up to `count` are attached; `cursor` is `old_hash`. An object about to
      be inserted holds the lock of its bucket in the table that had no successor when that was locked. */
  datatype State = State(mem: Heap, members: set<nat>, holders: map<nat, nat>, first: nat, count: nat, cursor: nat,
                         phase: Phase, reader: Reader)
  {
    function Old(): Slot { (first, cursor) }
    function Last(): nat { if count == 0 then 0 else count - 1 }
  }

  /** A move goes to the table `to` that was the last when it was chosen; a lookup starts in the table
      `from` that was the first when it read `ht->tbl`. Both may be overtaken. */
  datatype Action =
    | Link(path: seq<nat>, entry: nat, to: nat)
    | Publish
    | Unlink
    | NextBucket
    | GiveUp
    | Advance
    | Lock(obj: nat)
    | Insert(obj: nat)
    | Release(obj: nat)
    | Attach
    | ReadStart(from: nat)
    | ReadStep

  /** No insertion holds the lock of the bucket. */
  ghost predicate Free(c: Config, s: State, k: Slot) {
    forall o :: o in s.holders ==> c.SlotOf(s.holders[o], o) != k
  }

  /** The bucket whose lock an object holds. */
  function Target(c: Config, s: State, o: nat): Slot { c.SlotOf(if o in s.holders then s.holders[o] else 0, o) }

  ghost predicate Enabled(c: Config, s: State, a: Action) {
    match a
    case Link(path, e, to) =>
      && s.phase == Idle && s.first < to < s.count && s.cursor < c.size(s.first) && !c.nested(to)
      && Seg(s.mem, s.mem.Head(s.Old()), path + [e], Nulls(s.first, s.cursor))
      && Free(c, s, s.Old()) && Free(c, s, c.SlotOf(to, e))
    case Publish => s.phase.Linked?
    case Unlink => s.phase.Published?
    case NextBucket =>
      && s.phase == Idle && s.first + 1 < s.count && s.cursor < c.size(s.first) && s.mem.Head(s.Old()).Nulls?
      && Free(c, s, s.Old())
    case GiveUp => s.phase == Idle && s.first + 1 < s.count && c.nested(s.Last())
    case Advance => s.phase == Idle && s.first + 1 < s.count && s.cursor == c.size(s.first)
    case Lock(o) =>
      && o !in s.members && o !in s.holders && s.count > 0
      && Free(c, s, c.SlotOf(s.Last(), o)) && !(s.phase.Linked? && s.phase.dest == c.SlotOf(s.Last(), o))
    case Insert(o) => o in s.holders
    case Release(o) => o in s.holders
    case Attach => true
    case ReadStart(t) => s.reader == NotYet && t <= s.first
    case ReadStep => s.reader.At?
  }

  function Read(c: Config, s: State): Reader
    requires s.reader.At?
  {
    var t := s.reader.table;
    match s.reader.pos
    case Node(o) => if c.key(o) == c.wanted then Found(o) else At(t, s.mem.Next(o))
    case Nulls(x, y) =>
      if (x, y) != c.Wanted(t) then At(t, s.mem.Head(c.Wanted(t)))
      else if t + 1 < s.count then At(t + 1, s.mem.Head(c.Wanted(t + 1)))
      else Missing
  }

  function After(c: Config, s: State, a: Action): State {
    match a
    case Link(path, e, to) =>
      var dest := c.SlotOf(to, e);
      var pprev := if path == [] then None else Some(path[|path| - 1]);
      s.(mem := s.mem.SetNext(e, s.mem.Head(dest)), phase := Linked(e, pprev, dest, s.mem.Next(e)))
    case Publish =>
      if !s.phase.Linked? then s else
      s.(mem := s.mem.SetHead(s.phase.dest, Node(s.phase.entry)),
         phase := Published(s.phase.entry, s.phase.pprev, s.phase.dest, s.phase.after))
    case Unlink =>
      if !s.phase.Published? then s else
      s.(mem := if s.phase.pprev.Some? then s.mem.SetNext(s.phase.pprev.value, s.phase.after)
                else s.mem.SetHead(s.Old(), s.phase.after),
         phase := Idle)
    case NextBucket => s.(cursor := s.cursor + 1)
    case GiveUp => s.(cursor := 0)
    case Advance => s.(first := s.first + 1, cursor := 0)
    case Lock(o) => s.(holders := s.holders[o := s.Last()])
    case Insert(o) =>
      var k := Target(c, s, o);
      s.(mem := s.mem.SetNext(o, s.mem.Head(k)).SetHead(k, Node(o)), members := s.members + {o},
         holders := s.holders - {o})
    case Release(o) => s.(holders := s.holders - {o})
    case Attach => s.(count := s.count + 1)
    case ReadStart(t) => s.(reader := At(t, s.mem.Head(c.Wanted(t))))
    case ReadStep => if s.reader.At? then s.(reader := Read(c, s)) else s
  }

  // ----- the invariant -----

  /** Which objects each bucket owns, in chain order, and the table that owns each object. */
  datatype Owners = Owners(lists: map<Slot, seq<nat>>, table: map<nat, nat>)

  function Of(L: Owners, k: Slot): seq<nat> { if k in L.lists then L.lists[k] else [] }

  /** Where the chain of a bucket leaves the objects it owns. */
  function Stop(s: State, k: Slot): Link {
    if s.phase.Linked? && k == s.Old() then s.mem.Head(s.phase.dest)
    else if s.phase.Published? && k == s.Old() then Node(s.phase.entry)
    else Nulls(k.0, k.1)
  }

  ghost predicate ChainOk(s: State, L: Owners, k: Slot) { Seg(s.mem, s.mem.Head(k), Of(L, k), Stop(s, k)) }

  ghost predicate Chains(s: State, L: Owners) { forall k: Slot :: ChainOk(s, L, k) }

  /** Whatever a bucket owns, its table owns and its hash function puts there. */
  ghost predicate Housed(c: Config, L: Owners) {
    forall k: Slot, o :: o in Of(L, k) ==> o in L.table && k == c.SlotOf(L.table[o], o)
  }

  ghost predicate Kept(c: Config, L: Owners) {
    forall o :: o in L.table ==> o in Of(L, c.SlotOf(L.table[o], o))
  }

  ghost predicate Distinct(L: Owners) { forall k: Slot :: NoDup(Of(L, k)) }

  /** Every object in the table is owned once, by the bucket that its table's hash function gives. */
  ghost predicate Owned(c: Config, s: State, L: Owners) {
    L.table.Keys == s.members && Housed(c, L) && Kept(c, L) && Distinct(L)
  }

  /** Only attached tables own objects, and the first one only in buckets still to be moved. */
  ghost predicate Live(s: State, L: Owners) {
    forall k: Slot :: Of(L, k) != [] ==> s.first <= k.0 < s.count && (k.0 == s.first ==> k.1 >= s.cursor)
  }

  ghost predicate PhaseOk(c: Config, s: State, L: Owners) {
    var own := Of(L, s.Old());
    match s.phase
    case Idle => true
    case Linked(e, pprev, dest, after) =>
      && s.first < dest.0 < s.count && !c.nested(dest.0) && dest == c.SlotOf(dest.0, e) && after == Nulls(s.first, s.cursor)
      && own != [] && own[|own| - 1] == e
      && pprev == (if |own| == 1 then None else Some(own[|own| - 2]))
    case Published(e, pprev, dest, after) =>
      && s.first < dest.0 < s.count && e in Of(L, dest) && after == Nulls(s.first, s.cursor)
      && pprev == (if own == [] then None else Some(own[|own| - 1]))
  }

  /** What is locked has not been moved yet and is not being moved. */
  ghost predicate HolderOk(c: Config, s: State, o: nat, t: nat) {
    && o !in s.members && s.first <= t < s.count && (t == s.first ==> c.SlotOf(t, o).1 >= s.cursor)
    && (s.phase != Idle ==> c.SlotOf(t, o) != s.Old()) && (s.phase.Linked? ==> c.SlotOf(t, o) != s.phase.dest)
  }

  ghost predicate Locked(c: Config, s: State) { forall o :: o in s.holders ==> HolderOk(c, s, o, s.holders[o]) }

  ghost predicate Inv(c: Config, s: State, L: Owners) {
    && s.first < s.count && (s.first + 1 == s.count ==> s.cursor == 0)
    && Chains(s, L) && Owned(c, s, L) && Live(s, L) && PhaseOk(c, s, L) && Locked(c, s)
  }

  /** Ownership changes with the second write of a move, and with an insertion. */
  function NextOwners(c: Config, s: State, L: Owners, a: Action): Owners {
    match a
    case Publish =>
      var own := Of(L, s.Old());
      if !s.phase.Linked? || own == [] then L
      else Owners(L.lists[s.Old() := own[..|own| - 1]][s.phase.dest := [s.phase.entry] + Of(L, s.phase.dest)],
                  L.table[s.phase.entry := s.phase.dest.0])
    case Insert(o) =>
      var k := Target(c, s, o);
      Owners(L.lists[k := [o] + Of(L, k)], L.table[o := k.0])
    case _ => L
  }

  // ----- the three writes -----

  /** A write to the link of one object leaves every chain alone that does not own it. */
  lemma OtherChain(c: Config, s: State, L: Owners, m: Heap, k: Slot, o: nat)
    requires Owned(c, s, L) && ChainOk(s, L, k) && o !in Of(L, k)
    requires forall x: nat :: x != o ==> m.Next(x) == s.mem.Next(x)
    ensures Seg(m, s.mem.Head(k), Of(L, k), Stop(s, k))
  {
    forall i | 0 <= i < |Of(L, k)| ensures m.Next(Of(L, k)[i]) == s.mem.Next(Of(L, k)[i]) {
      assert Of(L, k)[i] in Of(L, k);
    }
    SegFrame(s.mem, m, s.mem.Head(k), Of(L, k), Stop(s, k));
  }

  /** An object owned by one bucket is owned by no other. */
  lemma OneOwner(c: Config, s: State, L: Owners, k: Slot, j: Slot, o: nat)
    requires Owned(c, s, L) && o in Of(L, k) && k != j
    ensures o !in Of(L, j)
  {
    assert k == c.SlotOf(L.table[o], o);
  }

  lemma NoDupLast(xs: seq<nat>, e: nat)
    requires NoDup(xs + [e])
    ensures e !in xs && NoDup(xs)
  {
    forall i | 0 <= i < |xs| ensures xs[i] != e { assert (xs + [e])[i] == xs[i] && (xs + [e])[|xs|] == e; }
    forall i, j | 0 <= i < j < |xs| ensures xs[i] != xs[j] { assert (xs + [e])[i] == xs[i] && (xs + [e])[j] == xs[j]; }
  }

  lemma LinkPath(c: Config, s: State, L: Owners, path: seq<nat>, e: nat, to: nat)
    requires Inv(c, s, L) && Enabled(c, s, Link(path, e, to))
    ensures Of(L, s.Old()) == path + [e] && e !in path && s.mem.Next(e) == Nulls(s.first, s.cursor)
    ensures e in Of(L, s.Old())
  {
    var k := s.Old();
    assert ChainOk(s, L, k) && NoDup(Of(L, k));
    SegUnique(s.mem, s.mem.Head(k), path + [e], Nulls(k.0, k.1), Of(L, k), Stop(s, k));
    NoDupLast(path, e);
    SegSnoc(s.mem, s.mem.Head(k), path, e, Nulls(k.0, k.1));
    assert (path + [e])[|path|] == e;
  }

  lemma LinkChain(c: Config, s: State, L: Owners, path: seq<nat>, e: nat, to: nat, j: Slot)
    requires Inv(c, s, L) && Enabled(c, s, Link(path, e, to))
    ensures ChainOk(After(c, s, Link(path, e, to)), L, j)
  {
    var k, s' := s.Old(), After(c, s, Link(path, e, to));
    LinkPath(c, s, L, path, e, to);
    assert ChainOk(s, L, j);
    if j == k {
      SegNewEnd(s.mem, s'.mem, s.mem.Head(k), path, e, Stop(s, k), Stop(s', k));
    } else {
      OneOwner(c, s, L, k, j, e);
      OtherChain(c, s, L, s'.mem, j, e);
    }
  }

  lemma LinkKeeps(c: Config, s: State, L: Owners, path: seq<nat>, e: nat, to: nat)
    requires Sound(c) && Inv(c, s, L) && Enabled(c, s, Link(path, e, to))
    ensures Inv(c, After(c, s, Link(path, e, to)), L)
  {
    var s' := After(c, s, Link(path, e, to));
    LinkPath(c, s, L, path, e, to);
    forall j: Slot ensures ChainOk(s', L, j) { LinkChain(c, s, L, path, e, to, j); }
  }

  lemma {:induction false} InPlus(xs: seq<nat>, e: nat, o: nat)
    ensures o in [e] + xs <==> o == e || o in xs
    ensures o in xs + [e] <==> o == e || o in xs
    ensures ([e] + xs)[0] == e && ([e] + xs)[1..] == xs
    ensures NoDup(xs) && e !in xs ==> NoDup([e] + xs)
  {
    if o in xs {
      var i :| 0 <= i < |xs| && xs[i] == o;
      assert ([e] + xs)[i + 1] == o && (xs + [e])[i] == o;
    }
    assert ([e] + xs)[0] == e && (xs + [e])[|xs|] == e;
    if NoDup(xs) && e !in xs {
      forall i, j | 0 <= i < j < |[e] + xs| ensures ([e] + xs)[i] != ([e] + xs)[j] {
        assert ([e] + xs)[j] == xs[j - 1] && xs[j - 1] in xs;
      }
    }
  }

  lemma LastOut(own: seq<nat>)
    requires own != [] && NoDup(own)
    ensures var init, e := own[..|own| - 1], own[|own| - 1];
            own == init + [e] && e in own && e !in init && NoDup(init) && ([e] + init)[1..] == init
  {
    var init, e := own[..|own| - 1], own[|own| - 1];
    NoDupLast(init, e);
  }

  /** The entry on its way is the last of its bucket and owned by no other. */
  lemma PublishEntry(c: Config, s: State, L: Owners)
    requires Inv(c, s, L) && s.phase.Linked?
    ensures var k, e := s.Old(), s.phase.entry;
            && e in Of(L, k) && e in L.table && Of(L, k) != [] && Of(L, k)[|Of(L, k)| - 1] == e
            && forall j: Slot :: j != k ==> e !in Of(L, j)
  {
    var k, e := s.Old(), s.phase.entry;
    LastOut(Of(L, k));
    forall j: Slot | j != k ensures e !in Of(L, j) { OneOwner(c, s, L, k, j, e); }
  }

  /** What each bucket owns after the second write. */
  lemma PublishLists(c: Config, s: State, L: Owners)
    requires Inv(c, s, L) && s.phase.Linked?
    ensures var k, d, e := s.Old(), s.phase.dest, s.phase.entry;
            var L' := NextOwners(c, s, L, Publish);
            && k != d && L.table.Keys == L'.table.Keys
            && Of(L, k) == Of(L', k) + [e] && e !in Of(L', k) && NoDup(Of(L', k)) && e !in Of(L, d)
            && Of(L', d) == [e] + Of(L, d)
            && forall j: Slot :: j != k && j != d ==> Of(L', j) == Of(L, j) && e !in Of(L, j)
  {
    PublishEntry(c, s, L);
    LastOut(Of(L, s.Old()));
  }

  lemma PublishOwned(c: Config, s: State, L: Owners)
    requires Inv(c, s, L) && s.phase.Linked?
    ensures Owned(c, After(c, s, Publish), NextOwners(c, s, L, Publish))
  {
    var k, d, e := s.Old(), s.phase.dest, s.phase.entry;
    var L' := NextOwners(c, s, L, Publish);
    PublishLists(c, s, L);
    forall j: Slot, o | o in Of(L', j) ensures o in L'.table && j == c.SlotOf(L'.table[o], o) {
      InPlus(Of(L', k), e, o);
      InPlus(Of(L, d), e, o);
    }
    forall o | o in L'.table ensures o in Of(L', c.SlotOf(L'.table[o], o)) {
      InPlus(Of(L', k), e, o);
      InPlus(Of(L, d), e, o);
    }
    forall j: Slot ensures NoDup(Of(L', j)) {
      assert NoDup(Of(L, j));
      InPlus(Of(L, d), e, e);
    }
  }

  lemma PublishKeeps(c: Config, s: State, L: Owners)
    requires Inv(c, s, L) && s.phase.Linked?
    ensures Inv(c, After(c, s, Publish), NextOwners(c, s, L, Publish))
  {
    var k, d, e := s.Old(), s.phase.dest, s.phase.entry;
    var s', L' := After(c, s, Publish), NextOwners(c, s, L, Publish);
    PublishOwned(c, s, L);
    PublishLists(c, s, L);
    InPlus(Of(L, d), e, e);
    forall j: Slot ensures ChainOk(s', L', j) {
      assert ChainOk(s, L, j) && ChainOk(s, L, k);
      SegSnoc(s.mem, s.mem.Head(k), Of(L', k), e, s.mem.Head(d));
      PublishChain(c, s, L, j);
    }
  }

  /** The second write changes no link, so each chain only has to be read differently. */
  lemma PublishChain(c: Config, s: State, L: Owners, j: Slot)
    requires Inv(c, s, L) && s.phase.Linked? && ChainOk(s, L, j)
    requires Seg(s.mem, s.mem.Head(s.Old()), Of(NextOwners(c, s, L, Publish), s.Old()), Node(s.phase.entry))
    requires s.mem.Next(s.phase.entry) == s.mem.Head(s.phase.dest)
    ensures ChainOk(After(c, s, Publish), NextOwners(c, s, L, Publish), j)
  {
    var k, d, e := s.Old(), s.phase.dest, s.phase.entry;
    var s', L' := After(c, s, Publish), NextOwners(c, s, L, Publish);
    PublishLists(c, s, L);
    InPlus(Of(L, d), e, e);
    if j == k {
      SegFrame(s.mem, s'.mem, s.mem.Head(k), Of(L', k), Node(e));
    } else {
      SegFrame(s.mem, s'.mem, s.mem.Head(j), Of(L, j), Stop(s, j));
    }
  }

  lemma UnlinkKeeps(c: Config, s: State, L: Owners)
    requires Inv(c, s, L) && s.phase.Published?
    ensures Inv(c, After(c, s, Unlink), L)
  {
    var k, own := s.Old(), Of(L, s.Old());
    var s' := After(c, s, Unlink);
    forall j: Slot ensures ChainOk(s', L, j) {
      assert ChainOk(s, L, j);
      if s.phase.pprev.None? {
        SegFrame(s.mem, s'.mem, s.mem.Head(j), Of(L, j), Stop(s, j));
      } else {
        var o := s.phase.pprev.value;
        var init := own[..|own| - 1];
        assert own == init + [o] && NoDup(own) && o in own;
        if j == k {
          NoDupLast(init, o);
          SegNewEnd(s.mem, s'.mem, s.mem.Head(k), init, o, Stop(s, k), Stop(s', k));
        } else {
          OneOwner(c, s, L, k, j, o);
          OtherChain(c, s, L, s'.mem, j, o);
        }
      }
    }
  }

  // ----- the other steps -----

  lemma ReadKeeps(c: Config, s: State, L: Owners, a: Action)
    requires Inv(c, s, L) && (a.ReadStart? || a == ReadStep)
    ensures Inv(c, After(c, s, a), L)
  {
    var s' := After(c, s, a);
    forall j: Slot ensures ChainOk(s', L, j) { assert ChainOk(s, L, j); }
  }

  lemma LoopLocked(c: Config, s: State, L: Owners, a: Action)
    requires Sound(c) && Inv(c, s, L) && Enabled(c, s, a)
    requires a == NextBucket || a == GiveUp || a == Advance || a == Attach
    ensures Locked(c, After(c, s, a))
  {
    var s' := After(c, s, a);
    forall o | o in s'.holders ensures HolderOk(c, s', o, s'.holders[o]) {
      assert HolderOk(c, s, o, s.holders[o]) && c.hash(s.holders[o], c.key(o)) < c.size(s.holders[o]);
    }
  }

  lemma LoopLive(c: Config, s: State, L: Owners, a: Action)
    requires Sound(c) && Inv(c, s, L) && Enabled(c, s, a)
    requires a == NextBucket || a == GiveUp || a == Advance || a == Attach
    ensures Live(After(c, s, a), L)
  {
    var s' := After(c, s, a);
    assert ChainOk(s, L, s.Old());
    forall j: Slot | Of(L, j) != []
      ensures s'.first <= j.0 < s'.count && (j.0 == s'.first ==> j.1 >= s'.cursor)
    {
      var o := Of(L, j)[0];
      assert o in Of(L, j) && j == c.SlotOf(L.table[o], o) && c.hash(j.0, c.key(o)) < c.size(j.0);
    }
  }

  /** A bucket that has been walked to its end is empty, and so is the table after the last one. */
  lemma LoopKeeps(c: Config, s: State, L: Owners, a: Action)
    requires Sound(c) && Inv(c, s, L) && Enabled(c, s, a)
    requires a == NextBucket || a == GiveUp || a == Advance || a == Attach
    ensures Inv(c, After(c, s, a), L)
  {
    var s' := After(c, s, a);
    LoopLocked(c, s, L, a);
    LoopLive(c, s, L, a);
    forall j: Slot ensures ChainOk(s', L, j) { assert ChainOk(s, L, j); }
  }

  lemma InsertLists(c: Config, s: State, L: Owners, o: nat)
    ensures var k := Target(c, s, o);
            var L' := NextOwners(c, s, L, Insert(o));
            Of(L', k) == [o] + Of(L, k) && forall j: Slot :: j != k ==> Of(L', j) == Of(L, j)
  {
  }

  lemma InsertHoused(c: Config, s: State, L: Owners, o: nat)
    requires Inv(c, s, L) && Enabled(c, s, Insert(o))
    ensures Housed(c, NextOwners(c, s, L, Insert(o))) && Kept(c, NextOwners(c, s, L, Insert(o)))
  {
    var k := Target(c, s, o);
    var L' := NextOwners(c, s, L, Insert(o));
    InsertLists(c, s, L, o);
    forall j: Slot, x | x in Of(L', j) ensures x in L'.table && j == c.SlotOf(L'.table[x], x) {
      InPlus(Of(L, k), o, x);
    }
    forall x | x in L'.table ensures x in Of(L', c.SlotOf(L'.table[x], x)) {
      InPlus(Of(L, k), o, x);
    }
  }

  lemma InsertDistinct(c: Config, s: State, L: Owners, o: nat)
    requires Owned(c, s, L) && o !in s.members
    ensures Distinct(NextOwners(c, s, L, Insert(o)))
  {
    var k := Target(c, s, o);
    InsertLists(c, s, L, o);
    forall j: Slot ensures NoDup(Of(NextOwners(c, s, L, Insert(o)), j)) {
      assert NoDup(Of(L, j));
      assert o !in Of(L, k);
      InPlus(Of(L, k), o, o);
    }
  }

  lemma InsertOwned(c: Config, s: State, L: Owners, o: nat)
    requires Inv(c, s, L) && Enabled(c, s, Insert(o))
    ensures Owned(c, After(c, s, Insert(o)), NextOwners(c, s, L, Insert(o)))
  {
    assert HolderOk(c, s, o, s.holders[o]);
    InsertHoused(c, s, L, o);
    InsertDistinct(c, s, L, o);
  }

  lemma InsertOther(c: Config, s: State, L: Owners, o: nat, j: Slot)
    requires Inv(c, s, L) && Enabled(c, s, Insert(o)) && j != Target(c, s, o)
    ensures ChainOk(After(c, s, Insert(o)), NextOwners(c, s, L, Insert(o)), j)
  {
    var s' := After(c, s, Insert(o));
    assert ChainOk(s, L, j);
    NotOwned(c, s, L, o, j);
    SegFrame(s.mem, s'.mem, s.mem.Head(j), Of(L, j), Stop(s, j));
  }

  lemma NotOwned(c: Config, s: State, L: Owners, o: nat, j: Slot)
    requires Inv(c, s, L) && o !in s.members
    ensures forall i :: 0 <= i < |Of(L, j)| ==> Of(L, j)[i] != o
  {
    forall i | 0 <= i < |Of(L, j)| ensures Of(L, j)[i] != o { assert Of(L, j)[i] in Of(L, j); }
  }

  lemma InsertChain(c: Config, s: State, L: Owners, o: nat, j: Slot)
    requires Inv(c, s, L) && Enabled(c, s, Insert(o))
    ensures ChainOk(After(c, s, Insert(o)), NextOwners(c, s, L, Insert(o)), j)
  {
    var k := Target(c, s, o);
    if j == k {
      var s' := After(c, s, Insert(o));
      assert ChainOk(s, L, k);
      NotOwned(c, s, L, o, k);
      InPlus(Of(L, k), o, o);
      SegFrame(s.mem, s'.mem, s.mem.Head(k), Of(L, k), Stop(s, k));
    } else {
      InsertOther(c, s, L, o, j);
    }
  }

  lemma InsertPhase(c: Config, s: State, L: Owners, o: nat)
    requires Inv(c, s, L) && Enabled(c, s, Insert(o))
    ensures PhaseOk(c, After(c, s, Insert(o)), NextOwners(c, s, L, Insert(o)))
    ensures Live(After(c, s, Insert(o)), NextOwners(c, s, L, Insert(o)))
  {
    var k := Target(c, s, o);
    InsertLists(c, s, L, o);
    if s.phase.Published? { InPlus(Of(L, k), o, s.phase.entry); }
  }

  lemma InsertKeeps(c: Config, s: State, L: Owners, o: nat)
    requires Inv(c, s, L) && Enabled(c, s, Insert(o))
    ensures Inv(c, After(c, s, Insert(o)), NextOwners(c, s, L, Insert(o)))
  {
    var s', L' := After(c, s, Insert(o)), NextOwners(c, s, L, Insert(o));
    InsertOwned(c, s, L, o);
    InsertPhase(c, s, L, o);
    forall j: Slot ensures ChainOk(s', L', j) { InsertChain(c, s, L, o, j); }
  }

  lemma LockLocked(c: Config, s: State, L: Owners, a: Action)
    requires Inv(c, s, L) && Enabled(c, s, a) && (a.Lock? || a.Release?)
    ensures Locked(c, After(c, s, a))
  {
    var s' := After(c, s, a);
    forall o | o in s'.holders ensures HolderOk(c, s', o, s'.holders[o]) {
      if o in s.holders { assert HolderOk(c, s, o, s.holders[o]); }
    }
  }

  lemma LockKeeps(c: Config, s: State, L: Owners, a: Action)
    requires Inv(c, s, L) && Enabled(c, s, a) && (a.Lock? || a.Release?)
    ensures Inv(c, After(c, s, a), L)
  {
    var s' := After(c, s, a);
    LockLocked(c, s, L, a);
    forall j: Slot ensures ChainOk(s', L, j) { assert ChainOk(s, L, j); }
  }

  /** Every step of every thread keeps the table sound: chains intact, every object owned once,
      by the bucket its hash gives, none lost. */
  lemma StepKeeps(c: Config, s: State, L: Owners, a: Action)
    requires Sound(c) && Inv(c, s, L) && Enabled(c, s, a)
    ensures Inv(c, After(c, s, a), NextOwners(c, s, L, a))
  {
    match a
    case Link(path, e, to) => LinkKeeps(c, s, L, path, e, to);
    case Publish => PublishKeeps(c, s, L);
    case Unlink => UnlinkKeeps(c, s, L);
    case Insert(o) => InsertKeeps(c, s, L, o);
    case Lock(_) => LockKeeps(c, s, L, a);
    case Release(_) => LockKeeps(c, s, L, a);
    case ReadStart(_) => ReadKeeps(c, s, L, a);
    case ReadStep => ReadKeeps(c, s, L, a);
    case _ => LoopKeeps(c, s, L, a);
  }
}
