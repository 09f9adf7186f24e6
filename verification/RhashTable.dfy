/** `rhashtable_rehash_one`, `_chain` and `_table` as they run, with every write a step of the
    interleaved model, and what the new table holds afterwards. */
module RhashTable {
  import opened RhashChain
  import opened RhashRehash
  import opened Sequences
  import opened Wrappers

  datatype Error = Ok | ENoEnt | EAgain

  /** The objects of a chain that hash to bucket `b` of table `t`, in order. */
  function Filter(c: Config, t: nat, b: nat, xs: seq<nat>): seq<nat> {
    if xs == [] then []
    else (if c.SlotOf(t, xs[0]) == (t, b) then [xs[0]] else []) + Filter(c, t, b, xs[1..])
  }

  /** What the first `n` buckets of table `from` contribute to bucket `b` of table `t`. */
  function Gathered(c: Config, L: Owners, from: nat, t: nat, b: nat, n: nat): seq<nat> {
    if n == 0 then [] else Filter(c, t, b, Of(L, (from, n - 1))) + Gathered(c, L, from, t, b, n - 1)
  }

  /** `after` differs from `before` in what is owned by the first table's current bucket, which
      now owns `rest`, and by the last table, where `moved` has been put in front. */
  ghost predicate MovedOver(c: Config, s: State, before: Owners, after: Owners, rest: seq<nat>, moved: seq<nat>) {
    && Of(after, s.Old()) == rest
    && (forall b: nat :: Of(after, (s.Last(), b)) == Filter(c, s.Last(), b, moved) + Of(before, (s.Last(), b)))
    && (forall k: Slot :: k != s.Old() && k.0 != s.Last() ==> Of(after, k) == Of(before, k))
  }

  /** Everything but the links and the phase. */
  predicate SamePlace(s: State, s': State) {
    && s'.members == s.members && s'.holders == s.holders && s'.first == s.first && s'.count == s.count
    && s'.cursor == s.cursor && s'.reader == s.reader
  }

  /** It depends on the place only. */
  lemma MovedSame(c: Config, s: State, s': State, before: Owners, after: Owners, rest: seq<nat>, moved: seq<nat>)
    requires SamePlace(s', s) && MovedOver(c, s, before, after, rest, moved)
    ensures MovedOver(c, s', before, after, rest, moved)
  {
    var t := s.Last();
    assert s'.Last() == t && s'.Old() == s.Old();
    forall b: nat ensures Of(after, (t, b)) == Filter(c, t, b, moved) + Of(before, (t, b)) {}
  }

  lemma MovedNone(c: Config, s: State, L: Owners)
    ensures MovedOver(c, s, L, L, Of(L, s.Old()), [])
  {
    forall b: nat ensures Of(L, (s.Last(), b)) == Filter(c, s.Last(), b, []) + Of(L, (s.Last(), b)) {
      Empty(Of(L, (s.Last(), b)));
    }
  }

  lemma MovedOne(c: Config, s: State, L0: Owners, L: Owners, L': Owners, rest: seq<nat>, e: nat, moved: seq<nat>)
    requires s.first < s.Last() && MovedOver(c, s, L0, L, rest + [e], moved)
    requires MovedOver(c, s, L, L', rest, [e])
    ensures MovedOver(c, s, L0, L', rest, [e] + moved)
  {
    var t := s.Last();
    forall b: nat ensures Of(L', (t, b)) == Filter(c, t, b, [e] + moved) + Of(L0, (t, b)) {
      Cons(e, moved);
      Cons(e, []);
      Empty([e]);
      var front := if c.SlotOf(t, e) == (t, b) then [e] else [];
      assert Filter(c, t, b, [e]) == front by { Empty(front); }
      Assoc(front, Filter(c, t, b, moved), Of(L0, (t, b)));
    }
  }

  /** The step that starts moving the last entry of the current bucket. */
  function TailLink(s: State, L: Owners): Action
    requires Of(L, s.Old()) != []
  {
    var own := Of(L, s.Old());
    Action.Link(own[..|own| - 1], own[|own| - 1], s.Last())
  }

  lemma TailLinkKeeps(c: Config, s: State, L: Owners)
    requires Sound(c) && Inv(c, s, L) && s.phase == Idle && Of(L, s.Old()) != []
    requires s.first + 1 < s.count && s.cursor < c.size(s.first) && !c.nested(s.Last()) && s.holders == map[]
    ensures Inv(c, After(c, s, TailLink(s, L)), L)
  {
    InitLast(Of(L, s.Old()));
    assert ChainOk(s, L, s.Old());
    LinkKeeps(c, s, L, TailLink(s, L).path, TailLink(s, L).entry, s.Last());
  }

  /** The three writes in a row. */
  function Moved(c: Config, s: State, L: Owners): (State, Owners)
    requires Of(L, s.Old()) != []
  {
    var s1 := After(c, s, TailLink(s, L));
    (After(c, After(c, s1, Publish), Unlink), NextOwners(c, s1, L, Publish))
  }

  predicate CanMove(c: Config, s: State) {
    && s.phase == Idle && s.holders == map[]
    && s.first + 1 < s.count && s.cursor < c.size(s.first) && !c.nested(s.Last())
  }

  lemma MoveKeeps(c: Config, s: State, L: Owners)
    requires Sound(c) && Inv(c, s, L) && CanMove(c, s) && Of(L, s.Old()) != []
    ensures Inv(c, Moved(c, s, L).0, Moved(c, s, L).1)
  {
    var s1 := After(c, s, TailLink(s, L));
    TailLinkKeeps(c, s, L);
    PublishKeeps(c, s1, L);
    UnlinkKeeps(c, After(c, s1, Publish), NextOwners(c, s1, L, Publish));
  }

  lemma MoveStays(c: Config, s: State, L: Owners)
    requires Of(L, s.Old()) != []
    ensures Moved(c, s, L).0.phase == Idle && SamePlace(s, Moved(c, s, L).0)
  {
  }

  lemma MoveMoves(c: Config, s: State, L: Owners)
    requires Sound(c) && Inv(c, s, L) && CanMove(c, s) && Of(L, s.Old()) != []
    ensures var own := Of(L, s.Old());
            MovedOver(c, s, L, Moved(c, s, L).1, own[..|own| - 1], [own[|own| - 1]])
  {
    var s1 := After(c, s, TailLink(s, L));
    TailLinkKeeps(c, s, L);
    MovedByPublish(c, s1, L, NextOwners(c, s1, L, Publish), TailLink(s, L).entry);
  }

  /** The last entry of the current bucket has gone to the newest table. */
  ghost predicate LastMoved(c: Config, s: State, before: Owners, after: Owners) {
    var own := Of(before, s.Old());
    own != [] && MovedOver(c, s, before, after, own[..|own| - 1], [own[|own| - 1]])
  }

  lemma MoveRight(c: Config, s: State, L: Owners)
    requires Sound(c) && Inv(c, s, L) && CanMove(c, s) && Of(L, s.Old()) != []
    ensures Inv(c, Moved(c, s, L).0, Moved(c, s, L).1) && Moved(c, s, L).0.phase == Idle
    ensures SamePlace(s, Moved(c, s, L).0) && LastMoved(c, s, L, Moved(c, s, L).1)
  {
    MoveKeeps(c, s, L);
    MoveStays(c, s, L);
    MoveMoves(c, s, L);
  }

  class Rhashtable {
    var s: State
    ghost var L: Owners

    ghost predicate Valid(c: Config)
      reads this
    {
      Sound(c) && Inv(c, s, L) && s.phase == Idle && s.holders == map[]
    }

    /** `rhashtable_rehash_one`: the last entry of the current bucket moves to the newest table. */
    method RehashOne(c: Config) returns (err: Error)
      requires Valid(c) && s.first + 1 < s.count && s.cursor < c.size(s.first)
      modifies this
      ensures Valid(c) && SamePlace(old(s), s)
      ensures c.nested(old(s).Last()) ==> err == EAgain
      ensures !c.nested(old(s).Last()) ==> err == if Of(old(L), old(s).Old()) == [] then ENoEnt else Ok
      ensures err != Ok ==> s == old(s) && L == old(L)
      ensures err == Ok ==> LastMoved(c, old(s), old(L), L)
    {
      if c.nested(s.Last()) {
        return EAgain;
      }
      var entry, pprev := LastEntry(c);
      if entry.Nulls? {
        return ENoEnt;
      }
      MoveRight(c, s, L);
      MoveEntry(c, entry.obj, pprev);
      return Ok;
    }

    /** Its traversal: the last entry of the current bucket and the one before it. */
    method LastEntry(c: Config) returns (entry: Link, pprev: Option<nat>)
      requires Valid(c)
      ensures var own := Of(L, s.Old());
              if own == [] then entry.Nulls?
              else entry == Node(own[|own| - 1]) && pprev == (if |own| == 1 then None else Some(own[|own| - 2]))
                   && s.mem.Next(entry.obj).Nulls?
    {
      ghost var own := Of(L, s.Old());
      assert ChainOk(s, L, s.Old());
      entry, pprev := s.mem.Head(s.Old()), None;
      if entry.Nulls? {
        return;
      }
      ghost var i: nat := 0;
      while s.mem.Next(entry.obj).Node?
        invariant entry.Node? && i < |own| && own[i] == entry.obj
        invariant pprev == if i == 0 then None else Some(own[i - 1])
        decreases |own| - i
      {
        SegAt(s.mem, s.mem.Head(s.Old()), own, Stop(s, s.Old()), i);
        pprev := Some(entry.obj);
        entry := s.mem.Next(entry.obj);
        i := i + 1;
      }
      SegAt(s.mem, s.mem.Head(s.Old()), own, Stop(s, s.Old()), i);
    }

    /** Its three pointer writes, each one step of the interleaved model. */
    method MoveEntry(c: Config, e: nat, pprev: Option<nat>)
      requires var own := Of(L, s.Old());
               own != [] && e == own[|own| - 1] && pprev == if |own| == 1 then None else Some(own[|own| - 2])
      modifies this
      ensures (s, L) == Moved(c, old(s), old(L))
    {
      ghost var own, link := Of(L, s.Old()), TailLink(s, L);
      assert |own| > 1 ==> own[..|own| - 1][|own| - 2] == own[|own| - 2];
      var after := s.mem.Next(e);
      var dest := c.SlotOf(s.Last(), e);
      s := s.(mem := s.mem.SetNext(e, s.mem.Head(dest)), phase := Linked(e, pprev, dest, after));
      assert s == After(c, old(s), link);
      L := NextOwners(c, s, L, Publish);
      s := s.(mem := s.mem.SetHead(dest, Node(e)), phase := Published(e, pprev, dest, after));
      assert s == After(c, After(c, old(s), link), Publish);
      s := s.(mem := if pprev.Some? then s.mem.SetNext(pprev.value, after) else s.mem.SetHead(s.Old(), after), phase := Idle);
    }

    /** `rhashtable_rehash_chain`: the current bucket is emptied, if there is one. A bucket of a nested
        table may have no page, and then holds nothing. */
    method RehashChain(c: Config, missing: bool) returns (err: Error)
      requires Valid(c) && s.first + 1 < s.count && s.cursor < c.size(s.first)
      requires missing ==> c.nested(s.first) && Of(L, s.Old()) == []
      modifies this
      ensures Valid(c) && SamePlace(old(s), s)
      ensures missing ==> err == Ok && s == old(s) && L == old(L)
      ensures if c.nested(old(s).Last()) && !missing then err == EAgain && s == old(s) && L == old(L)
              else err == Ok && MovedOver(c, old(s), old(L), L, [], Of(old(L), s.Old()))
    {
      if missing {
        MovedNone(c, s, L);
        return Ok;
      }
      ghost var own := Of(L, s.Old());
      ghost var n: nat := |own|;
      MovedNone(c, s, L);
      assert own[..n] == own && own[n..] == [];
      while true
        invariant Valid(c) && SamePlace(old(s), s) && n <= |own|
        invariant c.nested(old(s).Last()) ==> s == old(s) && L == old(L)
        invariant MovedOver(c, old(s), old(L), L, own[..n], own[n..])
        decreases n
      {
        ghost var was, before := s, L;
        err := RehashOne(c);
        if err != Ok {
          break;
        }
        assert own[..n][..n - 1] == own[..n - 1] && own[..n] == own[..n - 1] + [own[n - 1]];
        assert [own[n - 1]] + own[n..] == own[n - 1..];
        MovedSame(c, was, old(s), before, L, own[..n - 1], [own[n - 1]]);
        MovedOne(c, old(s), old(L), before, L, own[..n - 1], own[n - 1], own[n..]);
        n := n - 1;
      }
      if err == ENoEnt {
        assert own[n..] == own;
        err := Ok;
      }
    }

    /** One round of the loop over the buckets. */
    method RehashBucket(c: Config, missing: bool) returns (err: Error)
      requires Valid(c) && s.first + 1 < s.count && s.cursor < c.size(s.first)
      requires missing ==> c.nested(s.first) && Of(L, s.Old()) == []
      modifies this
      ensures Valid(c) && s.first == old(s.first) && s.count == old(s.count) && s.members == old(s.members)
      ensures missing ==> err == Ok && s == old(s).(cursor := old(s.cursor) + 1) && L == old(L)
      ensures if c.nested(old(s).Last()) && !missing then err == EAgain && s == old(s) && L == old(L)
              else err == Ok && s.cursor == old(s.cursor) + 1 &&
                   MovedOver(c, old(s), old(L), L, [], Of(old(L), old(s).Old()))
    {
      err := RehashChain(c, missing);
      if err != Ok {
        return err;
      }
      ghost var s0 := s;
      assert ChainOk(s, L, s.Old());
      s := s.(cursor := s.cursor + 1);
      LoopKeeps(c, s0, L, NextBucket);
    }

    /** The next call starts over. */
    method GiveUp(c: Config)
      requires Valid(c) && s.first + 1 < s.count && c.nested(s.Last())
      modifies this
      ensures Valid(c) && s == old(s).(cursor := 0) && L == old(L)
    {
      ghost var s0 := s;
      s := s.(cursor := 0);
      LoopKeeps(c, s0, L, Action.GiveUp);
    }

    /** The first table is empty and retired. */
    method Retire(c: Config) returns (err: Error)
      requires Valid(c) && s.first + 1 < s.count && s.cursor == c.size(s.first)
      modifies this
      ensures Valid(c) && s.members == old(s.members) && s.count == old(s.count) && s.first == old(s.first) + 1
      ensures L == old(L) && (err == EAgain <==> s.first + 1 < s.count)
      ensures forall b: nat :: Of(L, (old(s.first), b)) == []
    {
      ghost var s0 := s;
      s := s.(first := s.first + 1, cursor := 0);
      LoopKeeps(c, s0, L, Advance);
      assert Live(s, L);
      err := if s.first + 1 < s.count then EAgain else Ok;
    }

    /** `rhashtable_rehash_table`: unless the newest table is nested, the first table is emptied
        into it bucket by bucket and retired; no object is lost, each lands where the new hash
        function puts it, and entries of one old bucket keep their order. Into a nested one nothing can
        be moved, so the first table is retired only if it is nested and all its buckets are `missing`. */
    method RehashTable(c: Config, missing: set<nat>) returns (err: Error)
      requires Valid(c) && s.cursor == 0
      requires forall b: nat :: b in missing ==> c.nested(s.first) && Of(L, (s.first, b)) == []
      modifies this
      ensures Valid(c) && s.members == old(s.members) && s.count == old(s.count)
      ensures old(s.first) + 1 == s.count ==> err == Ok && s == old(s) && L == old(L)
      ensures old(s.first) + 1 < s.count && (!c.nested(s.Last()) || AllMissing(c, old(s.first), missing)) ==>
                && s.first == old(s.first) + 1
                && (forall b: nat :: Of(L, (old(s.first), b)) == [])
                && (forall b: nat :: Of(L, (s.Last(), b)) ==
                      Gathered(c, old(L), old(s.first), s.Last(), b, c.size(old(s.first))) + Of(old(L), (s.Last(), b)))
                && (err == EAgain <==> s.first + 1 < s.count)
      ensures old(s.first) + 1 < s.count && c.nested(s.Last()) && !AllMissing(c, old(s.first), missing) ==>
                err == EAgain && s == old(s) && L == old(L)
    {
      if s.first + 1 == s.count {
        return Ok;
      }
      GatheredNone(c, s, L);
      while s.cursor < c.size(s.first)
        invariant Valid(c) && s.first == old(s.first) && s.count == old(s.count) && s.members == old(s.members)
        invariant s.cursor <= c.size(s.first)
        invariant Progress(c, s, old(L), L)
        invariant c.nested(s.Last()) ==>
                    s == old(s).(cursor := s.cursor) && L == old(L) && forall b: nat :: b < s.cursor ==> b in missing
        decreases c.size(s.first) - s.cursor
      {
        ghost var was, before := s, L;
        err := RehashBucket(c, s.cursor in missing);
        if err != Ok {
          GiveUp(c);
          return err;
        }
        ProgressOne(c, was, old(L), before, L);
        ProgressSame(c, was.(cursor := was.cursor + 1), s, old(L), L);
      }
      err := Retire(c);
    }
  }

  /** No bucket of the table has a page. */
  predicate AllMissing(c: Config, t: nat, missing: set<nat>) { forall b: nat :: b < c.size(t) ==> b in missing }

  lemma ProgressSame(c: Config, s: State, s': State, L0: Owners, L: Owners)
    requires s.first == s'.first && s.cursor == s'.cursor && s.count == s'.count && Progress(c, s, L0, L)
    ensures Progress(c, s', L0, L)
  {
    var t := s.Last();
    assert s'.Last() == t;
    forall b: nat ensures Of(L, (t, b)) == Gathered(c, L0, s'.first, t, b, s'.cursor) + Of(L0, (t, b)) {}
  }

  lemma MovedByPublish(c: Config, s: State, L: Owners, L1: Owners, e: nat)
    requires Inv(c, s, L) && s.phase.Linked? && s.phase.entry == e && L1 == NextOwners(c, s, L, Publish)
    requires s.phase.dest == c.SlotOf(s.Last(), e)
    ensures var own := Of(L, s.Old()); own != [] && MovedOver(c, s, L, L1, own[..|own| - 1], [e])
  {
    PublishLists(c, s, L);
    var t := s.Last();
    forall b: nat ensures Of(L1, (t, b)) == Filter(c, t, b, [e]) + Of(L, (t, b)) {
      Cons(e, []);
      var front := if c.SlotOf(t, e) == (t, b) then [e] else [];
      Empty(front);
      Empty(Of(L, (t, b)));
    }
  }

  /** The buckets before the cursor have been moved, the others not. */
  ghost predicate Progress(c: Config, s: State, L0: Owners, L: Owners) {
    && (forall b: nat :: Of(L, (s.Last(), b)) == Gathered(c, L0, s.first, s.Last(), b, s.cursor) + Of(L0, (s.Last(), b)))
    && (forall b: nat :: s.cursor <= b ==> Of(L, (s.first, b)) == Of(L0, (s.first, b)))
  }

  lemma GatheredNone(c: Config, s: State, L: Owners)
    requires s.cursor == 0
    ensures Progress(c, s, L, L)
  {
    forall b: nat ensures Of(L, (s.Last(), b)) == Gathered(c, L, s.first, s.Last(), b, 0) + Of(L, (s.Last(), b)) {
      Empty(Of(L, (s.Last(), b)));
    }
  }

  lemma ProgressOne(c: Config, s: State, L0: Owners, L: Owners, L': Owners)
    requires s.first < s.Last() && Progress(c, s, L0, L)
    requires MovedOver(c, s, L, L', [], Of(L, s.Old()))
    ensures Progress(c, s.(cursor := s.cursor + 1), L0, L')
  {
    var t := s.Last();
    forall b: nat
      ensures Of(L', (t, b)) == Gathered(c, L0, s.first, t, b, s.cursor + 1) + Of(L0, (t, b))
    {
      assert Of(L, s.Old()) == Of(L0, (s.first, s.cursor));
      Assoc(Filter(c, t, b, Of(L, s.Old())), Gathered(c, L0, s.first, t, b, s.cursor), Of(L0, (t, b)));
    }
  }
}
