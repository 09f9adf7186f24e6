/** What the restructuring of `menu_finalize` amounts to: which entries end below which, in one pass
    from the last entry to the first. */
module MenuNest {
  import opened MenuTree
  import opened Sequences

  /** How many of the first entries `p` takes in. */
  function Taken(c: Config, p: nat, ts: seq<Tree>): (k: nat)
    ensures k <= |ts|
  {
    if ts == [] || !c.adopts(p, ts[0].node) then 0 else 1 + Taken(c, p, ts[1..])
  }

  /** The entries with their submenus. With those that follow it already arranged, an entry that has a
      symbol and no submenu takes in as many of them as come first and are adopted. */
  function Arrange(c: Config, ts: seq<Tree>): (r: seq<Tree>)
    ensures r != [] <==> ts != []
    ensures ts != [] ==> r[0].node == ts[0].node
  {
    if ts == [] then []
    else
      var m, a := ts[0], Arrange(c, ts[1..]);
      if m.kids != [] then [Tree(m.node, Arrange(c, m.kids))] + a
      else
        var k := if c.hasSym(m.node) then Taken(c, m.node, a) else 0;
        [Tree(m.node, a[..k])] + a[k..]
  }

  /** And then the submenus lifted, from the deepest on. */
  function Lift(c: Config, t: Tree): Tree { Tree(t.node, Flatten(c, LiftAll(c, t.kids))) }

  function LiftAll(c: Config, ts: seq<Tree>): (r: seq<Tree>)
    ensures |r| == |ts|
  {
    if ts == [] then [] else [Lift(c, ts[0])] + LiftAll(c, ts[1..])
  }

  // ----- the same as the loops -----

  lemma ArrangeCons(c: Config, m: Tree, rest: seq<Tree>)
    ensures var a, r := Arrange(c, rest), Arrange(c, [m] + rest);
            if m.kids != [] then r == [Tree(m.node, Arrange(c, m.kids))] + a
            else
              var k := if c.hasSym(m.node) then Taken(c, m.node, a) else 0;
              r == [Tree(m.node, a[..k])] + a[k..]
  {
    Cons(m, rest);
  }

  lemma TakenCons(c: Config, p: nat, t: Tree, ts: seq<Tree>)
    requires c.adopts(p, t.node)
    ensures var k := Taken(c, p, ts);
            Taken(c, p, [t] + ts) == 1 + k && ([t] + ts)[..1 + k] == [t] + ts[..k] && ([t] + ts)[1 + k..] == ts[k..]
  {
    Cons(t, ts);
  }

  lemma LiftCons(c: Config, t: Tree, ts: seq<Tree>)
    ensures LiftAll(c, [t] + ts) == [Lift(c, t)] + LiftAll(c, ts)
  {
    Cons(t, ts);
  }

  /** One entry finalized, and what will be made of those it leaves. */
  lemma {:induction false} FinalizeExact(c: Config, m: Tree, rest: seq<Tree>)
    ensures var f, a := Finalize(c, m, rest), Arrange(c, [m] + rest);
            f.0 == Lift(c, a[0]) && Arrange(c, f.1) == a[1..]
    decreases |Pre([m] + rest)|, 2
  {
    var a := Arrange(c, rest);
    PreCons(m, rest);
    ArrangeCons(c, m, rest);
    if m.kids != [] {
      FinalizeListExact(c, m.kids);
      Cons(Tree(m.node, Arrange(c, m.kids)), a);
    } else if c.hasSym(m.node) {
      var k := Taken(c, m.node, a);
      AdoptFromExact(c, m.node, rest);
      Cons(Tree(m.node, a[..k]), a[k..]);
    } else {
      Cons(Tree(m.node, []), a);
    }
  }

  lemma {:induction false} AdoptFromExact(c: Config, p: nat, rest: seq<Tree>)
    ensures var r, a := AdoptFrom(c, p, rest), Arrange(c, rest);
            var k := Taken(c, p, a);
            r.0 == LiftAll(c, a[..k]) && Arrange(c, r.1) == a[k..]
    decreases |Pre(rest)|, 3
  {
    if rest != [] && c.adopts(p, rest[0].node) {
      var f, a := Finalize(c, rest[0], rest[1..]), Arrange(c, rest);
      HeadTail(rest);
      HeadTail(a);
      PreCons(f.0, f.1);
      FinalizeExact(c, rest[0], rest[1..]);
      AdoptFromExact(c, p, f.1);
      TakenCons(c, p, a[0], a[1..]);
      LiftCons(c, a[0], a[1..][..Taken(c, p, a[1..])]);
    }
  }

  /** The loops that finalize entry by entry, from the first to the last, each taking in and lifting as
      it goes, come to the same. */
  lemma {:induction false} FinalizeListExact(c: Config, ts: seq<Tree>)
    ensures FinalizeList(c, ts) == LiftAll(c, Arrange(c, ts))
    decreases |Pre(ts)|, 3
  {
    if ts != [] {
      var f, a := Finalize(c, ts[0], ts[1..]), Arrange(c, ts);
      HeadTail(ts);
      HeadTail(a);
      PreCons(f.0, f.1);
      FinalizeExact(c, ts[0], ts[1..]);
      FinalizeListExact(c, f.1);
      LiftCons(c, a[0], a[1..]);
    }
  }

  // ----- what an entry takes in -----

  /** The entries left behind are the last ones, as they were. */
  lemma {:induction false} FinalizeSuffix(c: Config, m: Tree, rest: seq<Tree>) returns (n: nat)
    ensures n <= |rest| && Finalize(c, m, rest).1 == rest[n..]
    decreases |Pre([m] + rest)|, 2
  {
    PreCons(m, rest);
    n := 0;
    if m.kids == [] && c.hasSym(m.node) { n := AdoptFromSuffix(c, m.node, rest); }
  }

  lemma {:induction false} AdoptFromSuffix(c: Config, p: nat, rest: seq<Tree>) returns (n: nat)
    ensures n <= |rest| && AdoptFrom(c, p, rest).1 == rest[n..]
    ensures rest != [] && c.adopts(p, rest[0].node) ==> n > 0
    decreases |Pre(rest)|, 3
  {
    n := 0;
    if rest != [] && c.adopts(p, rest[0].node) {
      var f := Finalize(c, rest[0], rest[1..]);
      HeadTail(rest);
      PreCons(f.0, f.1);
      var i := FinalizeSuffix(c, rest[0], rest[1..]);
      var j := AdoptFromSuffix(c, p, f.1);
      n := 1 + i + j;
    }
  }

  predicate AllAdopted(c: Config, p: nat, ts: seq<Tree>) { forall k :: 0 <= k < |ts| ==> c.adopts(p, ts[k].node) }

  predicate NextRefused(c: Config, p: nat, ts: seq<Tree>) { ts == [] || !c.adopts(p, ts[0].node) }

  lemma {:induction false} AdoptFromTakes(c: Config, p: nat, rest: seq<Tree>)
    ensures var r := AdoptFrom(c, p, rest);
            && AllAdopted(c, p, r.0) && NextRefused(c, p, r.1)
            && (!NextRefused(c, p, rest) ==> r.0 != [] && r.0[0].node == rest[0].node)
    decreases |Pre(rest)|, 3
  {
    if rest != [] && c.adopts(p, rest[0].node) {
      var f := Finalize(c, rest[0], rest[1..]);
      HeadTail(rest);
      PreCons(f.0, f.1);
      AdoptFromTakes(c, p, f.1);
    }
  }

  lemma FlattenHead(c: Config, ts: seq<Tree>)
    requires ts != []
    ensures Flatten(c, ts) != [] && Flatten(c, ts)[0].node == ts[0].node
  {
  }

  /** An entry with a symbol and no submenu takes in the entries that follow it up to the first that it does
      not adopt; one without a symbol takes none; one with a submenu keeps that. Those left are the last
      ones, untouched. */
  lemma FinalizeTakes(c: Config, m: Tree, rest: seq<Tree>) returns (taken: seq<Tree>, n: nat)
    ensures var r := Finalize(c, m, rest);
            && r.0.kids == Flatten(c, taken) && n <= |rest| && r.1 == rest[n..]
            && (m.kids != [] ==> n == 0 && taken == FinalizeList(c, m.kids))
            && (m.kids == [] && !c.hasSym(m.node) ==> n == 0 && taken == [])
            && (m.kids == [] && c.hasSym(m.node) ==>
                  && AllAdopted(c, m.node, taken) && NextRefused(c, m.node, r.1)
                  && Pre(taken) == Pre(rest[..n]))
  {
    n := FinalizeSuffix(c, m, rest);
    taken := Gather(c, m, rest).0;
    if m.kids == [] && c.hasSym(m.node) {
      AdoptFromTakes(c, m.node, rest);
      PreAppend(taken, rest[n..]);
      PreAppend(rest[..n], rest[n..]);
      SplitAt(rest, n);
      SamePrefix(Pre(taken), Pre(rest[..n]), Pre(rest[n..]));
    } else {
      AtStart(rest, n);
    }
  }

  lemma AtStart(rest: seq<Tree>, n: nat)
    requires n <= |rest| && rest == rest[n..]
    ensures n == 0
  {
    assert |rest[n..]| == |rest| - n;
  }

  lemma SamePrefix(a: seq<nat>, b: seq<nat>, s: seq<nat>)
    requires a + s == b + s
    ensures a == b
  {
    assert |a| == |b|;
    assert a == (a + s)[..|a|] && b == (b + s)[..|b|];
  }

  /** So if the next entry is adopted there is a submenu, and that entry is its first. */
  lemma FinalizeAdopts(c: Config, m: Tree, rest: seq<Tree>)
    requires m.kids == [] && c.hasSym(m.node) && rest != [] && c.adopts(m.node, rest[0].node)
    ensures var r := Finalize(c, m, rest); r.0.kids != [] && r.0.kids[0].node == rest[0].node
  {
    AdoptFromTakes(c, m.node, rest);
    FlattenHead(c, Gather(c, m, rest).0);
  }

  // ----- the arrangement, by what is true of it -----

  /** Every entry is in its place: below one that had a submenu are its own entries, below one that had
      none those it adopts, up to the first that it does not. */
  predicate Arranged(c: Config, ts: seq<Tree>, r: seq<Tree>)
    decreases ts
  {
    if ts == [] then r == []
    else
      var m := ts[0];
      && r != [] && r[0].node == m.node
      && if m.kids != [] then Arranged(c, m.kids, r[0].kids) && Arranged(c, ts[1..], r[1..])
         else
           && Arranged(c, ts[1..], r[0].kids + r[1..]) && AllAdopted(c, m.node, r[0].kids)
           && if c.hasSym(m.node) then NextRefused(c, m.node, r[1..]) else r[0].kids == []
  }

  lemma {:induction false} TakenExact(c: Config, p: nat, ts: seq<Tree>, k: nat)
    requires k <= |ts|
    ensures k == Taken(c, p, ts) <==> AllAdopted(c, p, ts[..k]) && NextRefused(c, p, ts[k..])
  {
    if ts != [] && c.adopts(p, ts[0].node) {
      if k > 0 {
        TakenExact(c, p, ts[1..], k - 1);
        assert ts[1..][..k - 1] == ts[..k][1..] && ts[1..][k - 1..] == ts[k..];
        AdoptedHead(c, p, ts[..k]);
      }
    } else if k > 0 {
      assert !c.adopts(p, ts[..k][0].node);
    }
  }

  lemma AdoptedHead(c: Config, p: nat, ts: seq<Tree>)
    requires ts != []
    ensures AllAdopted(c, p, ts) <==> c.adopts(p, ts[0].node) && AllAdopted(c, p, ts[1..])
  {
    if c.adopts(p, ts[0].node) && AllAdopted(c, p, ts[1..]) {
      forall k | 0 <= k < |ts| ensures c.adopts(p, ts[k].node) {
        if k > 0 { assert ts[k] == ts[1..][k - 1]; }
      }
    }
    if AllAdopted(c, p, ts) {
      forall k | 0 <= k < |ts[1..]| ensures c.adopts(p, ts[1..][k].node) { assert ts[1..][k] == ts[k + 1]; }
    }
  }

  /** There is exactly one such arrangement. */
  lemma {:induction false} ArrangeExact(c: Config, ts: seq<Tree>, r: seq<Tree>)
    ensures Arranged(c, ts, r) <==> r == Arrange(c, ts)
    decreases ts
  {
    if ts != [] && r != [] {
      var m, a := ts[0], Arrange(c, ts[1..]);
      HeadTail(r);
      if m.kids != [] {
        ArrangeExact(c, m.kids, r[0].kids);
        ArrangeExact(c, ts[1..], r[1..]);
        Cons(Tree(m.node, Arrange(c, m.kids)), a);
      } else {
        ArrangeExact(c, ts[1..], r[0].kids + r[1..]);
        ArrangeBare(c, ts, r);
      }
    }
  }

  lemma ArrangeBare(c: Config, ts: seq<Tree>, r: seq<Tree>)
    requires ts != [] && r != [] && ts[0].kids == []
    requires Arranged(c, ts[1..], r[0].kids + r[1..]) <==> r[0].kids + r[1..] == Arrange(c, ts[1..])
    ensures Arranged(c, ts, r) <==> r == Arrange(c, ts)
  {
    var m, a := ts[0], Arrange(c, ts[1..]);
    var n := |r[0].kids|;
    var k := if c.hasSym(m.node) then Taken(c, m.node, a) else 0;
    HeadTail(r);
    DropPrefix(r[0].kids, r[1..]);
    Cons(Tree(m.node, a[..k]), a[k..]);
    SplitAt(a, k);
    if n <= |a| { TakenExact(c, m.node, a, n); }
    TakenExact(c, m.node, a, Taken(c, m.node, a));
  }

  // ----- lifting -----

  /** Lifting, entry by entry: one without a prompt text is followed by what was below it. */
  function Spread(c: Config, ts: seq<Tree>): seq<Tree> {
    if ts == [] then []
    else
      var t := ts[0];
      (if t.kids != [] && !c.hasText(t.node) then [Tree(t.node, [])] + Spread(c, t.kids) else [t]) + Spread(c, ts[1..])
  }

  lemma {:induction false} SpreadAppend(c: Config, a: seq<Tree>, b: seq<Tree>)
    ensures Spread(c, a + b) == Spread(c, a) + Spread(c, b)
  {
    if a == [] {
      Empty(b);
      Empty(Spread(c, b));
    } else {
      var t := a[0];
      SpreadAppend(c, a[1..], b);
      assert (a + b)[0] == t && (a + b)[1..] == a[1..] + b;
      Assoc(if t.kids != [] && !c.hasText(t.node) then [Tree(t.node, [])] + Spread(c, t.kids) else [t],
            Spread(c, a[1..]), Spread(c, b));
    }
  }

  /** The loop, which walks the list that it changes, does that. */
  lemma {:induction false} FlattenExact(c: Config, ts: seq<Tree>)
    ensures Flatten(c, ts) == Spread(c, ts)
    decreases |Pre(ts)|
  {
    if ts != [] {
      var t := ts[0];
      HeadTail(ts);
      PreCons(t, ts[1..]);
      if t.kids != [] && !c.hasText(t.node) {
        PreAppend(t.kids, ts[1..]);
        FlattenExact(c, t.kids + ts[1..]);
        SpreadAppend(c, t.kids, ts[1..]);
        Assoc([Tree(t.node, [])], Spread(c, t.kids), Spread(c, ts[1..]));
      } else {
        FlattenExact(c, ts[1..]);
      }
    }
  }

  /** Entries with a prompt text stay as they are. */
  lemma {:induction false} FlattenKeeps(c: Config, ts: seq<Tree>, t: Tree)
    requires t in ts && c.hasText(t.node)
    ensures t in Flatten(c, ts)
  {
    FlattenExact(c, ts);
    SpreadKeeps(c, ts, t);
  }

  lemma {:induction false} SpreadKeeps(c: Config, ts: seq<Tree>, t: Tree)
    requires t in ts && c.hasText(t.node)
    ensures t in Spread(c, ts)
  {
    HeadTail(ts);
    if t != ts[0] { SpreadKeeps(c, ts[1..], t); }
  }
}
