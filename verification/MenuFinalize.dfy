/** `menu_finalize` on the links themselves. */
module MenuFinalize {
  import opened MenuTree
  import opened MenuLinks
  import opened Sequences

  lemma GatherDistinct(c: Config, m: Tree, rest: seq<Tree>)
    requires Distinct([m] + rest)
    ensures var g := Gather(c, m, rest);
            && Distinct(g.0) && Distinct(g.1) && Nodes(g.0) !! Nodes(g.1)
            && m.node !in Nodes(g.0) && m.node !in Nodes(g.1)
            && Nodes(g.0) + Nodes(g.1) == Nodes(m.kids) + Nodes(rest)
  {
    var g := Gather(c, m, rest);
    DistinctCons(m, rest);
    PreAppend(m.kids, rest);
    SamePre(g.0 + g.1, m.kids + rest);
    DistinctAppend(m.kids, rest);
    DistinctAppend(g.0, g.1);
  }

  class MenuStore {
    var links: Links

    /** `menu_finalize(p)`: `m` is the tree at `p`, `rest` the siblings after it, `par` their parent. */
    method FinalizeMenu(c: Config, p: nat, ghost m: Tree, ghost rest: seq<Tree>, ghost par: Ptr)
      requires m.node == p && Linked(links, To(p), Null, par, [m] + rest) && Distinct([m] + rest)
      modifies this
      ensures var f := Finalize(c, m, rest); Linked(links, To(p), Null, par, [f.0] + f.1)
      ensures OnlyChanged(old(links), links, Nodes([m] + rest))
      decreases |Pre([m] + rest)|, 1
    {
      LinkedCons(links, To(p), Null, par, m, rest);
      DistinctCons(m, rest);
      GatherSubmenu(c, p, m, rest, par);
      ghost var g := Gather(c, m, rest);
      GatherDistinct(c, m, rest);
      ghost var mid := links;
      FlattenChildren(c, p, g.0);
      Frame(mid, links, Nodes(g.0), mid.Next(p), Null, par, g.1);
      assert links.SameAt(mid, p);
      LinkedCons(links, To(p), Null, par, Tree(p, Flatten(c, g.0)), g.1);
    }

    /** Its first half. */
    method GatherSubmenu(c: Config, p: nat, ghost m: Tree, ghost rest: seq<Tree>, ghost par: Ptr)
      requires m.node == p && Distinct([m] + rest)
      requires Linked(links, links.List(p), Null, To(p), m.kids) && Linked(links, links.Next(p), Null, par, rest)
      modifies this
      ensures var g := Gather(c, m, rest);
              && Linked(links, links.List(p), Null, To(p), g.0) && Linked(links, links.Next(p), Null, par, g.1)
              && links.Parent(p) == old(links).Parent(p)
      ensures OnlyChanged(old(links), links, Nodes([m] + rest))
      decreases |Pre([m] + rest)|, 0
    {
      DistinctCons(m, rest);
      PreCons(m, rest);
      if links.List(p) != Null {
        FinalizeChildren(c, p, m.kids);
        assert links.SameAt(old(links), p);
        Frame(old(links), links, Nodes(m.kids), links.Next(p), Null, par, rest);
      } else if c.hasSym(p) {
        assert m.kids == [];
        AdoptSiblings(c, p, rest, par);
      }
    }

    /** The loop that finalizes every child. */
    method FinalizeChildren(c: Config, p: nat, ghost kids: seq<Tree>)
      requires Linked(links, links.List(p), Null, To(p), kids) && Distinct(kids) && p !in Nodes(kids)
      modifies this
      ensures Linked(links, links.List(p), Null, To(p), FinalizeList(c, kids))
      ensures OnlyChanged(old(links), links, Nodes(kids))
      decreases |Pre(kids)|, 3
    {
      var menu := links.List(p);
      ghost var done, todo: seq<Tree> := [], kids;
      Empty(kids);
      Empty(FinalizeList(c, kids));
      while menu != Null
        invariant Finalizing(c, old(links), links, p, kids, done, todo, menu)
        decreases |Pre(todo)|
      {
        ghost var f := Finalize(c, todo[0], todo[1..]);
        FinalizeOne(c, menu.id, p, old(links), kids, done, todo);
        done, todo := done + [f.0], f.1;
        menu := links.Next(menu.id);
      }
      LinkedNull(links, To(p), todo);
      Empty(done);
    }

    /** Its body. */
    method FinalizeOne(c: Config, menu: nat, p: nat, ghost start: Links, ghost kids: seq<Tree>,
                       ghost done: seq<Tree>, ghost todo: seq<Tree>)
      requires Finalizing(c, start, links, p, kids, done, todo, To(menu)) && |Pre(todo)| <= |Pre(kids)|
      modifies this
      ensures todo != []
      ensures var f := Finalize(c, todo[0], todo[1..]);
              && Finalizing(c, start, links, p, kids, done + [f.0], f.1, links.Next(menu))
              && |Pre(f.1)| < |Pre(todo)|
      decreases |Pre(todo)|, 2
    {
      ghost var before := links;
      ghost var f := Finalize(c, todo[0], todo[1..]);
      HeadTail(todo);
      DistinctAppend(done, todo);
      FinalizeMenu(c, menu, todo[0], todo[1..], To(p));
      StepKeepsEntries(done, todo, f.0, f.1, kids);
      FinalizedOne(c, start, before, links, p, kids, done, todo, f.0, f.1);
    }

    /** The loop that takes following siblings into the submenu of `p`. */
    method AdoptSiblings(c: Config, p: nat, ghost rest: seq<Tree>, ghost par: Ptr)
      requires links.List(p) == Null && Linked(links, links.Next(p), Null, par, rest)
      requires Distinct(rest) && p !in Nodes(rest)
      modifies this
      ensures var a := AdoptFrom(c, p, rest);
              && Linked(links, links.List(p), Null, To(p), a.0) && Linked(links, links.Next(p), Null, par, a.1)
              && links.Parent(p) == old(links).Parent(p)
      ensures OnlyChanged(old(links), links, {p} + Nodes(rest))
      decreases |Pre(rest)|, 4
    {
      var menu, lastMenu;
      ghost var taken, left;
      menu, lastMenu, taken, left := AdoptLoop(c, p, rest, par);
      TakingDone(c, old(links), links, p, par, rest, taken, left, menu, lastMenu);
      if lastMenu != Null {
        HangBelow(p, lastMenu.id, par, taken, left, menu);
      }
    }

    /** Its loop. */
    method AdoptLoop(c: Config, p: nat, ghost rest: seq<Tree>, ghost par: Ptr)
      returns (menu: Ptr, lastMenu: Ptr, ghost taken: seq<Tree>, ghost left: seq<Tree>)
      requires Linked(links, links.Next(p), Null, par, rest) && Distinct(rest) && p !in Nodes(rest)
      modifies this
      ensures Taking(c, old(links), links, p, par, rest, taken, left, menu, lastMenu)
      ensures menu != Null ==> !c.adopts(p, menu.id)
      decreases |Pre(rest)|, 3
    {
      menu, lastMenu := links.Next(p), Null;
      taken, left := [], rest;
      TakingStart(c, links, p, par, rest);
      while menu != Null
        invariant Taking(c, old(links), links, p, par, rest, taken, left, menu, lastMenu)
        invariant |Pre(left)| <= |Pre(rest)|
        decreases |Pre(left)|
      {
        if !c.adopts(p, menu.id) {
          break;
        }
        ghost var f := Finalize(c, left[0], left[1..]);
        AdoptOne(c, menu.id, p, par, old(links), rest, taken, left, lastMenu);
        lastMenu := menu;
        taken, left := taken + [f.0], f.1;
        menu := links.Next(menu.id);
      }
    }

    /** After it: the entries up to `lastMenu` become the submenu of `p`. */
    method HangBelow(p: nat, lastMenu: nat, ghost par: Ptr, ghost taken: seq<Tree>, ghost left: seq<Tree>, ghost menu: Ptr)
      requires taken != [] && lastMenu == taken[|taken| - 1].node
      requires Distinct(taken) && p !in Nodes(taken) && p !in Nodes(left) && Nodes(taken) !! Nodes(left)
      requires Linked(links, links.Next(p), menu, To(p), taken) && Linked(links, menu, Null, par, left)
      modifies this
      ensures Linked(links, links.List(p), Null, To(p), taken) && Linked(links, links.Next(p), Null, par, left)
      ensures links.Parent(p) == old(links).Parent(p) && OnlyChanged(old(links), links, {p} + Nodes(taken))
    {
      InitLast(taken);
      links := links.SetList(p, links.Next(p));
      links := links.SetNext(p, links.Next(lastMenu));
      links := links.SetNext(lastMenu, Null);
      Cut(old(links), links, p, par, taken[..|taken| - 1], taken[|taken| - 1], menu, left);
    }

    /** Its body, on an entry that is taken. */
    method AdoptOne(c: Config, menu: nat, p: nat, ghost par: Ptr, ghost start: Links, ghost rest: seq<Tree>,
                    ghost taken: seq<Tree>, ghost left: seq<Tree>, ghost lastMenu: Ptr)
      requires Taking(c, start, links, p, par, rest, taken, left, To(menu), lastMenu) && c.adopts(p, menu)
      modifies this
      ensures left != []
      ensures var f := Finalize(c, left[0], left[1..]);
              && Taking(c, start, links, p, par, rest, taken + [f.0], f.1, links.Next(menu), To(menu))
              && |Pre(f.1)| < |Pre(left)|
      decreases |Pre(left)|, 2
    {
      ghost var before := links;
      ghost var f := Finalize(c, left[0], left[1..]);
      HeadTail(left);
      DistinctAppend(taken, left);
      FinalizeMenu(c, menu, left[0], left[1..], par);
      StepKeepsEntries(taken, left, f.0, f.1, rest);
      TakeOne(c, start, before, links, p, par, rest, taken, left, lastMenu);
      links := links.SetParent(menu, To(p));
    }

    /** The loop that lifts the submenu of an entry without prompt text to the entry's own level. */
    method FlattenChildren(c: Config, p: nat, ghost kids: seq<Tree>)
      requires Linked(links, links.List(p), Null, To(p), kids) && Distinct(kids) && p !in Nodes(kids)
      modifies this
      ensures Linked(links, links.List(p), Null, To(p), Flatten(c, kids))
      ensures OnlyChanged(old(links), links, Nodes(kids))
    {
      var menu := links.List(p);
      ghost var done, todo: seq<Tree> := [], kids;
      FlatteningStart(c, links, p, kids);
      while menu != Null
        invariant Flattening(c, old(links), links, p, kids, done, todo, menu)
        decreases |Pre(todo)|
      {
        ghost var next := Lifted(c, menu.id, todo);
        FlattenMenu(c, menu.id, p, old(links), kids, done, todo);
        done, todo := done + [next.0], next.1;
        menu := links.Next(menu.id);
      }
      FlatteningDone(c, old(links), links, p, kids, done, todo);
    }

    /** Its body. */
    method FlattenMenu(c: Config, menu: nat, p: nat, ghost start: Links, ghost kids: seq<Tree>,
                       ghost done: seq<Tree>, ghost todo: seq<Tree>)
      requires Flattening(c, start, links, p, kids, done, todo, To(menu))
      modifies this
      ensures todo != []
      ensures var next := Lifted(c, menu, todo);
              && Flattening(c, start, links, p, kids, done + [next.0], next.1, links.Next(menu))
              && |Pre(next.1)| < |Pre(todo)|
    {
      ghost var before := links;
      HeadTail(todo);
      DistinctAppend(done, todo);
      ghost var next := Lifted(c, menu, todo);
      LiftIfBare(c, menu, p, todo);
      StepKeepsEntries(done, todo, next.0, next.1, kids);
      FlattenOne(c, start, before, links, p, kids, done, todo, next.0, next.1);
    }

    /** An entry without prompt text gives up its submenu. */
    method LiftIfBare(c: Config, menu: nat, p: nat, ghost todo: seq<Tree>)
      requires todo != [] && Linked(links, To(menu), Null, To(p), todo) && Distinct(todo)
      modifies this
      ensures var next := Lifted(c, menu, todo);
              && Linked(links, To(menu), Null, To(p), [next.0] + next.1) && Pre([next.0] + next.1) == Pre(todo)
              && OnlyChanged(old(links), links, Nodes(todo)) && next.0.node == todo[0].node
              && Flatten(c, todo) == [next.0] + Flatten(c, next.1)
    {
      ghost var t, ts := todo[0], todo[1..];
      HeadTail(todo);
      DistinctCons(t, ts);
      LinkedCons(links, To(menu), Null, To(p), t, ts);
      ghost var next := Lifted(c, menu, todo);
      LiftedEntries(t, ts, next.0, next.1);
      if links.List(menu) != Null && !c.hasText(menu) { LiftSubmenu(menu, p, t.kids, ts); }
      LinkedCons(links, To(menu), Null, To(p), next.0, next.1);
    }

    /** Inside it: the submenu of `menu` becomes the entries right after it. */
    method LiftSubmenu(menu: nat, p: nat, ghost kids: seq<Tree>, ghost ts: seq<Tree>)
      requires kids != [] && Linked(links, links.List(menu), Null, To(menu), kids)
      requires Linked(links, links.Next(menu), Null, To(p), ts)
      requires Distinct(kids) && Nodes(kids) !! {menu} + Nodes(ts) && menu !in Nodes(ts)
      modifies this
      ensures links.List(menu) == Null && links.Parent(menu) == old(links).Parent(menu)
      ensures Linked(links, links.Next(menu), Null, To(p), kids + ts)
      ensures OnlyChanged(old(links), links, {menu} + Nodes(kids))
    {
      var lastMenu := links.List(menu);
      ghost var done, todo: seq<Tree> := [], kids;
      Empty(kids);
      while true
        invariant Lifting(old(links), links, menu, p, kids, done, todo, lastMenu)
        decreases |todo|
      {
        ghost var before := links;
        ghost var t, us := todo[0], todo[1..];
        HeadTail(todo);
        links := links.SetParent(lastMenu.id, To(p));
        Reparent(old(links), before, links, menu, p, kids, done, t, us);
        if links.Next(lastMenu.id) == Null {
          LinkedNull(links, To(menu), us);
          Empty(done + [t]);
          break;
        }
        done, todo := done + [t], us;
        lastMenu := links.Next(lastMenu.id);
      }
      ghost var was, t := links, todo[0];
      Frame(old(links), was, Nodes(kids), was.Next(menu), Null, To(p), ts);
      links := links.SetNext(lastMenu.id, links.Next(menu));
      links := links.SetNext(menu, links.List(menu));
      links := links.SetList(menu, Null);
      Splice(was, links, menu, p, done, t, ts);
    }
  }

  /** One entry moves from the part to do to the part done. */
  lemma StepKeepsEntries(done: seq<Tree>, todo: seq<Tree>, u: Tree, us: seq<Tree>, all: seq<Tree>)
    requires Pre(done + todo) == Pre(all) && Distinct(done + todo) && Pre([u] + us) == Pre(todo)
    ensures Pre((done + [u]) + us) == Pre(all) && Distinct((done + [u]) + us)
    ensures |Pre(us)| < |Pre(todo)|
  {
    PreAppend(done, todo);
    PreAppend(done, [u] + us);
    Assoc(done, [u], us);
    SamePre((done + [u]) + us, done + todo);
    PreCons(u, us);
  }

  /** An entry and those behind it, once its submenu is lifted if it has no prompt text. */
  function Lifted(c: Config, menu: nat, todo: seq<Tree>): (Tree, seq<Tree>)
    requires todo != []
  {
    if todo[0].kids != [] && !c.hasText(menu) then (Tree(menu, []), todo[0].kids + todo[1..])
    else (todo[0], todo[1..])
  }

  lemma LiftedEntries(t: Tree, ts: seq<Tree>, u: Tree, us: seq<Tree>)
    requires (u, us) == (t, ts) || (u, us) == (Tree(t.node, []), t.kids + ts)
    ensures Pre([u] + us) == Pre([t] + ts)
  {
    PreCons(t, ts);
    PreCons(u, us);
    PreAppend(t.kids, ts);
    Assoc([t.node], Pre(t.kids), Pre(ts));
    Empty([t.node]);
  }

  /** The state of the adopting loop: `taken` hangs below `p`, `left` has not been looked at. */
  ghost predicate Taking(c: Config, start: Links, l: Links, p: nat, par: Ptr, rest: seq<Tree>,
                         taken: seq<Tree>, left: seq<Tree>, menu: Ptr, lastMenu: Ptr) {
    && l.SameAt(start, p) && OnlyChanged(start, l, Nodes(rest)) && p !in Nodes(rest)
    && Linked(l, l.Next(p), menu, To(p), taken) && Linked(l, menu, Null, par, left)
    && Pre(taken + left) == Pre(rest) && Distinct(taken + left)
    && AdoptFrom(c, p, rest) == (taken + AdoptFrom(c, p, left).0, AdoptFrom(c, p, left).1)
    && (if taken == [] then lastMenu == Null else lastMenu == To(taken[|taken| - 1].node))
  }

  lemma TakingStart(c: Config, l: Links, p: nat, par: Ptr, rest: seq<Tree>)
    requires Linked(l, l.Next(p), Null, par, rest) && Distinct(rest) && p !in Nodes(rest)
    ensures Taking(c, l, l, p, par, rest, [], rest, l.Next(p), Null)
  {
    Empty(rest);
    Empty(AdoptFrom(c, p, rest).0);
  }

  lemma TakeOne(c: Config, start: Links, before: Links, l: Links, p: nat, par: Ptr, rest: seq<Tree>,
                taken: seq<Tree>, left: seq<Tree>, lastMenu: Ptr)
    requires left != [] && c.adopts(p, left[0].node)
    requires var menu := left[0].node;
             var f := Finalize(c, left[0], left[1..]);
             && Taking(c, start, before, p, par, rest, taken, left, To(menu), lastMenu)
             && Linked(l, To(menu), Null, par, [f.0] + f.1) && OnlyChanged(before, l, Nodes(left))
             && Pre((taken + [f.0]) + f.1) == Pre(rest) && Distinct((taken + [f.0]) + f.1)
    ensures var menu := left[0].node;
            var f := Finalize(c, left[0], left[1..]);
            var l' := l.SetParent(menu, To(p));
            Taking(c, start, l', p, par, rest, taken + [f.0], f.1, l'.Next(menu), To(menu))
  {
    var f := Finalize(c, left[0], left[1..]);
    HeadTail(left);
    SamePre(taken + left, rest);
    DistinctAppend(taken, left);
    MoveBelow(before, l, p, left[0].node, par, taken, left, f.0, f.1);
    Assoc(taken, [f.0], AdoptFrom(c, p, f.1).0);
  }

  lemma TakingDone(c: Config, start: Links, l: Links, p: nat, par: Ptr, rest: seq<Tree>,
                   taken: seq<Tree>, left: seq<Tree>, menu: Ptr, lastMenu: Ptr)
    requires Taking(c, start, l, p, par, rest, taken, left, menu, lastMenu)
    requires menu != Null ==> !c.adopts(p, menu.id)
    ensures AdoptFrom(c, p, rest) == (taken, left)
    ensures Distinct(taken) && Nodes(taken) !! Nodes(left) && Nodes(taken) + Nodes(left) == Nodes(rest)
  {
    Empty(taken);
    if menu == Null { LinkedNull(l, par, left); }
    SamePre(taken + left, rest);
    DistinctAppend(taken, left);
  }

  /** After `menu` is finalized and its `parent` set to `p`, it ends the list of entries taken. */
  lemma MoveBelow(before: Links, l: Links, p: nat, menu: nat, par: Ptr,
                  taken: seq<Tree>, left: seq<Tree>, u: Tree, us: seq<Tree>)
    requires Distinct(taken + left) && Pre([u] + us) == Pre(left) && p !in Nodes(left) && u.node == menu
    requires Linked(before, before.Next(p), To(menu), To(p), taken) && OnlyChanged(before, l, Nodes(left))
    requires Linked(l, To(menu), Null, par, [u] + us)
    ensures var l' := l.SetParent(menu, To(p));
            && Linked(l', l'.Next(p), l'.Next(menu), To(p), taken + [u]) && Linked(l', l'.Next(menu), Null, par, us)
            && l'.SameAt(before, p) && OnlyChanged(before, l', Nodes(left))
  {
    var l' := l.SetParent(menu, To(p));
    DistinctAppend(taken, left);
    SamePre([u] + us, left);
    DistinctCons(u, us);
    LinkedCons(l, To(menu), Null, par, u, us);
    ParentChanged(l, menu, To(p));
    assert menu in Nodes(left);
    ChangedTwice(before, l, l', Nodes(left), menu);
    assert l'.SameAt(before, p);
    Frame(before, l', Nodes(left), before.Next(p), To(menu), To(p), taken);
    Frame(l, l', {menu}, l.List(menu), Null, To(menu), u.kids);
    Frame(l, l', {menu}, l.Next(menu), Null, par, us);
    LinkedSnoc(l', l'.Next(p), l'.Next(menu), To(p), taken, u);
  }

  /** The entries taken become the submenu of `p`, the rest its followers. */
  lemma Cut(was: Links, l: Links, p: nat, par: Ptr, init: seq<Tree>, t: Tree, menu: Ptr, left: seq<Tree>)
    requires Distinct(init + [t]) && p !in Nodes(init + [t]) && p !in Nodes(left) && Nodes(init + [t]) !! Nodes(left)
    requires Linked(was, was.Next(p), menu, To(p), init + [t]) && Linked(was, menu, Null, par, left)
    requires l == was.SetList(p, was.Next(p)).SetNext(p, was.Next(t.node)).SetNext(t.node, Null)
    ensures Linked(l, l.List(p), Null, To(p), init + [t]) && Linked(l, l.Next(p), Null, par, left)
    ensures l.Parent(p) == was.Parent(p) && OnlyChanged(was, l, {p} + Nodes(init + [t]))
  {
    DistinctAppend(init, [t]);
    DistinctCons(t, []);
    Empty([t]);
    LinkedSnoc(was, was.Next(p), menu, To(p), init, t);
    assert OnlyChanged(was, l, {p, t.node});
    Frame(was, l, {p, t.node}, was.Next(p), To(t.node), To(p), init);
    Frame(was, l, {p, t.node}, was.List(t.node), Null, To(t.node), t.kids);
    Frame(was, l, {p, t.node}, menu, Null, par, left);
    LinkedSnoc(l, l.List(p), Null, To(p), init, t);
  }

  /** The state of the flattening loop. */
  ghost predicate Flattening(c: Config, start: Links, l: Links, p: nat, kids: seq<Tree>,
                             done: seq<Tree>, todo: seq<Tree>, menu: Ptr) {
    && l.SameAt(start, p) && OnlyChanged(start, l, Nodes(kids)) && p !in Nodes(kids)
    && Linked(l, l.List(p), menu, To(p), done) && Linked(l, menu, Null, To(p), todo)
    && Pre(done + todo) == Pre(kids) && Distinct(done + todo)
    && Flatten(c, kids) == done + Flatten(c, todo)
  }

  /** The state of the loop over the children: those in `done` are finalized. */
  ghost predicate Finalizing(c: Config, start: Links, l: Links, p: nat, kids: seq<Tree>,
                             done: seq<Tree>, todo: seq<Tree>, menu: Ptr) {
    && l.List(p) == start.List(p) && OnlyChanged(start, l, Nodes(kids)) && p !in Nodes(kids)
    && Linked(l, l.List(p), menu, To(p), done) && Linked(l, menu, Null, To(p), todo)
    && Pre(done + todo) == Pre(kids) && Distinct(done + todo)
    && FinalizeList(c, kids) == done + FinalizeList(c, todo)
  }

  lemma FinalizedOne(c: Config, start: Links, before: Links, l: Links, p: nat, kids: seq<Tree>,
                     done: seq<Tree>, todo: seq<Tree>, u: Tree, us: seq<Tree>)
    requires todo != [] && Finalizing(c, start, before, p, kids, done, todo, To(todo[0].node))
    requires u.node == todo[0].node && FinalizeList(c, todo) == [u] + FinalizeList(c, us)
    requires Linked(l, To(u.node), Null, To(p), [u] + us) && OnlyChanged(before, l, Nodes(todo))
    requires Pre((done + [u]) + us) == Pre(kids) && Distinct((done + [u]) + us)
    ensures Finalizing(c, start, l, p, kids, done + [u], us, l.Next(u.node))
  {
    SamePre(done + todo, kids);
    DistinctAppend(done, todo);
    assert l.SameAt(before, p);
    Frame(before, l, Nodes(todo), l.List(p), To(u.node), To(p), done);
    LinkedCons(l, To(u.node), Null, To(p), u, us);
    LinkedSnoc(l, l.List(p), l.Next(u.node), To(p), done, u);
    Assoc(done, [u], FinalizeList(c, us));
  }

  lemma FlatteningStart(c: Config, l: Links, p: nat, kids: seq<Tree>)
    requires Linked(l, l.List(p), Null, To(p), kids) && Distinct(kids) && p !in Nodes(kids)
    ensures Flattening(c, l, l, p, kids, [], kids, l.List(p))
  {
    Empty(kids);
    Empty(Flatten(c, kids));
  }

  lemma FlatteningDone(c: Config, start: Links, l: Links, p: nat, kids: seq<Tree>, done: seq<Tree>, todo: seq<Tree>)
    requires Flattening(c, start, l, p, kids, done, todo, Null)
    ensures Linked(l, l.List(p), Null, To(p), Flatten(c, kids)) && OnlyChanged(start, l, Nodes(kids))
  {
    LinkedNull(l, To(p), todo);
    Empty(done);
  }

  lemma FlattenOne(c: Config, start: Links, before: Links, l: Links, p: nat, kids: seq<Tree>,
                   done: seq<Tree>, todo: seq<Tree>, u: Tree, us: seq<Tree>)
    requires todo != [] && Flattening(c, start, before, p, kids, done, todo, To(todo[0].node))
    requires u.node == todo[0].node && Flatten(c, todo) == [u] + Flatten(c, us)
    requires Linked(l, To(u.node), Null, To(p), [u] + us) && OnlyChanged(before, l, Nodes(todo))
    requires Pre((done + [u]) + us) == Pre(kids) && Distinct((done + [u]) + us)
    ensures Flattening(c, start, l, p, kids, done + [u], us, l.Next(u.node))
  {
    SamePre(done + todo, kids);
    DistinctAppend(done, todo);
    assert l.SameAt(before, p);
    Frame(before, l, Nodes(todo), l.List(p), To(u.node), To(p), done);
    LinkedCons(l, To(u.node), Null, To(p), u, us);
    LinkedSnoc(l, l.List(p), l.Next(u.node), To(p), done, u);
    Assoc(done, [u], Flatten(c, us));
  }

  /** The state of the lifting loop: the entries `done` have `p` for parent, the others still `menu`. */
  ghost predicate Lifting(start: Links, l: Links, menu: nat, p: nat, kids: seq<Tree>,
                          done: seq<Tree>, todo: seq<Tree>, lastMenu: Ptr) {
    && l.SameAt(start, menu) && OnlyChanged(start, l, Nodes(kids))
    && Distinct(kids) && menu !in Nodes(kids)
    && done + todo == kids && todo != [] && lastMenu == To(todo[0].node)
    && Linked(l, l.List(menu), lastMenu, To(p), done) && Linked(l, lastMenu, Null, To(menu), todo)
  }

  /** One more entry of a lifted submenu has its `parent` corrected. */
  lemma Reparent(start: Links, before: Links, l: Links, menu: nat, p: nat, kids: seq<Tree>,
                 done: seq<Tree>, t: Tree, us: seq<Tree>)
    requires Lifting(start, before, menu, p, kids, done, [t] + us, To(t.node))
    requires l == before.SetParent(t.node, To(p))
    ensures l.SameAt(start, menu) && OnlyChanged(start, l, Nodes(kids))
    ensures (done + [t]) + us == kids
    ensures Linked(l, l.List(menu), l.Next(t.node), To(p), done + [t])
    ensures Linked(l, l.Next(t.node), Null, To(menu), us)
    ensures us != [] ==> Lifting(start, l, menu, p, kids, done + [t], us, l.Next(t.node))
  {
    DistinctAppend(done, [t] + us);
    DistinctCons(t, us);
    Assoc(done, [t], us);
    LinkedCons(before, To(t.node), Null, To(menu), t, us);
    Frame(before, l, {t.node}, before.List(menu), To(t.node), To(p), done);
    Frame(before, l, {t.node}, before.List(t.node), Null, To(t.node), t.kids);
    Frame(before, l, {t.node}, before.Next(t.node), Null, To(menu), us);
    LinkedSnoc(l, l.List(menu), l.Next(t.node), To(p), done, t);
  }

  /** The lifted submenu is linked in between `menu` and what followed it. */
  lemma Splice(was: Links, l: Links, menu: nat, p: nat, done: seq<Tree>, t: Tree, ts: seq<Tree>)
    requires Distinct(done + [t]) && menu !in Nodes(done + [t]) && menu !in Nodes(ts) && Nodes(done + [t]) !! Nodes(ts)
    requires Linked(was, was.List(menu), Null, To(p), done + [t]) && Linked(was, was.Next(menu), Null, To(p), ts)
    requires l == was.SetNext(t.node, was.Next(menu)).SetNext(menu, was.List(menu)).SetList(menu, Null)
    ensures Linked(l, l.Next(menu), Null, To(p), (done + [t]) + ts)
    ensures l.List(menu) == Null && l.Parent(menu) == was.Parent(menu)
    ensures OnlyChanged(was, l, {menu} + Nodes(done + [t]))
  {
    DistinctAppend(done, [t]);
    DistinctCons(t, []);
    Empty([t]);
    LinkedSnoc(was, was.List(menu), Null, To(p), done, t);
    assert OnlyChanged(was, l, {menu, t.node});
    Frame(was, l, {menu, t.node}, was.List(menu), To(t.node), To(p), done);
    Frame(was, l, {menu, t.node}, was.List(t.node), Null, To(t.node), t.kids);
    Frame(was, l, {menu, t.node}, was.Next(menu), Null, To(p), ts);
    LinkedSnoc(l, l.Next(menu), was.Next(menu), To(p), done, t);
    LinkedAppend(l, l.Next(menu), was.Next(menu), Null, To(p), done + [t], ts);
  }
}
