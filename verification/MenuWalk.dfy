/** The stack-free walk of `conf_write` over the finalized menu. */
module MenuWalk {
  import opened MenuTree
  import opened MenuLinks
  import opened MenuFinalize
  import opened Sequences

  /** What is still ahead above `par`: `ups` holds, innermost first, the siblings that follow
      each entry on the way up to `root`. */
  ghost predicate Above(l: Links, root: nat, par: Ptr, ups: seq<seq<Tree>>)
    decreases |ups|
  {
    if ups == [] then par == To(root)
    else par != Null && Linked(l, l.Next(par.id), Null, l.Parent(par.id), ups[0])
         && Above(l, root, l.Parent(par.id), ups[1..])
  }

  function PreAll(ups: seq<seq<Tree>>): seq<nat> {
    if ups == [] then [] else Pre(ups[0]) + PreAll(ups[1..])
  }

  lemma PreSplit(ts: seq<Tree>)
    requires ts != []
    ensures Pre(ts) == [ts[0].node] + Pre(ts[0].kids) + Pre(ts[1..])
    ensures Pre([]) == []
  {
  }

  /** The walk visits every entry below `root` exactly once, in source order, and ends. */
  method Walk(l: Links, root: nat, ghost kids: seq<Tree>) returns (visited: seq<nat>)
    requires Linked(l, l.List(root), Null, To(root), kids)
    requires l.Next(root) == Null && l.Parent(root) == Null
    ensures visited == Pre(kids)
  {
    visited := [];
    var menu := l.List(root);
    ghost var ts, par, ups: seq<seq<Tree>> := kids, To(root), [];
    while menu != Null
      invariant Linked(l, menu, Null, par, ts)
      invariant menu != Null ==> Above(l, root, par, ups)
      invariant visited + (Pre(ts) + PreAll(ups)) == Pre(kids)
      invariant menu == Null ==> ups == []
      decreases |Pre(kids)| - |visited|, menu != Null
    {
      var n := menu.id;
      ghost var t, rest := ts[0], ts[1..];
      PreSplit(ts);
      HeadTail(ts);
      LinkedCons(l, menu, Null, par, t, rest);
      ghost var before := visited;
      visited := visited + [n];
      Regroup(before, n, Pre(t.kids), Pre(rest), PreAll(ups));
      if l.List(n) != Null {
        menu := l.List(n);
        Cons(rest, ups);
        assert PreAll([rest] + ups) == Pre(rest) + PreAll(ups);
        ts, par, ups := t.kids, To(n), [rest] + ups;
      } else {
        assert t.kids == [];
        if l.Next(n) != Null {
          menu := l.Next(n);
          ts := rest;
        } else {
          assert rest == [];
          menu, ts, par, ups := Climb(l, root, l.Parent(n), ups);
        }
      }
    }
    assert ts == [];
  }

  lemma Regroup<T>(v: seq<T>, n: T, a: seq<T>, b: seq<T>, c: seq<T>)
    ensures v + (([n] + a + b) + c) == (v + [n]) + (a + (b + c))
    ensures [] + (b + c) == b + c && [] + ([] + c) == c
  {
  }

  /** The inner loop: up to the nearest entry with a following sibling. */
  method Climb(l: Links, root: nat, from: Ptr, ghost above: seq<seq<Tree>>)
    returns (menu: Ptr, ghost ts: seq<Tree>, ghost par: Ptr, ghost ups: seq<seq<Tree>>)
    requires Above(l, root, from, above) && l.Next(root) == Null && l.Parent(root) == Null
    ensures Linked(l, menu, Null, par, ts) && (menu != Null ==> Above(l, root, par, ups))
    ensures Pre(ts) + PreAll(ups) == PreAll(above)
    ensures menu == Null ==> ups == []
  {
    menu, ts, par, ups := from, [], Null, above;
    while menu != Null
      invariant menu == Null ==> ups == []
      invariant menu != Null ==> Above(l, root, menu, ups)
      invariant PreAll(ups) == PreAll(above)
      decreases |ups|, menu != Null
    {
      if l.Next(menu.id) != Null {
        par := l.Parent(menu.id);
        ts, ups := ups[0], ups[1..];
        menu := l.Next(menu.id);
        return;
      }
      if ups != [] {
        LinkedNull(l, l.Parent(menu.id), ups[0]);
        Empty(PreAll(ups[1..]));
        ups := ups[1..];
      }
      menu := l.Parent(menu.id);
    }
  }

  /** Finalizing the menu and walking it writes the entries in the order of the source. */
  method FinalizeAndWalk(store: MenuStore, c: Config, root: nat, ghost tree: Tree) returns (visited: seq<nat>)
    requires tree.node == root && Distinct([tree])
    requires Linked(store.links, To(root), Null, Null, [tree])
    modifies store
    ensures visited == Pre(tree.kids)
  {
    Empty([tree]);
    store.FinalizeMenu(c, root, tree, [], Null);
    ghost var f := Finalize(c, tree, []);
    assert f.1 == [];
    Empty([f.0]);
    LinkedCons(store.links, To(root), Null, Null, f.0, []);
    PreCons(f.0, []);
    PreCons(tree, []);
    visited := Walk(store.links, root, f.0.kids);
    assert ([root] + Pre(f.0.kids))[1..] == ([root] + Pre(tree.kids))[1..];
  }
}
