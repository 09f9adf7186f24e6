/** The `list`, `next` and `parent` links of menu entries, and what they spell. */
module MenuLinks {
  import opened MenuTree

  datatype Ptr = Null | To(id: nat)

  /** The three links of every entry; an entry without one has `Null` there. */
  datatype Links = Links(list: map<nat, Ptr>, next: map<nat, Ptr>, parent: map<nat, Ptr>) {
    function List(x: nat): Ptr { if x in list then list[x] else Null }
    function Next(x: nat): Ptr { if x in next then next[x] else Null }
    function Parent(x: nat): Ptr { if x in parent then parent[x] else Null }

    function SetList(x: nat, p: Ptr): Links { this.(list := list[x := p]) }
    function SetNext(x: nat, p: Ptr): Links { this.(next := next[x := p]) }
    function SetParent(x: nat, p: Ptr): Links { this.(parent := parent[x := p]) }

    predicate SameAt(l: Links, x: nat) { List(x) == l.List(x) && Next(x) == l.Next(x) && Parent(x) == l.Parent(x) }
  }

  /** From `first` to before `stop` the links spell the trees `ts` at one level under `par`,
      every `parent` link included. */
  predicate Linked(l: Links, first: Ptr, stop: Ptr, par: Ptr, ts: seq<Tree>)
    decreases ts
  {
    if ts == [] then first == stop
    else
      var n := ts[0].node;
      && first == To(n) && l.Parent(n) == par
      && Linked(l, l.List(n), Null, To(n), ts[0].kids)
      && Linked(l, l.Next(n), stop, par, ts[1..])
  }

  ghost predicate OnlyChanged(l: Links, l': Links, s: set<nat>) { forall x: nat :: x !in s ==> l'.SameAt(l, x) }

  lemma ChangedTwice(a: Links, b: Links, c: Links, s: set<nat>, x: nat)
    requires OnlyChanged(a, b, s) && OnlyChanged(b, c, {x}) && x in s
    ensures OnlyChanged(a, c, s)
  {
    forall y: nat | y !in s ensures c.SameAt(a, y) {
      assert b.SameAt(a, y) && c.SameAt(b, y);
    }
  }

  lemma ParentChanged(l: Links, x: nat, p: Ptr)
    ensures OnlyChanged(l, l.SetParent(x, p), {x})
  {
  }

  /** Links of other entries do not matter. */
  lemma {:induction false} Frame(l: Links, l': Links, s: set<nat>, first: Ptr, stop: Ptr, par: Ptr, ts: seq<Tree>)
    requires OnlyChanged(l, l', s) && Nodes(ts) !! s && Linked(l, first, stop, par, ts)
    ensures Linked(l', first, stop, par, ts)
    decreases ts
  {
    if ts != [] {
      var n := ts[0].node;
      assert n in Nodes(ts) && l'.SameAt(l, n);
      Frame(l, l', s, l.List(n), Null, To(n), ts[0].kids);
      Frame(l, l', s, l.Next(n), stop, par, ts[1..]);
    }
  }

  lemma {:induction false} LinkedAppend(l: Links, first: Ptr, mid: Ptr, stop: Ptr, par: Ptr, a: seq<Tree>, b: seq<Tree>)
    requires Linked(l, first, mid, par, a)
    ensures Linked(l, mid, stop, par, b) <==> Linked(l, first, stop, par, a + b)
    decreases |a|
  {
    if a == [] {
      assert a + b == b;
    } else {
      assert (a + b)[0] == a[0] && (a + b)[1..] == a[1..] + b;
      LinkedAppend(l, l.Next(a[0].node), mid, stop, par, a[1..], b);
    }
  }

  lemma LinkedCons(l: Links, first: Ptr, stop: Ptr, par: Ptr, t: Tree, ts: seq<Tree>)
    ensures Linked(l, first, stop, par, [t] + ts) <==>
              && first == To(t.node) && l.Parent(t.node) == par
              && Linked(l, l.List(t.node), Null, To(t.node), t.kids)
              && Linked(l, l.Next(t.node), stop, par, ts)
    ensures Linked(l, first, l.Next(t.node), par, [t]) <==>
              && first == To(t.node) && l.Parent(t.node) == par
              && Linked(l, l.List(t.node), Null, To(t.node), t.kids)
  {
    assert ([t] + ts)[0] == t && ([t] + ts)[1..] == ts && [t][1..] == [];
  }

  /** The last tree of a linked list. */
  lemma {:induction false} LinkedSnoc(l: Links, first: Ptr, stop: Ptr, par: Ptr, init: seq<Tree>, t: Tree)
    ensures Linked(l, first, stop, par, init + [t]) <==>
              && Linked(l, first, To(t.node), par, init) && l.Parent(t.node) == par
              && Linked(l, l.List(t.node), Null, To(t.node), t.kids) && l.Next(t.node) == stop
    decreases |init|
  {
    if init == [] {
      assert init + [t] == [t] + [];
      LinkedCons(l, first, stop, par, t, []);
    } else {
      assert (init + [t])[0] == init[0] && (init + [t])[1..] == init[1..] + [t];
      LinkedSnoc(l, l.Next(init[0].node), stop, par, init[1..], t);
    }
  }

  /** Only an empty list starts at `Null`. */
  lemma LinkedNull(l: Links, par: Ptr, ts: seq<Tree>)
    requires Linked(l, Null, Null, par, ts)
    ensures ts == []
  {
  }
}
