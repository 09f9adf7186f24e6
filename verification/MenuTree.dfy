/** The menu tree and its restructuring by `menu_finalize`: what the tree is afterwards. */
module MenuTree {
  import opened Sequences

  /** A menu entry with its submenu; an entry is known by its address. */
  datatype Tree = Tree(node: nat, kids: seq<Tree>)

  /** What `menu_finalize` asks about entries: whether an entry has a symbol, whether it has a
      prompt with a text, and, at most once for two entries, whether the first takes in the second. */
  datatype Config = Config(hasSym: nat -> bool, hasText: nat -> bool, adopts: (nat, nat) -> bool)

  /** The entries in source order. */
  function Pre(ts: seq<Tree>): (p: seq<nat>)
    ensures |p| >= |ts|
  {
    if ts == [] then [] else [ts[0].node] + Pre(ts[0].kids) + Pre(ts[1..])
  }

  function Nodes(ts: seq<Tree>): set<nat> {
    if ts == [] then {} else {ts[0].node} + Nodes(ts[0].kids) + Nodes(ts[1..])
  }

  /** No entry occurs twice. */
  predicate Distinct(ts: seq<Tree>) {
    ts == [] ||
    (&& Distinct(ts[0].kids) && Distinct(ts[1..])
     && ts[0].node !in Nodes(ts[0].kids) && ts[0].node !in Nodes(ts[1..])
     && Nodes(ts[0].kids) !! Nodes(ts[1..]))
  }

  lemma {:induction false} PreAppend(a: seq<Tree>, b: seq<Tree>)
    ensures Pre(a + b) == Pre(a) + Pre(b)
    decreases |a|
  {
    if a == [] {
      assert a + b == b;
    } else {
      assert (a + b)[0] == a[0] && (a + b)[1..] == a[1..] + b;
      PreAppend(a[1..], b);
    }
  }

  lemma PreCons(t: Tree, ts: seq<Tree>)
    ensures Pre([t] + ts) == [t.node] + Pre(t.kids) + Pre(ts)
    ensures Pre([t]) == [t.node] + Pre(t.kids)
  {
    assert ([t] + ts)[1..] == ts && [t][1..] == [];
    assert Pre([]) == [];
  }

  /** A list whose first submenu is exchanged for another one made of the same entries. */
  lemma SameEntries(m: Tree, rest: seq<Tree>, flat: seq<Tree>, g: (seq<Tree>, seq<Tree>))
    requires Pre(g.0 + g.1) == Pre(m.kids) + Pre(rest) && Pre(flat) == Pre(g.0)
    ensures Pre([Tree(m.node, flat)] + g.1) == Pre([m] + rest)
  {
    PreCons(m, rest);
    PreAppend(g.0, g.1);
    PreCons(Tree(m.node, flat), g.1);
    Assoc([m.node], Pre(flat), Pre(g.1));
    Assoc([m.node], Pre(m.kids), Pre(rest));
  }

  /** `menu_finalize` on `m`, with the entries that follow it: both afterwards. */
  function Finalize(c: Config, m: Tree, rest: seq<Tree>): (r: (Tree, seq<Tree>))
    ensures r.0.node == m.node
    ensures Pre([r.0] + r.1) == Pre([m] + rest)
    decreases |Pre([m] + rest)|, 2
  {
    var g := Gather(c, m, rest);
    SameEntries(m, rest, Flatten(c, g.0), g);
    (Tree(m.node, Flatten(c, g.0)), g.1)
  }

  /** Its first half: the submenu of `m`, finalized or gathered from the siblings, and the
      siblings left behind. */
  function Gather(c: Config, m: Tree, rest: seq<Tree>): (r: (seq<Tree>, seq<Tree>))
    ensures Pre(r.0 + r.1) == Pre(m.kids) + Pre(rest)
    decreases |Pre([m] + rest)|, 1
  {
    PreCons(m, rest);
    if m.kids != [] then
      PreAppend(FinalizeList(c, m.kids), rest);
      (FinalizeList(c, m.kids), rest)
    else if c.hasSym(m.node) then AdoptFrom(c, m.node, rest)
    else
      assert [] + rest == rest;
      ([], rest)
  }

  /** Finalizing a list of siblings in order; each may take in the ones that follow it. */
  function FinalizeList(c: Config, ts: seq<Tree>): (r: seq<Tree>)
    ensures Pre(r) == Pre(ts)
    decreases |Pre(ts)|, 3
  {
    if ts == [] then []
    else
      assert ts == [ts[0]] + ts[1..];
      var f := Finalize(c, ts[0], ts[1..]);
      PreCons(f.0, f.1);
      PreCons(f.0, FinalizeList(c, f.1));
      [f.0] + FinalizeList(c, f.1)
  }

  /** The siblings taken into the submenu of `p`, and those left behind. */
  function AdoptFrom(c: Config, p: nat, rest: seq<Tree>): (r: (seq<Tree>, seq<Tree>))
    ensures Pre(r.0 + r.1) == Pre(rest)
    decreases |Pre(rest)|, 3
  {
    if rest == [] || !c.adopts(p, rest[0].node) then
      assert [] + rest == rest;
      ([], rest)
    else
      assert rest == [rest[0]] + rest[1..];
      var f := Finalize(c, rest[0], rest[1..]);
      PreCons(f.0, f.1);
      var a := AdoptFrom(c, p, f.1);
      PreCons(f.0, a.0 + a.1);
      assert ([f.0] + a.0) + a.1 == [f.0] + (a.0 + a.1);
      ([f.0] + a.0, a.1)
  }

  /** An entry with a submenu but no prompt text gives up its submenu to its own level. */
  function Flatten(c: Config, ts: seq<Tree>): (r: seq<Tree>)
    ensures Pre(r) == Pre(ts)
    decreases |Pre(ts)|
  {
    if ts == [] then []
    else
      var t := ts[0];
      assert ts == [t] + ts[1..];
      PreCons(t, ts[1..]);
      if t.kids != [] && !c.hasText(t.node) then
        PreAppend(t.kids, ts[1..]);
        PreCons(Tree(t.node, []), Flatten(c, t.kids + ts[1..]));
        [Tree(t.node, [])] + Flatten(c, t.kids + ts[1..])
      else
        PreCons(t, Flatten(c, ts[1..]));
        [t] + Flatten(c, ts[1..])
  }

  /** Every entry of the list that has a submenu has a prompt to show it under. */
  predicate Titled(c: Config, ts: seq<Tree>) {
    forall k :: 0 <= k < |ts| && ts[k].kids != [] ==> c.hasText(ts[k].node)
  }

  lemma {:induction false} FlattenTitled(c: Config, ts: seq<Tree>)
    ensures Titled(c, Flatten(c, ts))
    ensures Titled(c, ts) ==> Flatten(c, ts) == ts
    decreases |Pre(ts)|
  {
    if ts != [] {
      var t := ts[0];
      assert ts == [t] + ts[1..];
      PreCons(t, ts[1..]);
      if t.kids != [] && !c.hasText(t.node) {
        PreAppend(t.kids, ts[1..]);
        FlattenTitled(c, t.kids + ts[1..]);
      } else {
        FlattenTitled(c, ts[1..]);
      }
    }
  }

  /** No submenu below `t`, at any depth, hangs under an entry without prompt text. */
  predicate TitledTree(c: Config, t: Tree) {
    Titled(c, t.kids) && forall k :: 0 <= k < |t.kids| ==> TitledTree(c, t.kids[k])
  }

  predicate TitledTrees(c: Config, ts: seq<Tree>) { forall k :: 0 <= k < |ts| ==> TitledTree(c, ts[k]) }

  lemma {:induction false} FlattenKeepsTitled(c: Config, ts: seq<Tree>)
    requires TitledTrees(c, ts)
    ensures TitledTrees(c, Flatten(c, ts))
    decreases |Pre(ts)|
  {
    if ts != [] {
      var t := ts[0];
      assert ts == [t] + ts[1..];
      PreCons(t, ts[1..]);
      if t.kids != [] && !c.hasText(t.node) {
        PreAppend(t.kids, ts[1..]);
        assert TitledTree(c, Tree(t.node, []));
        FlattenKeepsTitled(c, t.kids + ts[1..]);
      } else {
        FlattenKeepsTitled(c, ts[1..]);
      }
    }
  }

  /** Once finalized, an entry shows every submenu below it under a title. */
  lemma {:induction false} FinalizeTitles(c: Config, m: Tree, rest: seq<Tree>)
    ensures TitledTree(c, Finalize(c, m, rest).0)
    decreases |Pre([m] + rest)|, 2
  {
    PreCons(m, rest);
    var g := Gather(c, m, rest);
    if m.kids != [] {
      FinalizeListTitles(c, m.kids);
    } else if c.hasSym(m.node) {
      AdoptFromTitles(c, m.node, rest);
    }
    FlattenTitled(c, g.0);
    FlattenKeepsTitled(c, g.0);
  }

  lemma {:induction false} FinalizeListTitles(c: Config, ts: seq<Tree>)
    ensures TitledTrees(c, FinalizeList(c, ts))
    decreases |Pre(ts)|, 3
  {
    if ts != [] {
      assert ts == [ts[0]] + ts[1..];
      var f := Finalize(c, ts[0], ts[1..]);
      PreCons(f.0, f.1);
      FinalizeTitles(c, ts[0], ts[1..]);
      FinalizeListTitles(c, f.1);
    }
  }

  lemma {:induction false} AdoptFromTitles(c: Config, p: nat, rest: seq<Tree>)
    ensures TitledTrees(c, AdoptFrom(c, p, rest).0)
    decreases |Pre(rest)|, 3
  {
    if rest != [] && c.adopts(p, rest[0].node) {
      assert rest == [rest[0]] + rest[1..];
      var f := Finalize(c, rest[0], rest[1..]);
      PreCons(f.0, f.1);
      FinalizeTitles(c, rest[0], rest[1..]);
      AdoptFromTitles(c, p, f.1);
    }
  }

  // ----- distinct entries -----

  predicate Apart(a: seq<nat>, b: seq<nat>) { forall i, j :: 0 <= i < |a| && 0 <= j < |b| ==> a[i] != b[j] }

  lemma NoDupParts(a: seq<nat>, b: seq<nat>)
    ensures NoDup(a + b) <==> NoDup(a) && NoDup(b) && Apart(a, b)
  {
    var s := a + b;
    if NoDup(s) {
      forall i, j | 0 <= i < j < |a| ensures a[i] != a[j] { assert s[i] == a[i] && s[j] == a[j]; }
      forall i, j | 0 <= i < j < |b| ensures b[i] != b[j] { assert s[|a| + i] == b[i] && s[|a| + j] == b[j]; }
      forall i, j | 0 <= i < |a| && 0 <= j < |b| ensures a[i] != b[j] { assert s[i] == a[i] && s[|a| + j] == b[j]; }
    }
    if NoDup(a) && NoDup(b) && Apart(a, b) {
      forall i, j | 0 <= i < j < |s| ensures s[i] != s[j] {
        if j < |a| { assert s[i] == a[i] && s[j] == a[j]; }
        if i < |a| <= j { assert s[i] == a[i] && s[j] == b[j - |a|]; }
        if |a| <= i { assert s[i] == b[i - |a|] && s[j] == b[j - |a|]; }
      }
    }
  }

  /** Whether a list of trees repeats an entry depends on its preorder alone. */
  lemma {:induction false} DistinctIsNoDup(ts: seq<Tree>)
    ensures Nodes(ts) == set x | x in Pre(ts)
    ensures Distinct(ts) <==> NoDup(Pre(ts))
    decreases ts
  {
    if ts != [] {
      var n, k, r := ts[0].node, Pre(ts[0].kids), Pre(ts[1..]);
      DistinctIsNoDup(ts[0].kids);
      DistinctIsNoDup(ts[1..]);
      assert Pre(ts) == [n] + k + r;
      NoDupParts([n] + k, r);
      NoDupParts([n], k);
      SetsApart([n], k);
      SetsApart([n] + k, r);
    }
  }

  lemma SetsApart(a: seq<nat>, b: seq<nat>)
    ensures Apart(a, b) <==> (set x | x in a) !! (set x | x in b)
  {
    var sa, sb := set x | x in a, set x | x in b;
    if sa !! sb {
      forall i, j | 0 <= i < |a| && 0 <= j < |b| ensures a[i] != b[j] {
        assert a[i] in sa && b[j] in sb;
      }
    }
  }

  lemma SamePre(a: seq<Tree>, b: seq<Tree>)
    requires Pre(a) == Pre(b)
    ensures Nodes(a) == Nodes(b) && (Distinct(a) <==> Distinct(b))
  {
    DistinctIsNoDup(a);
    DistinctIsNoDup(b);
  }

  lemma {:induction false} DistinctAppend(a: seq<Tree>, b: seq<Tree>)
    ensures Nodes(a + b) == Nodes(a) + Nodes(b)
    ensures Distinct(a + b) <==> Distinct(a) && Distinct(b) && Nodes(a) !! Nodes(b)
    decreases |a|
  {
    if a == [] {
      assert a + b == b;
    } else {
      assert (a + b)[0] == a[0] && (a + b)[1..] == a[1..] + b;
      DistinctAppend(a[1..], b);
    }
  }

  lemma DistinctCons(t: Tree, ts: seq<Tree>)
    ensures Nodes([t] + ts) == {t.node} + Nodes(t.kids) + Nodes(ts)
    ensures Distinct([t] + ts) <==>
              && Distinct(t.kids) && Distinct(ts) && t.node !in Nodes(t.kids) && t.node !in Nodes(ts)
              && Nodes(t.kids) !! Nodes(ts)
    ensures Nodes([t]) == {t.node} + Nodes(t.kids)
  {
    assert ([t] + ts)[1..] == ts && [t][1..] == [];
  }
}
