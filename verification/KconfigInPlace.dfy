/** The in-place passes, each proved to leave in its cell what its function computes. */
module KconfigInPlace {
  import opened KconfigExpr
  import opened KconfigRewrite
  import opened KconfigEq
  import opened KconfigDups
  import opened KconfigDupsPass
  import opened KconfigStore

  class ExprStore {
    var root: Expr
    var transCount: nat

    constructor (e: Expr)
      ensures root == e && transCount == 0
    {
      root, transCount := e, 0;
    }

    /** `expr_eliminate_dups1(g, ep1, ep2)`; `q` is the cell of the gate whose operands are compared. */
    method EliminateDups1(g: Gate, p1: Loc, p2: Loc, ghost q: Loc, ghost s1: Loc, ghost s2: Loc)
      requires HasLoc(root, q) && p1 == q + s1 && p2 == q + s2
      requires var t := At(root, q); IsGate(g, t) && OnSpine(g, t, s1) && OnSpine(g, t, s2)
      modifies this
      ensures
        var r := PassBetween(g, At(old(root), q), s1, s2);
        root == TreeWith(old(root), q, g, r.leaves) && transCount == old(transCount) + r.count
      decreases Size(At(root, q)), Width(g, At(root, q), s1) + Width(g, At(root, q), s2), 2
    {
      LocAppend(root, q, s1);
      LocAppend(root, q, s2);
      OnSpineHasLoc(g, At(root, q), s1);
      OnSpineHasLoc(g, At(root, q), s2);
      if IsGate(g, At(root, p1)) {
        WalkFirst(g, p1, p2, q, s1, s2);
      } else if IsGate(g, At(root, p2)) {
        WalkSecond(g, p1, p2, q, s1, s2);
      } else {
        SplitDone(g, At(root, q), s1, s2);
        JoinCells(g, p1, p2, q, s1, s2);
      }
    }

    /** Its first branch: the first cell holds a gate of the same type. */
    method WalkFirst(g: Gate, p1: Loc, p2: Loc, ghost q: Loc, ghost s1: Loc, ghost s2: Loc)
      requires HasLoc(root, q) && p1 == q + s1 && p2 == q + s2
      requires var t := At(root, q); IsGate(g, t) && OnSpine(g, t, s1) && OnSpine(g, t, s2) && IsGate(g, SubAt(g, t, s1))
      modifies this
      ensures
        var r := PassBetween(g, At(old(root), q), s1, s2);
        root == TreeWith(old(root), q, g, r.leaves) && transCount == old(transCount) + r.count
      decreases Size(At(root, q)), Width(g, At(root, q), s1) + Width(g, At(root, q), s2), 1
    {
      ghost var t := At(root, q);
      SplitFirst(g, t, s1, s2);
      assert p1 + [Lft] == q + (s1 + [Lft]) && p1 + [Rgt] == q + (s1 + [Rgt]);
      EliminateDups1(g, p1 + [Lft], p2, q, s1 + [Lft], s2);
      PutSame(old(root), q, Rebuild(g, t, PassBetween(g, t, s1 + [Lft], s2).leaves));
      EliminateDups1(g, p1 + [Rgt], p2, q, s1 + [Rgt], s2);
    }

    /** Its second branch: only the second cell does. */
    method WalkSecond(g: Gate, p1: Loc, p2: Loc, ghost q: Loc, ghost s1: Loc, ghost s2: Loc)
      requires HasLoc(root, q) && p1 == q + s1 && p2 == q + s2
      requires var t := At(root, q);
               && IsGate(g, t) && OnSpine(g, t, s1) && OnSpine(g, t, s2)
               && !IsGate(g, SubAt(g, t, s1)) && IsGate(g, SubAt(g, t, s2))
      modifies this
      ensures
        var r := PassBetween(g, At(old(root), q), s1, s2);
        root == TreeWith(old(root), q, g, r.leaves) && transCount == old(transCount) + r.count
      decreases Size(At(root, q)), Width(g, At(root, q), s1) + Width(g, At(root, q), s2), 1
    {
      ghost var t := At(root, q);
      SplitSecond(g, t, s1, s2);
      assert p2 + [Lft] == q + (s2 + [Lft]) && p2 + [Rgt] == q + (s2 + [Rgt]);
      EliminateDups1(g, p1, p2 + [Lft], q, s1, s2 + [Lft]);
      PutSame(old(root), q, Rebuild(g, t, PassBetween(g, t, s1, s2 + [Lft]).leaves));
      EliminateDups1(g, p1, p2 + [Rgt], q, s1, s2 + [Rgt]);
    }

    /** The rest of it: both cells hold operands. */
    method JoinCells(g: Gate, p1: Loc, p2: Loc, ghost q: Loc, ghost s1: Loc, ghost s2: Loc)
      requires HasLoc(root, q) && p1 == q + s1 && p2 == q + s2
      requires var t := At(root, q);
               && IsGate(g, t) && OnSpine(g, t, s1) && OnSpine(g, t, s2)
               && !IsGate(g, SubAt(g, t, s1)) && !IsGate(g, SubAt(g, t, s2))
      modifies this
      ensures
        var t := At(old(root), q);
        var ls, i, j := Leaves(g, t), Offset(g, t, s1), Offset(g, t, s2);
        i < |ls| && j < |ls| &&
        var r := Visit(g, ls, i, j);
        root == TreeWith(old(root), q, g, r.leaves) && transCount == old(transCount) + r.count
      decreases Size(At(root, q)), Width(g, At(root, q), s1) + Width(g, At(root, q), s2), 1
    {
      ghost var r0, t := root, At(root, q);
      ghost var ls := Leaves(g, t);
      ghost var i, j := Offset(g, t, s1), Offset(g, t, s2);
      OffsetInjective(g, t, s1, s2);
      PutOperand(g, t, s1, t);
      PutOperand(g, t, s2, t);
      if p1 == p2 {
        assert s1 == p1[|q|..] && s2 == p2[|q|..];
        PutSame(r0, q, t);
        LeavesOfRebuild(g, t, ls);
        return;
      }
      assert s1 != s2;
      SettleCell(g, p1, q, s1);
      ghost var x := if ls[i].Op? then Pass(ls[i]) else (ls[i], 0);
      ghost var ls1 := ls[i := x.0];
      CellOfOperand(r0, q, g, ls1, s1, Neutral(g));
      CellOfOperand(r0, q, g, ls1, s2, t);
      var tmp := Join(g, At(root, p1), At(root, p2));
      if tmp.Some? {
        CellOfOperand(r0, q, g, ls1[i := Neutral(g)], s2, tmp.value);
        root := Put(root, p1, Neutral(g));
        root := Put(root, p2, tmp.value);
        transCount := transCount + 1;
        assert ls1[i := Neutral(g)] == ls[i := Neutral(g)];
      }
    }

    /** Before a join, a gate in the first cell has its own operands joined. */
    method SettleCell(g: Gate, p: Loc, ghost q: Loc, ghost s: Loc)
      requires HasLoc(root, q) && p == q + s
      requires var t := At(root, q); IsGate(g, t) && OnSpine(g, t, s) && !IsGate(g, SubAt(g, t, s))
      modifies this
      ensures
        var t := At(old(root), q);
        var ls, i := Leaves(g, t), Offset(g, t, s);
        i < |ls| &&
        var x := if ls[i].Op? then Pass(ls[i]) else (ls[i], 0);
        root == TreeWith(old(root), q, g, ls[i := x.0]) && transCount == old(transCount) + x.1
      decreases Size(At(root, q)), 0, 0
    {
      ghost var r0, t := root, At(root, q);
      ghost var ls, i := Leaves(g, t), Offset(g, t, s);
      PutSame(r0, q, t);
      LeavesOfRebuild(g, t, ls);
      PutOperand(g, t, s, t);
      ghost var x := if ls[i].Op? then Pass(ls[i]) else (ls[i], 0);
      CellOfOperand(r0, q, g, ls, s, x.0);
      SizeOfRebuild(g, t, ls);
      TotalUpdate(ls, i, ls[i]);
      if At(root, p).Op? {
        PassFromRoot(ls[i]);
        EliminateDups1(At(root, p).gate, p, p, p, [], []);
      } else {
        assert ls[i := x.0] == ls;
      }
    }

    /** `expr_eliminate_yn` on the cell at `p`. */
    method EliminateYnAt(p: Loc)
      requires HasLoc(root, p)
      modifies `root
      ensures root == Put(old(root), p, EliminateYn(At(old(root), p)))
      decreases Size(At(root, p))
    {
      PutSame(root, p, root);
      if At(root, p).Op? {
        ghost var e := At(root, p);
        ChildCell(root, p, Lft, EliminateYn(e.left));
        EliminateYnAt(p + [Lft]);
        PutSame(old(root), p, Op(e.gate, EliminateYn(e.left), e.right));
        ChildCell(root, p, Rgt, EliminateYn(e.right));
        EliminateYnAt(p + [Rgt]);
        PutSame(old(root), p, Op(e.gate, EliminateYn(e.left), EliminateYn(e.right)));
        var n := At(root, p);
        root := Put(root, p, Absorb(n.gate, n.left, n.right));
      }
    }

    /** `expr_transform` on the cell at `p`. */
    method TransformAt(p: Loc)
      requires HasLoc(root, p)
      modifies `root
      ensures root == Put(old(root), p, Transform(At(old(root), p)))
      decreases Weight(At(root, p))
    {
      ghost var e := At(root, p);
      PutSame(root, p, e);
      match At(root, p)
      case Sym(_) =>
      case Compare(rel, a, b) =>
        if IsBoolTest(At(root, p)) {
          root := Put(root, p, TransformBoolTest(rel, a, b));
        }
      case Op(_, _, _) =>
        ChildCell(root, p, Lft, Transform(e.left));
        TransformAt(p + [Lft]);
        PutSame(old(root), p, Op(e.gate, Transform(e.left), e.right));
        ChildCell(root, p, Rgt, Transform(e.right));
        TransformAt(p + [Rgt]);
        PutSame(old(root), p, Op(e.gate, Transform(e.left), Transform(e.right)));
      case Not(_) =>
        ArgCell(root, p, Transform(e.arg));
        TransformAt(p + [Lft]);
        PutSame(old(root), p, Not(Transform(e.arg)));
        match At(root, p).arg {
          case Not(x) =>
            root := Put(root, p, x);
            PutSame(old(root), p, x);
            TransformAt(p);
          case Compare(rel, s, t) =>
            root := Put(root, p, Compare(Negated(rel), s, t));
          case Op(g, x, y) =>
            root := Put(root, p, DeMorgan(g, x, y));
            PutSame(old(root), p, DeMorgan(g, x, y));
            TransformAt(p);
          case Sym(s) =>
            if s == SYMBOL_YES {
              root := Put(root, p, Sym(SYMBOL_NO));
            } else if s == SYMBOL_MOD {
              root := Put(root, p, Sym(SYMBOL_MOD));
            } else if s == SYMBOL_NO {
              root := Put(root, p, Sym(SYMBOL_YES));
            }
        }
    }

    /** `expr_trans_bool` on the cell at `p`. */
    method TransBoolAt(p: Loc)
      requires HasLoc(root, p)
      modifies `root
      ensures root == Put(old(root), p, TransBool(At(old(root), p)))
      decreases Size(At(root, p))
    {
      ghost var e := At(root, p);
      PutSame(root, p, e);
      match At(root, p)
      case Sym(_) =>
      case Compare(rel, a, b) =>
        if rel == Unequal && a.Kind() == KTristate && b == SYMBOL_NO {
          root := Put(root, p, Sym(a));
        }
      case Op(_, _, _) =>
        ChildCell(root, p, Lft, TransBool(e.left));
        TransBoolAt(p + [Lft]);
        PutSame(old(root), p, Op(e.gate, TransBool(e.left), e.right));
        ChildCell(root, p, Rgt, TransBool(e.right));
        TransBoolAt(p + [Rgt]);
        PutSame(old(root), p, TransBool(e));
      case Not(_) =>
        ArgCell(root, p, TransBool(e.arg));
        TransBoolAt(p + [Lft]);
    }

    /** `expr_eliminate_dups`. */
    method EliminateDupsAtRoot()
      modifies this
      ensures root == EliminateDups(old(root)) && transCount == old(transCount)
    {
      var oldCount := transCount;
      while true
        invariant EliminateDups(root) == EliminateDups(old(root))
        decreases Size(root)
      {
        transCount := 0;
        if root.Op? {
          PassCounts(root);
          PassFromRoot(root);
          EliminateDups1(root.gate, [], [], [], [], []);
        }
        if transCount == 0 {
          break;
        }
        EliminateYnAt([]);
      }
      transCount := oldCount;
    }
  }

  /** Reading and writing the cell below a negation. */
  lemma ArgCell(root: Expr, p: Loc, x: Expr)
    requires HasLoc(root, p) && At(root, p).Not?
    ensures HasLoc(root, p + [Lft]) && At(root, p + [Lft]) == At(root, p).arg
    ensures Put(root, p + [Lft], x) == Put(root, p, Not(x))
  {
    LocAppend(root, p, [Lft]);
    var a := At(root, p).arg;
    assert [Lft][1..] == [];
    assert HasLoc(a, []) && At(a, []) == a && Put(a, [], x) == x;
  }

  /** `__expr_eliminate_eq` on a cell of each of two trees. */
  method EliminateEqCells(g: Gate, c1: ExprStore, p1: Loc, c2: ExprStore, p2: Loc)
    requires c1 != c2 && HasLoc(c1.root, p1) && HasLoc(c2.root, p2)
    modifies c1`root, c2`root
    ensures var r := EqPair(g, At(old(c1.root), p1), At(old(c2.root), p2));
            c1.root == Put(old(c1.root), p1, r.0) && c2.root == Put(old(c2.root), p2, r.1)
    decreases Size(At(c1.root, p1)) + Size(At(c2.root, p2)),
              if IsGate(g, At(c1.root, p1)) || IsGate(g, At(c2.root, p2)) then 0 else 4
  {
    ghost var e1, e2 := At(c1.root, p1), At(c2.root, p2);
    PutSame(c1.root, p1, e1);
    PutSame(c2.root, p2, e2);
    if IsGate(g, At(c1.root, p1)) {
      ghost var a := EqPair(g, e1.left, e2);
      ChildCell(c1.root, p1, Lft, a.0);
      EliminateEqCells(g, c1, p1 + [Lft], c2, p2);
      PutSame(old(c1.root), p1, Op(g, a.0, e1.right));
      PutSame(old(c2.root), p2, a.1);
      ghost var b := EqPair(g, e1.right, a.1);
      ChildCell(c1.root, p1, Rgt, b.0);
      EliminateEqCells(g, c1, p1 + [Rgt], c2, p2);
    } else if IsGate(g, At(c2.root, p2)) {
      ghost var a := EqPair(g, e1, e2.left);
      ChildCell(c2.root, p2, Lft, a.1);
      EliminateEqCells(g, c1, p1, c2, p2 + [Lft]);
      PutSame(old(c1.root), p1, a.0);
      PutSame(old(c2.root), p2, Op(g, a.1, e2.right));
      ghost var b := EqPair(g, a.0, e2.right);
      ChildCell(c2.root, p2, Rgt, b.1);
      EliminateEqCells(g, c1, p1, c2, p2 + [Rgt]);
    } else {
      var x, y := At(c1.root, p1), At(c2.root, p2);
      if x == y && (x == Sym(SYMBOL_YES) || x == Sym(SYMBOL_NO)) {
        return;
      }
      var eq := ExprEqByCopy(x, y);
      if eq {
        c1.root := Put(c1.root, p1, Neutral(g));
        c2.root := Put(c2.root, p2, Neutral(g));
      }
    }
  }

  /** `expr_eliminate_eq`. */
  method EliminateEqRoots(c1: ExprStore, c2: ExprStore)
    requires c1 != c2
    modifies c1`root, c2`root
    ensures (c1.root, c2.root) == EliminateEq(old(c1.root), old(c2.root))
    decreases Size(c1.root) + Size(c2.root), 2
  {
    if c1.root.Op? {
      EliminateEqCells(c1.root.gate, c1, [], c2, []);
    }
    if c2.root.Op? && !IsGate(c2.root.gate, c1.root) {
      EliminateEqCells(c2.root.gate, c1, [], c2, []);
    }
    c1.EliminateYnAt([]);
    c2.EliminateYnAt([]);
  }

  /** `expr_eq`: gates are compared by rewriting copies of both. */
  method ExprEqByCopy(e1: Expr, e2: Expr) returns (res: bool)
    ensures res == ExprEq(e1, e2)
    decreases Size(e1) + Size(e2), 3
  {
    match (e1, e2)
    case (Compare(_, _, _), Compare(_, _, _)) => res := e1 == e2;
    case (Sym(_), Sym(_)) => res := e1 == e2;
    case (Not(a), Not(b)) => res := ExprEqByCopy(a, b);
    case (Op(g, _, _), Op(h, _, _)) =>
      if g != h {
        return false;
      }
      var c1 := new ExprStore(e1);
      var c2 := new ExprStore(e2);
      EliminateEqRoots(c1, c2);
      res := c1.root.Sym? && c1.root == c2.root;
    case _ => res := false;
  }

  /** Started with both cells at the gate itself, it is the whole pass. */
  lemma PassFromRoot(e: Expr)
    requires e.Op?
    ensures var r := PassBetween(e.gate, e, [], []);
            Pass(e) == (Rebuild(e.gate, e, r.leaves), r.count)
  {
    assert SubAt(e.gate, e, []) == e;
  }

  /** Reading and writing the cell of a child. */
  lemma ChildCell(root: Expr, p: Loc, side: Side, x: Expr)
    requires HasLoc(root, p) && At(root, p).Op?
    ensures var e := At(root, p);
            var c := if side == Lft then e.left else e.right;
            && HasLoc(root, p + [side]) && At(root, p + [side]) == c
            && Put(root, p + [side], x)
               == Put(root, p, if side == Lft then Op(e.gate, x, e.right) else Op(e.gate, e.left, x))
  {
    LocAppend(root, p, [side]);
    var e := At(root, p);
    var c := if side == Lft then e.left else e.right;
    assert [side][1..] == [];
    assert HasLoc(c, []) && At(c, []) == c && Put(c, [], x) == x;
  }
}
