/** The pass of `expr_eliminate_dups` over the operand list of a gate, and its fixpoint. */
module KconfigDupsPass {
  import opened KconfigExpr
  import opened KconfigRewrite
  import opened KconfigEq
  import opened KconfigDups

  // ----- operand lists -----

  /** The operands of the `g`-gates at the top of `e`, left to right. */
  function Leaves(g: Gate, e: Expr): (ls: seq<Expr>)
    ensures |ls| >= 1
    ensures IsGate(g, e) ==> |ls| >= 2
    ensures forall k :: 0 <= k < |ls| ==> !IsGate(g, ls[k])
  {
    if IsGate(g, e) then Leaves(g, e.left) + Leaves(g, e.right) else [e]
  }

  /** The gates of `e` over new operands. */
  function Rebuild(g: Gate, e: Expr, ls: seq<Expr>): (r: Expr)
    requires |ls| == |Leaves(g, e)|
    ensures IsGate(g, e) ==> IsGate(g, r)
  {
    if IsGate(g, e) then
      var n := |Leaves(g, e.left)|;
      Op(g, Rebuild(g, e.left, ls[..n]), Rebuild(g, e.right, ls[n..]))
    else ls[0]
  }

  function Total(ls: seq<Expr>): nat {
    if ls == [] then 0 else Size(ls[0]) + Total(ls[1..])
  }

  lemma {:induction false} TotalAppend(a: seq<Expr>, b: seq<Expr>)
    ensures Total(a + b) == Total(a) + Total(b)
  {
    if a == [] {
      assert a + b == b;
    } else {
      assert (a + b)[1..] == a[1..] + b;
      TotalAppend(a[1..], b);
    }
  }

  lemma {:induction false} TotalUpdate(ls: seq<Expr>, i: nat, x: Expr)
    requires i < |ls|
    ensures Total(ls[i := x]) + Size(ls[i]) == Total(ls) + Size(x)
    ensures Total(ls) >= Size(ls[i]) + |ls| - 1
  {
    if i == 0 {
      assert ls[i := x][1..] == ls[1..];
      if |ls| > 1 { TotalUpdate(ls[1..], 0, x); }
    } else {
      assert ls[i := x][1..] == ls[1..][i - 1 := x];
      TotalUpdate(ls[1..], i - 1, x);
    }
  }

  lemma {:induction false} SizeOfRebuild(g: Gate, e: Expr, ls: seq<Expr>)
    requires |ls| == |Leaves(g, e)|
    ensures Size(Rebuild(g, e, ls)) == Total(ls) + |ls| - 1
    ensures Size(e) == Total(Leaves(g, e)) + |ls| - 1
  {
    if IsGate(g, e) {
      var n := |Leaves(g, e.left)|;
      SizeOfRebuild(g, e.left, ls[..n]);
      SizeOfRebuild(g, e.right, ls[n..]);
      TotalAppend(ls[..n], ls[n..]);
      assert ls == ls[..n] + ls[n..];
      TotalAppend(Leaves(g, e.left), Leaves(g, e.right));
    } else {
      assert ls == [ls[0]];
    }
  }

  lemma {:induction false} LeavesOfRebuild(g: Gate, e: Expr, ls: seq<Expr>)
    requires |ls| == |Leaves(g, e)|
    requires forall k :: 0 <= k < |ls| ==> !IsGate(g, ls[k])
    ensures Leaves(g, Rebuild(g, e, ls)) == ls
    ensures Rebuild(g, Rebuild(g, e, ls), ls) == Rebuild(g, e, ls)
    ensures Rebuild(g, e, Leaves(g, e)) == e
  {
    if IsGate(g, e) {
      var n := |Leaves(g, e.left)|;
      LeavesOfRebuild(g, e.left, ls[..n]);
      LeavesOfRebuild(g, e.right, ls[n..]);
      assert ls == ls[..n] + ls[n..];
    }
  }

  // ----- the pass -----

  datatype Joined = Joined(leaves: seq<Expr>, count: nat)

  predicate OperandsOf(g: Gate, ls: seq<Expr>, r: seq<Expr>) {
    && |r| == |ls| && Total(r) <= Total(ls)
    && forall k :: 0 <= k < |r| ==> !IsGate(g, r[k])
  }

  /** One visit: settle operand `i` by itself, then try to join it into operand `j`. */
  function Visit(g: Gate, ls: seq<Expr>, i: nat, j: nat): (r: Joined)
    requires i < |ls| && j < |ls| && OperandsOf(g, ls, ls)
    ensures OperandsOf(g, ls, r.leaves)
    decreases Total(ls), 0, 0
  {
    if i == j then Joined(ls, 0)
    else
      TotalUpdate(ls, i, ls[i]);
      var p := if ls[i].Op? then Pass(ls[i]) else (ls[i], 0);
      TotalUpdate(ls, i, p.0);
      match Join(g, p.0, ls[j])
      case None => Joined(ls[i := p.0], p.1)
      case Some(t) =>
        TotalUpdate(ls, i, Neutral(g));
        TotalUpdate(ls[i := Neutral(g)], j, t);
        Joined(ls[i := Neutral(g)][j := t], p.1 + 1)
  }

  /** Operand `i` against operands `c .. d`. */
  function Row(g: Gate, ls: seq<Expr>, i: nat, c: nat, d: nat): (r: Joined)
    requires i < |ls| && c <= d <= |ls| && OperandsOf(g, ls, ls)
    ensures OperandsOf(g, ls, r.leaves)
    decreases Total(ls), 1, d - c
  {
    if c == d then Joined(ls, 0)
    else
      var v := Visit(g, ls, i, c);
      var r := Row(g, v.leaves, i, c + 1, d);
      Joined(r.leaves, v.count + r.count)
  }

  /** Operands `a .. b` against operands `c .. d`, row by row. */
  function Block(g: Gate, ls: seq<Expr>, a: nat, b: nat, c: nat, d: nat): (r: Joined)
    requires a <= b <= |ls| && c <= d <= |ls| && OperandsOf(g, ls, ls)
    ensures OperandsOf(g, ls, r.leaves)
    decreases Total(ls), 2, b - a
  {
    if a == b then Joined(ls, 0)
    else
      var v := Row(g, ls, a, c, d);
      var r := Block(g, v.leaves, a + 1, b, c, d);
      Joined(r.leaves, v.count + r.count)
  }

  /** `expr_eliminate_dups1(e->type, &e, &e)`: the rewritten gate and how much `trans_count` grew. */
  function Pass(e: Expr): (r: (Expr, nat))
    requires e.Op?
    ensures IsGate(e.gate, r.0) && Size(r.0) <= Size(e)
    decreases Size(e), 3, 0
  {
    var g := e.gate;
    var ls := Leaves(g, e);
    SizeOfRebuild(g, e, ls);
    var r := Block(g, ls, 0, |ls|, 0, |ls|);
    SizeOfRebuild(g, e, r.leaves);
    (Rebuild(g, e, r.leaves), r.count)
  }

  // ----- every pass that counts a join leaves something for expr_eliminate_yn -----

  predicate HasYn(g: Gate, ls: seq<Expr>) {
    exists k :: 0 <= k < |ls| && (ls[k] == Neutral(g) || !YnFree(ls[k]))
  }

  lemma {:induction false} RebuildHasYn(g: Gate, e: Expr, ls: seq<Expr>)
    requires IsGate(g, e) && |ls| == |Leaves(g, e)| && HasYn(g, ls)
    ensures !YnFree(Rebuild(g, e, ls))
  {
    var n := |Leaves(g, e.left)|;
    var k :| 0 <= k < |ls| && (ls[k] == Neutral(g) || !YnFree(ls[k]));
    if k < n {
      assert ls[..n][k] == ls[k];
      if IsGate(g, e.left) { RebuildHasYn(g, e.left, ls[..n]); }
    } else {
      assert ls[n..][k - n] == ls[k];
      if IsGate(g, e.right) { RebuildHasYn(g, e.right, ls[n..]); }
    }
  }

  lemma {:induction false} VisitCounts(g: Gate, ls: seq<Expr>, i: nat, j: nat)
    requires i < |ls| && j < |ls| && OperandsOf(g, ls, ls)
    ensures var r := Visit(g, ls, i, j);
            if r.count == 0 then r.leaves == ls else HasYn(g, r.leaves)
    decreases Total(ls), 0, 0
  {
    if i != j {
      TotalUpdate(ls, i, ls[i]);
      if ls[i].Op? { PassCounts(ls[i]); }
      var p := if ls[i].Op? then Pass(ls[i]) else (ls[i], 0);
      var r := Visit(g, ls, i, j);
      assert r.leaves[i] == if Join(g, p.0, ls[j]).None? then p.0 else Neutral(g);
    }
  }

  lemma {:induction false} RowCounts(g: Gate, ls: seq<Expr>, i: nat, c: nat, d: nat)
    requires i < |ls| && c <= d <= |ls| && OperandsOf(g, ls, ls)
    ensures var r := Row(g, ls, i, c, d);
            if r.count == 0 then r.leaves == ls else HasYn(g, r.leaves)
    decreases Total(ls), 1, d - c
  {
    if c < d {
      VisitCounts(g, ls, i, c);
      RowCounts(g, Visit(g, ls, i, c).leaves, i, c + 1, d);
    }
  }

  lemma {:induction false} BlockCounts(g: Gate, ls: seq<Expr>, a: nat, b: nat, c: nat, d: nat)
    requires a <= b <= |ls| && c <= d <= |ls| && OperandsOf(g, ls, ls)
    ensures var r := Block(g, ls, a, b, c, d);
            if r.count == 0 then r.leaves == ls else HasYn(g, r.leaves)
    decreases Total(ls), 2, b - a
  {
    if a < b {
      RowCounts(g, ls, a, c, d);
      BlockCounts(g, Row(g, ls, a, c, d).leaves, a + 1, b, c, d);
    }
  }

  /** A pass that counts nothing changes nothing; one that counts a join leaves a `y` or `n`
      operand, so `expr_eliminate_yn` strictly shrinks its result. */
  lemma {:induction false} PassCounts(e: Expr)
    requires e.Op?
    ensures Pass(e).1 == 0 ==> Pass(e).0 == e
    ensures Pass(e).1 > 0 ==> !YnFree(Pass(e).0) && Size(EliminateYn(Pass(e).0)) < Size(e)
    decreases Size(e), 3, 0
  {
    var g := e.gate;
    var ls := Leaves(g, e);
    SizeOfRebuild(g, e, ls);
    BlockCounts(g, ls, 0, |ls|, 0, |ls|);
    LeavesOfRebuild(g, e, ls);
    if Pass(e).1 > 0 { RebuildHasYn(g, e, Block(g, ls, 0, |ls|, 0, |ls|).leaves); }
    EliminateYnExact(Pass(e).0);
  }

  /** `expr_eliminate_dups`. */
  function EliminateDups(e: Expr): Expr
    decreases Size(e)
  {
    if !e.Op? then e
    else
      var p := Pass(e);
      PassCounts(e);
      if p.1 == 0 then p.0 else EliminateDups(EliminateYn(p.0))
  }
}
