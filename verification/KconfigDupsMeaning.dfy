/** What `expr_eliminate_dups` promises: the value stays, and no two operands can still be joined. */
module KconfigDupsMeaning {
  import opened KconfigExpr
  import opened KconfigRewrite
  import opened KconfigEq
  import opened KconfigDups
  import opened KconfigDupsPass
  import opened Sequences
  import opened Wrappers

  // ----- the value is kept -----

  /** All operands joined. */
  function Fold(env: Env, g: Gate, ls: seq<Expr>): Tristate {
    if ls == [] then Value(env, Neutral(g)) else Apply(g, Value(env, ls[0]), Fold(env, g, ls[1..]))
  }

  lemma {:induction false} FoldAppend(env: Env, g: Gate, a: seq<Expr>, b: seq<Expr>)
    ensures Fold(env, g, a + b) == Apply(g, Fold(env, g, a), Fold(env, g, b))
  {
    if a == [] {
      assert a + b == b;
    } else {
      assert (a + b)[1..] == a[1..] + b;
      FoldAppend(env, g, a[1..], b);
    }
  }

  /** The two sides of a gate over new operands. */
  lemma FoldHalves(env: Env, g: Gate, ls: seq<Expr>, n: nat)
    requires n <= |ls|
    ensures Fold(env, g, ls) == Apply(g, Fold(env, g, ls[..n]), Fold(env, g, ls[n..]))
  {
    SplitAt(ls, n);
    FoldAppend(env, g, ls[..n], ls[n..]);
  }

  lemma FoldOne(env: Env, g: Gate, ls: seq<Expr>)
    requires |ls| == 1
    ensures Fold(env, g, ls) == Value(env, ls[0])
  {
    assert ls[1..] == [];
  }

  lemma {:induction false} FoldOfRebuild(env: Env, g: Gate, e: Expr, ls: seq<Expr>)
    requires |ls| == |Leaves(g, e)|
    ensures Value(env, Rebuild(g, e, ls)) == Fold(env, g, ls)
  {
    if IsGate(g, e) {
      var n := |Leaves(g, e.left)|;
      FoldOfRebuild(env, g, e.left, ls[..n]);
      FoldOfRebuild(env, g, e.right, ls[n..]);
      FoldHalves(env, g, ls, n);
    } else {
      FoldOne(env, g, ls);
    }
  }

  lemma {:induction false} FoldOfLeaves(env: Env, g: Gate, e: Expr)
    ensures Value(env, e) == Fold(env, g, Leaves(g, e))
  {
    if IsGate(g, e) {
      FoldOfLeaves(env, g, e.left);
      FoldOfLeaves(env, g, e.right);
      FoldAppend(env, g, Leaves(g, e.left), Leaves(g, e.right));
    } else {
      FoldOne(env, g, [e]);
    }
  }

  function Without(ls: seq<Expr>, i: nat): seq<Expr>
    requires i < |ls|
  {
    ls[..i] + ls[i + 1..]
  }

  lemma FoldPick(env: Env, g: Gate, ls: seq<Expr>, i: nat)
    requires i < |ls|
    ensures Fold(env, g, ls) == Apply(g, Value(env, ls[i]), Fold(env, g, Without(ls, i)))
  {
    assert ls == ls[..i] + ls[i..] && ls[i..][1..] == ls[i + 1..];
    FoldAppend(env, g, ls[..i], ls[i..]);
    FoldAppend(env, g, ls[..i], ls[i + 1..]);
  }

  lemma FoldUpdate(env: Env, g: Gate, ls: seq<Expr>, i: nat, x: Expr)
    requires i < |ls| && Value(env, x) == Value(env, ls[i])
    ensures Fold(env, g, ls[i := x]) == Fold(env, g, ls)
  {
    FoldPick(env, g, ls, i);
    FoldPick(env, g, ls[i := x], i);
    assert Without(ls[i := x], i) == Without(ls, i);
  }

  /** The rest without two operands, whatever stood in their places. */
  lemma WithoutTwo(ls: seq<Expr>, i: nat, j: nat, x: Expr, y: Expr)
    requires i < |ls| && j < |ls| && i != j
    ensures var k := if j < i then j else j - 1;
            && k < |Without(ls, i)| && Without(ls, i)[k] == ls[j]
            && Without(ls[i := x][j := y], i) == Without(ls, i)[k := y]
            && Without(Without(ls, i)[k := y], k) == Without(Without(ls, i), k)
  {
  }

  lemma FoldPickTwo(env: Env, g: Gate, ls: seq<Expr>, i: nat, k: nat)
    requires i < |ls| && k < |Without(ls, i)|
    ensures var rest := Without(ls, i);
            Fold(env, g, ls) ==
            Apply(g, Apply(g, Value(env, ls[i]), Value(env, rest[k])), Fold(env, g, Without(rest, k)))
  {
    var rest := Without(ls, i);
    FoldPick(env, g, ls, i);
    FoldPick(env, g, rest, k);
    Regroup(g, Value(env, ls[i]), Value(env, rest[k]), Fold(env, g, Without(rest, k)), No);
  }

  /** Two operands replaced by two others of the same joint value. */
  lemma FoldUpdateTwo(env: Env, g: Gate, ls: seq<Expr>, i: nat, j: nat, x: Expr, y: Expr)
    requires i < |ls| && j < |ls| && i != j
    requires Apply(g, Value(env, x), Value(env, y)) == Apply(g, Value(env, ls[i]), Value(env, ls[j]))
    ensures Fold(env, g, ls[i := x][j := y]) == Fold(env, g, ls)
  {
    var k := if j < i then j else j - 1;
    WithoutTwo(ls, i, j, x, y);
    FoldPickTwo(env, g, ls, i, k);
    FoldPickTwo(env, g, ls[i := x][j := y], i, k);
  }

  lemma {:induction false} VisitValue(env: Env, g: Gate, ls: seq<Expr>, i: nat, j: nat)
    requires i < |ls| && j < |ls| && OperandsOf(g, ls, ls) && Wf(env)
    ensures Fold(env, g, Visit(g, ls, i, j).leaves) == Fold(env, g, ls)
    decreases Total(ls), 0, 0
  {
    if i != j {
      TotalUpdate(ls, i, ls[i]);
      if ls[i].Op? { PassValue(env, ls[i]); }
      var p := if ls[i].Op? then Pass(ls[i]) else (ls[i], 0);
      match Join(g, p.0, ls[j])
      case None => FoldUpdate(env, g, ls, i, p.0);
      case Some(t) =>
        JoinValue(env, g, p.0, ls[j]);
        FoldUpdateTwo(env, g, ls, i, j, Neutral(g), t);
    }
  }

  lemma {:induction false} RowValue(env: Env, g: Gate, ls: seq<Expr>, i: nat, c: nat, d: nat)
    requires i < |ls| && c <= d <= |ls| && OperandsOf(g, ls, ls) && Wf(env)
    ensures Fold(env, g, Row(g, ls, i, c, d).leaves) == Fold(env, g, ls)
    decreases Total(ls), 1, d - c
  {
    if c < d {
      VisitValue(env, g, ls, i, c);
      RowValue(env, g, Visit(g, ls, i, c).leaves, i, c + 1, d);
    }
  }

  lemma {:induction false} BlockValue(env: Env, g: Gate, ls: seq<Expr>, a: nat, b: nat, c: nat, d: nat)
    requires a <= b <= |ls| && c <= d <= |ls| && OperandsOf(g, ls, ls) && Wf(env)
    ensures Fold(env, g, Block(g, ls, a, b, c, d).leaves) == Fold(env, g, ls)
    decreases Total(ls), 2, b - a
  {
    if a < b {
      RowValue(env, g, ls, a, c, d);
      BlockValue(env, g, Row(g, ls, a, c, d).leaves, a + 1, b, c, d);
    }
  }

  lemma {:induction false} PassValue(env: Env, e: Expr)
    requires e.Op? && Wf(env)
    ensures Value(env, Pass(e).0) == Value(env, e)
    decreases Size(e), 3, 0
  {
    var g := e.gate;
    var ls := Leaves(g, e);
    SizeOfRebuild(g, e, ls);
    BlockValue(env, g, ls, 0, |ls|, 0, |ls|);
    FoldOfRebuild(env, g, e, Block(g, ls, 0, |ls|, 0, |ls|).leaves);
    FoldOfLeaves(env, g, e);
  }

  /** `expr_eliminate_dups` never changes what an expression means. */
  lemma {:induction false} EliminateDupsValue(env: Env, e: Expr)
    requires Wf(env)
    ensures Value(env, EliminateDups(e)) == Value(env, e)
    decreases Size(e)
  {
    if e.Op? {
      var p := Pass(e);
      PassCounts(e);
      PassValue(env, e);
      if p.1 > 0 {
        EliminateYnValue(env, p.0);
        EliminateDupsValue(env, EliminateYn(p.0));
      }
    }
  }

  // ----- where it stops -----

  /** No two different operands of the top gate can be joined, and so on inside each operand. */
  predicate Settled(e: Expr)
    decreases Size(e)
  {
    e.Op? ==>
      var ls := Leaves(e.gate, e);
      SizeOfRebuild(e.gate, e, ls);
      && (forall i, j :: 0 <= i < |ls| && 0 <= j < |ls| && i != j ==> Join(e.gate, ls[i], ls[j]) == None)
      && (forall i :: 0 <= i < |ls| ==> (TotalUpdate(ls, i, ls[i]); Settled(ls[i])))
  }

  /** What `Visit` must find for its count to be 0. */
  predicate QuietAt(g: Gate, ls: seq<Expr>, i: nat, j: nat)
    requires i < |ls| && j < |ls|
  {
    i == j || ((ls[i].Op? ==> Pass(ls[i]).1 == 0) && Join(g, ls[i], ls[j]) == None)
  }

  lemma VisitQuiet(g: Gate, ls: seq<Expr>, i: nat, j: nat)
    requires i < |ls| && j < |ls| && OperandsOf(g, ls, ls)
    ensures Visit(g, ls, i, j).count == 0 <==> QuietAt(g, ls, i, j)
  {
    TotalUpdate(ls, i, ls[i]);
    if ls[i].Op? { PassCounts(ls[i]); }
  }

  lemma {:induction false} RowQuiet(g: Gate, ls: seq<Expr>, i: nat, c: nat, d: nat)
    requires i < |ls| && c <= d <= |ls| && OperandsOf(g, ls, ls)
    ensures Row(g, ls, i, c, d).count == 0 <==> forall j :: c <= j < d ==> QuietAt(g, ls, i, j)
    decreases d - c
  {
    if c < d {
      VisitQuiet(g, ls, i, c);
      VisitCounts(g, ls, i, c);
      if Visit(g, ls, i, c).count == 0 { RowQuiet(g, ls, i, c + 1, d); }
    }
  }

  lemma {:induction false} BlockQuiet(g: Gate, ls: seq<Expr>, a: nat, b: nat, c: nat, d: nat)
    requires a <= b <= |ls| && c <= d <= |ls| && OperandsOf(g, ls, ls)
    ensures Block(g, ls, a, b, c, d).count == 0
            <==> forall i, j :: a <= i < b && c <= j < d ==> QuietAt(g, ls, i, j)
    decreases b - a
  {
    if a < b {
      RowQuiet(g, ls, a, c, d);
      RowCounts(g, ls, a, c, d);
      if Row(g, ls, a, c, d).count == 0 { BlockQuiet(g, ls, a + 1, b, c, d); }
    }
  }

  /** The loop stops exactly at the expressions in which nothing can be joined. */
  lemma {:induction false} PassQuietIffSettled(e: Expr)
    requires e.Op?
    ensures Pass(e).1 == 0 <==> Settled(e)
    decreases Size(e)
  {
    var g := e.gate;
    var ls := Leaves(g, e);
    var n := |ls|;
    SizeOfRebuild(g, e, ls);
    BlockQuiet(g, ls, 0, n, 0, n);
    forall i | 0 <= i < n && ls[i].Op?
      ensures Pass(ls[i]).1 == 0 <==> Settled(ls[i])
    {
      TotalUpdate(ls, i, ls[i]);
      PassQuietIffSettled(ls[i]);
    }
    if Pass(e).1 == 0 {
      forall i | 0 <= i < n ensures Settled(ls[i]) {
        assert QuietAt(g, ls, i, if i == 0 then 1 else 0);
      }
      forall i, j | 0 <= i < n && 0 <= j < n && i != j ensures Join(g, ls[i], ls[j]) == None {
        assert QuietAt(g, ls, i, j);
      }
    }
  }

  /** `expr_eliminate_dups` ends with nothing left to join, and keeps exactly what already was so. */
  lemma {:induction false} EliminateDupsSettles(e: Expr)
    ensures Settled(EliminateDups(e))
    ensures Settled(e) ==> EliminateDups(e) == e
    ensures Size(EliminateDups(e)) <= Size(e)
    decreases Size(e)
  {
    if e.Op? {
      PassCounts(e);
      PassQuietIffSettled(e);
      if Pass(e).1 > 0 { EliminateDupsSettles(EliminateYn(Pass(e).0)); }
    }
  }

  // ----- the normal form is kept -----

  /** What the other passes need of an expression. */
  predicate Tidy(e: Expr) { NegNormal(e) && Orderable(e) && TypedLeaves(e) }

  predicate AllTidy(ls: seq<Expr>) { forall k :: 0 <= k < |ls| ==> Tidy(ls[k]) }

  lemma {:induction false} TidyRebuild(g: Gate, e: Expr, ls: seq<Expr>)
    requires |ls| == |Leaves(g, e)|
    ensures AllTidy(ls) ==> Tidy(Rebuild(g, e, ls))
    ensures Tidy(e) ==> AllTidy(Leaves(g, e))
  {
    if IsGate(g, e) {
      var n := |Leaves(g, e.left)|;
      TidyRebuild(g, e.left, ls[..n]);
      TidyRebuild(g, e.right, ls[n..]);
    }
  }

  lemma JoinTidy(g: Gate, e1: Expr, e2: Expr)
    requires Tidy(e1) && Tidy(e2) && Join(g, e1, e2).Some?
    ensures Tidy(Join(g, e1, e2).value)
  {
  }

  lemma {:induction false} VisitTidy(g: Gate, ls: seq<Expr>, i: nat, j: nat)
    requires i < |ls| && j < |ls| && OperandsOf(g, ls, ls) && AllTidy(ls)
    ensures AllTidy(Visit(g, ls, i, j).leaves)
    decreases Total(ls), 0, 0
  {
    if i != j {
      TotalUpdate(ls, i, ls[i]);
      if ls[i].Op? { PassTidy(ls[i]); }
      var p := if ls[i].Op? then Pass(ls[i]) else (ls[i], 0);
      if Join(g, p.0, ls[j]).Some? { JoinTidy(g, p.0, ls[j]); }
    }
  }

  lemma {:induction false} RowTidy(g: Gate, ls: seq<Expr>, i: nat, c: nat, d: nat)
    requires i < |ls| && c <= d <= |ls| && OperandsOf(g, ls, ls) && AllTidy(ls)
    ensures AllTidy(Row(g, ls, i, c, d).leaves)
    decreases Total(ls), 1, d - c
  {
    if c < d {
      VisitTidy(g, ls, i, c);
      RowTidy(g, Visit(g, ls, i, c).leaves, i, c + 1, d);
    }
  }

  lemma {:induction false} BlockTidy(g: Gate, ls: seq<Expr>, a: nat, b: nat, c: nat, d: nat)
    requires a <= b <= |ls| && c <= d <= |ls| && OperandsOf(g, ls, ls) && AllTidy(ls)
    ensures AllTidy(Block(g, ls, a, b, c, d).leaves)
    decreases Total(ls), 2, b - a
  {
    if a < b {
      RowTidy(g, ls, a, c, d);
      BlockTidy(g, Row(g, ls, a, c, d).leaves, a + 1, b, c, d);
    }
  }

  lemma {:induction false} PassTidy(e: Expr)
    requires e.Op? && Tidy(e)
    ensures Tidy(Pass(e).0)
    decreases Size(e), 3, 0
  {
    var g := e.gate;
    var ls := Leaves(g, e);
    SizeOfRebuild(g, e, ls);
    TidyRebuild(g, e, ls);
    BlockTidy(g, ls, 0, |ls|, 0, |ls|);
    TidyRebuild(g, e, Block(g, ls, 0, |ls|, 0, |ls|).leaves);
  }

  lemma {:induction false} EliminateDupsTidy(e: Expr)
    requires Tidy(e)
    ensures Tidy(EliminateDups(e))
    decreases Size(e)
  {
    if e.Op? {
      PassTidy(e);
      PassCounts(e);
      if Pass(e).1 > 0 {
        EliminateYnKeeps(Pass(e).0);
        EliminateDupsTidy(EliminateYn(Pass(e).0));
      }
    }
  }
}
