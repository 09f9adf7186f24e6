/** Removing the common part of two expressions: `expr_eliminate_eq` and `expr_eq`. */
module KconfigEq {
  import opened KconfigExpr
  import opened KconfigRewrite

  predicate IsGate(g: Gate, e: Expr) { e.Op? && e.gate == g }

  /** `__expr_eliminate_eq`: what the two cells hold afterwards. */
  function EqPair(g: Gate, e1: Expr, e2: Expr): (r: (Expr, Expr))
    ensures Size(r.0) <= Size(e1) && Size(r.1) <= Size(e2)
    ensures IsGate(g, e1) ==> IsGate(g, r.0)
    ensures IsGate(g, e2) ==> IsGate(g, r.1)
    decreases Size(e1) + Size(e2), if IsGate(g, e1) || IsGate(g, e2) then 0 else 4
  {
    if IsGate(g, e1) then
      var a := EqPair(g, e1.left, e2);
      var b := EqPair(g, e1.right, a.1);
      (Op(g, a.0, b.0), b.1)
    else if IsGate(g, e2) then
      var a := EqPair(g, e1, e2.left);
      var b := EqPair(g, a.0, e2.right);
      (b.0, Op(g, a.1, b.1))
    else if e1 == e2 && (e1 == Sym(SYMBOL_YES) || e1 == Sym(SYMBOL_NO)) then (e1, e2)
    else if ExprEq(e1, e2) then (Neutral(g), Neutral(g))
    else (e1, e2)
  }

  /** `expr_eliminate_eq` before its two `expr_eliminate_yn` calls. */
  function EqBothGates(e1: Expr, e2: Expr): (r: (Expr, Expr))
    ensures Size(r.0) <= Size(e1) && Size(r.1) <= Size(e2)
    decreases Size(e1) + Size(e2), 1
  {
    var p := if e1.Op? then EqPair(e1.gate, e1, e2) else (e1, e2);
    if p.1.Op? && !IsGate(p.1.gate, p.0) then EqPair(p.1.gate, p.0, p.1) else p
  }

  /** `expr_eliminate_eq`. */
  function EliminateEq(e1: Expr, e2: Expr): (Expr, Expr)
    decreases Size(e1) + Size(e2), 2
  {
    var p := EqBothGates(e1, e2);
    (EliminateYn(p.0), EliminateYn(p.1))
  }

  /** `expr_eq`. */
  predicate ExprEq(e1: Expr, e2: Expr)
    decreases Size(e1) + Size(e2), 3
  {
    match (e1, e2)
    case (Compare(_, _, _), Compare(_, _, _)) => e1 == e2
    case (Sym(_), Sym(_)) => e1 == e2
    case (Not(a), Not(b)) => ExprEq(a, b)
    case (Op(g, _, _), Op(h, _, _)) =>
      g == h &&
      var r := EliminateEq(e1, e2);
      r.0.Sym? && r.0 == r.1
    case _ => false
  }

  /** The part `__expr_eliminate_eq` takes out of both sides; it does not depend on an environment. */
  function Common(g: Gate, e1: Expr, e2: Expr): Expr
    decreases Size(e1) + Size(e2)
  {
    if IsGate(g, e1) then
      Op(g, Common(g, e1.left, e2), Common(g, e1.right, EqPair(g, e1.left, e2).1))
    else if IsGate(g, e2) then
      Op(g, Common(g, e1, e2.left), Common(g, EqPair(g, e1, e2.left).0, e2.right))
    else if EqPair(g, e1, e2) == (e1, e2) then Neutral(g)
    else e1
  }

  /** An operator may be regrouped and its operands reordered. */
  lemma Regroup(g: Gate, a: Tristate, b: Tristate, c: Tristate, d: Tristate)
    ensures Apply(g, Apply(g, a, b), Apply(g, c, d)) == Apply(g, Apply(g, a, c), Apply(g, b, d))
    ensures Apply(g, a, Apply(g, b, c)) == Apply(g, Apply(g, a, b), c)
  {
  }

  /** One common part is taken out of both sides: each old value is that part joined with
      the new value. */
  lemma {:induction false} EqPairTakesCommon(env: Env, g: Gate, e1: Expr, e2: Expr)
    ensures Value(env, e1) == Apply(g, Value(env, Common(g, e1, e2)), Value(env, EqPair(g, e1, e2).0))
    ensures Value(env, e2) == Apply(g, Value(env, Common(g, e1, e2)), Value(env, EqPair(g, e1, e2).1))
    decreases Size(e1) + Size(e2), if IsGate(g, e1) || IsGate(g, e2) then 0 else 4
  {
    if IsGate(g, e1) {
      var a := EqPair(g, e1.left, e2);
      var b := EqPair(g, e1.right, a.1);
      var m, n := Common(g, e1.left, e2), Common(g, e1.right, a.1);
      EqPairTakesCommon(env, g, e1.left, e2);
      EqPairTakesCommon(env, g, e1.right, a.1);
      Regroup(g, Value(env, m), Value(env, a.0), Value(env, n), Value(env, b.0));
      Regroup(g, Value(env, m), Value(env, n), Value(env, b.1), No);
    } else if IsGate(g, e2) {
      var a := EqPair(g, e1, e2.left);
      var b := EqPair(g, a.0, e2.right);
      var m, n := Common(g, e1, e2.left), Common(g, a.0, e2.right);
      EqPairTakesCommon(env, g, e1, e2.left);
      EqPairTakesCommon(env, g, a.0, e2.right);
      Regroup(g, Value(env, m), Value(env, a.1), Value(env, n), Value(env, b.1));
      Regroup(g, Value(env, m), Value(env, n), Value(env, b.0), No);
    } else if ExprEq(e1, e2) {
      ExprEqSound(env, e1, e2);
    }
  }

  /** Whatever order the two remainders have, the originals have too. */
  lemma {:induction false} EqPairReflects(env: Env, g: Gate, e1: Expr, e2: Expr)
    requires IsGate(g, e1) || IsGate(g, e2)
    ensures var r := EqPair(g, e1, e2);
            && (Leq(Value(env, r.0), Value(env, r.1)) ==> Leq(Value(env, e1), Value(env, e2)))
            && (Leq(Value(env, r.1), Value(env, r.0)) ==> Leq(Value(env, e2), Value(env, e1)))
    decreases Size(e1) + Size(e2), 1
  {
    EqPairTakesCommon(env, g, e1, e2);
  }

  /** Also when the gates of both sides are gone through. */
  lemma {:induction false} EqBothGatesReflects(env: Env, e1: Expr, e2: Expr)
    ensures var r := EqBothGates(e1, e2);
            && (Leq(Value(env, r.0), Value(env, r.1)) ==> Leq(Value(env, e1), Value(env, e2)))
            && (Leq(Value(env, r.1), Value(env, r.0)) ==> Leq(Value(env, e2), Value(env, e1)))
    decreases Size(e1) + Size(e2), 2
  {
    var p := if e1.Op? then EqPair(e1.gate, e1, e2) else (e1, e2);
    if e1.Op? { EqPairReflects(env, e1.gate, e1, e2); }
    if p.1.Op? && !IsGate(p.1.gate, p.0) { EqPairReflects(env, p.1.gate, p.0, p.1); }
  }

  /** Expressions `expr_eq` calls equal have the same value everywhere. */
  lemma {:induction false} ExprEqSound(env: Env, e1: Expr, e2: Expr)
    requires ExprEq(e1, e2)
    ensures Value(env, e1) == Value(env, e2)
    decreases Size(e1) + Size(e2), 3
  {
    match (e1, e2)
    case (Not(a), Not(b)) => ExprEqSound(env, a, b);
    case (Op(_, _, _), Op(_, _, _)) =>
      var p := EqBothGates(e1, e2);
      EqBothGatesReflects(env, e1, e2);
      EliminateYnValue(env, p.0);
      EliminateYnValue(env, p.1);
    case _ =>
  }

  /** When `expr_eliminate_eq` leaves `y` of its second argument, the first implies the second. */
  lemma EliminateEqImplies(env: Env, e1: Expr, e2: Expr)
    ensures var r := EliminateEq(e1, e2);
            && (Leq(Value(env, r.0), Value(env, r.1)) ==> Leq(Value(env, e1), Value(env, e2)))
            && (r.1 == Sym(SYMBOL_YES) ==> Leq(Value(env, e1), Value(env, e2)))
  {
    var p := EqBothGates(e1, e2);
    EqBothGatesReflects(env, e1, e2);
    EliminateYnValue(env, p.0);
    EliminateYnValue(env, p.1);
  }
}
