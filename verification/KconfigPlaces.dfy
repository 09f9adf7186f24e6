/** What the passes over one expression leave at every place of it. */
module KconfigPlaces {
  import opened KconfigExpr
  import opened KconfigRewrite
  import opened KconfigStore

  /** A tristate symbol tested to be set. */
  predicate IsSetTest(e: Expr) { e.Compare? && e.rel == Unequal && e.lhs.Kind() == KTristate && e.rhs == SYMBOL_NO }

  /** `expr_trans_bool` keeps the shape of an expression, and at every place of it, whatever it is below: tests
      for being set become their symbols, and nothing else changes. */
  lemma {:induction false} TransBoolExact(e: Expr, p: Loc)
    ensures HasLoc(TransBool(e), p) <==> HasLoc(e, p)
    ensures HasLoc(e, p) ==>
              var x, y := At(e, p), At(TransBool(e), p);
              && !IsSetTest(y)
              && (IsSetTest(x) ==> y == Sym(x.lhs))
              && (x.Op? ==> y.Op? && y.gate == x.gate) && (x.Not? ==> y.Not?)
              && (!IsSetTest(x) && !x.Op? && !x.Not? ==> y == x)
    decreases p
  {
    if p != [] {
      match e
      case Not(a) => TransBoolExact(a, p[1..]);
      case Op(_, l, r) => TransBoolExact(if p[0] == Lft then l else r, p[1..]);
      case _ =>
    }
  }

  /** After `expr_transform` no place has a negation of anything but a symbol, nor of `y`, `m` or `n`, nor a
      boolean symbol tested for being or not being one of these. */
  lemma TransformPlaces(e: Expr, p: Loc)
    requires HasLoc(Transform(e), p)
    ensures var x := At(Transform(e), p);
            && (x.Not? ==> x.arg.Sym? && x.arg.sym != Const("y") && x.arg.sym != Const("m") && x.arg.sym != Const("n"))
            && (x.Compare? && (x.rel == Equal || x.rel == Unequal) && x.lhs.Kind() == KBoolean ==>
                  x.rhs != Const("y") && x.rhs != Const("m") && x.rhs != Const("n"))
  {
    TransformNormal(e);
    NormalPlaces(Transform(e), p);
  }

  lemma {:induction false} NormalPlaces(e: Expr, p: Loc)
    requires Normal(e) && HasLoc(e, p)
    ensures Normal(At(e, p)) || At(e, p).Sym?
    decreases p
  {
    if p != [] {
      match e
      case Not(a) => NormalPlaces(a, p[1..]);
      case Op(_, l, r) => NormalPlaces(if p[0] == Lft then l else r, p[1..]);
      case _ =>
    }
  }
}
