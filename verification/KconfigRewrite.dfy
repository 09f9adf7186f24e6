/** The single-expression passes: `expr_transform`, `expr_eliminate_yn`, `expr_trans_bool`. */
module KconfigRewrite {
  import opened KconfigExpr
  import opened Wrappers

  // ----- termination measure of expr_transform -----

  /** A negation doubles the weight of what it covers, so pushing it inwards loses weight. */
  function Weight(e: Expr): (w: nat)
    ensures w >= 1
  {
    match e
    case Sym(_) => 1
    case Not(a) => 2 * Weight(a)
    case Op(_, l, r) => 1 + Weight(l) + Weight(r)
    case Compare(_, _, _) => 2
  }

  function Negated(rel: Relation): Relation {
    match rel
    case Equal => Unequal
    case Unequal => Equal
    case LessEq => Greater
    case GreaterEq => Less
    case Less => GreaterEq
    case Greater => LessEq
  }

  function Dual(g: Gate): Gate { match g case Conj => Disj case Disj => Conj }

  /** A boolean symbol tested against `y`, `m` or `n`. */
  predicate IsBoolTest(e: Expr) {
    e.Compare? && (e.rel == Equal || e.rel == Unequal) && e.lhs.Kind() == KBoolean && IsYmn(e.rhs)
  }

  function TransformBoolTest(rel: Relation, a: Symbol, b: Symbol): (r: Expr)
    requires IsBoolTest(Compare(rel, a, b))
  {
    if rel == Equal then
      if b == SYMBOL_NO then Not(Sym(a)) else if b == SYMBOL_MOD then Sym(SYMBOL_NO) else Sym(a)
    else
      if b == SYMBOL_NO then Sym(a) else if b == SYMBOL_MOD then Sym(SYMBOL_YES) else Not(Sym(a))
  }

  /** `!(x op y)` with the negation moved to the operands. */
  function DeMorgan(g: Gate, x: Expr, y: Expr): (r: Expr)
    ensures Weight(r) + 1 == 2 * Weight(Op(g, x, y))
  {
    assert Weight(Not(x)) == 2 * Weight(x) && Weight(Not(y)) == 2 * Weight(y);
    Op(Dual(g), Not(x), Not(y))
  }

  /** `expr_transform`. */
  function Transform(e: Expr): (r: Expr)
    ensures Weight(r) <= Weight(e)
    decreases Weight(e)
  {
    match e
    case Sym(_) => e
    case Compare(rel, a, b) => if IsBoolTest(e) then TransformBoolTest(rel, a, b) else e
    case Op(g, l, r) => Op(g, Transform(l), Transform(r))
    case Not(a) =>
      var c := Transform(a);
      match c
      case Not(x) => Transform(x)
      case Compare(rel, s, t) => Compare(Negated(rel), s, t)
      case Op(g, x, y) => Transform(DeMorgan(g, x, y))
      case Sym(s) =>
        if s == SYMBOL_YES then Sym(SYMBOL_NO)
        else if s == SYMBOL_MOD then Sym(SYMBOL_MOD)
        else if s == SYMBOL_NO then Sym(SYMBOL_YES)
        else Not(c)
  }

  /** Negation stands only on symbols. */
  predicate NegNormal(e: Expr) {
    match e
    case Sym(_) => true
    case Compare(_, _, _) => true
    case Op(_, l, r) => NegNormal(l) && NegNormal(r)
    case Not(a) => a.Sym?
  }

  /** The normal form of `expr_transform`: negation only on non-constant symbols, no
      boolean symbol tested against a tristate constant. */
  predicate Normal(e: Expr) {
    match e
    case Sym(_) => true
    case Compare(_, _, _) => !IsBoolTest(e)
    case Op(_, l, r) => Normal(l) && Normal(r)
    case Not(a) => a.Sym? && !IsYmn(a.sym)
  }

  lemma {:induction false} NormalIsNegNormal(e: Expr)
    requires Normal(e)
    ensures NegNormal(e)
  {
    match e
    case Op(_, l, r) => NormalIsNegNormal(l); NormalIsNegNormal(r);
    case _ =>
  }

  lemma {:induction false} TransformNormal(e: Expr)
    ensures Normal(Transform(e))
    decreases Weight(e)
  {
    match e
    case Sym(_) =>
    case Compare(_, _, _) =>
    case Op(_, l, r) => TransformNormal(l); TransformNormal(r);
    case Not(a) =>
      TransformNormal(a);
      match Transform(a)
      case Not(x) => TransformNormal(x);
      case Op(g, x, y) => TransformNormal(DeMorgan(g, x, y));
      case Compare(_, _, _) =>
      case Sym(_) =>
  }

  lemma {:induction false} TransformFixesNormal(e: Expr)
    requires Normal(e)
    ensures Transform(e) == e
  {
    match e
    case Op(_, l, r) => TransformFixesNormal(l); TransformFixesNormal(r);
    case _ =>
  }

  lemma TransformIdempotent(e: Expr)
    ensures Transform(Transform(e)) == Transform(e)
  {
    TransformNormal(e);
    TransformFixesNormal(Transform(e));
  }

  /** No ordering relation has an operand whose type is only known from a configuration file. */
  predicate Orderable(e: Expr) {
    match e
    case Sym(_) => true
    case Not(a) => Orderable(a)
    case Op(_, l, r) => Orderable(l) && Orderable(r)
    case Compare(rel, a, b) => rel == Equal || rel == Unequal || (a.Kind() != KOther && b.Kind() != KOther)
  }

  lemma {:induction false} TransformOrderable(e: Expr)
    requires Orderable(e)
    ensures Orderable(Transform(e))
    decreases Weight(e)
  {
    match e
    case Sym(_) =>
    case Compare(_, _, _) =>
    case Op(_, l, r) => TransformOrderable(l); TransformOrderable(r);
    case Not(a) =>
      TransformOrderable(a);
      match Transform(a)
      case Not(x) => TransformOrderable(x);
      case Op(g, x, y) => TransformOrderable(DeMorgan(g, x, y));
      case Compare(_, _, _) =>
      case Sym(_) =>
  }

  /** Every bare symbol in `e` has a tristate meaning. */
  predicate TypedLeaves(e: Expr) {
    match e
    case Sym(s) => HasTristate(s)
    case Not(a) => TypedLeaves(a)
    case Op(_, l, r) => TypedLeaves(l) && TypedLeaves(r)
    case Compare(_, _, _) => true
  }

  lemma {:induction false} TransformTyped(e: Expr)
    requires TypedLeaves(e)
    ensures TypedLeaves(Transform(e))
    decreases Weight(e)
  {
    match e
    case Sym(_) =>
    case Compare(_, _, _) =>
    case Op(_, l, r) => TransformTyped(l); TransformTyped(r);
    case Not(a) =>
      TransformTyped(a);
      match Transform(a)
      case Not(x) => TransformTyped(x);
      case Op(g, x, y) => TransformTyped(DeMorgan(g, x, y));
      case Compare(_, _, _) =>
      case Sym(_) =>
  }

  /** Negating a relation negates its value exactly when its operands can be compared by it. */
  lemma NegatedRelation(env: Env, rel: Relation, a: Symbol, b: Symbol)
    ensures CompareValue(env, Negated(rel), a, b) == NotT(CompareValue(env, rel, a, b))
            <==> Order(env, rel, a, b) != None
  {
    assert Order(env, Negated(rel), a, b) == Order(env, rel, a, b);
  }

  /** `expr_transform` never changes what an expression means. */
  lemma {:induction false} TransformValue(env: Env, e: Expr)
    requires Wf(env) && Orderable(e)
    ensures Value(env, Transform(e)) == Value(env, e)
    decreases Weight(e), 1
  {
    match e
    case Sym(_) =>
    case Compare(rel, a, b) =>
      if IsBoolTest(e) { CompareYmn(env, rel, a, b); }
    case Op(_, l, r) => TransformValue(env, l); TransformValue(env, r);
    case Not(a) => TransformValue(env, a); NegationValue(env, a);
  }

  /** The negation, once what it stands on is transformed. */
  lemma {:induction false} NegationValue(env: Env, a: Expr)
    requires Wf(env) && Orderable(a) && Value(env, Transform(a)) == Value(env, a)
    ensures Value(env, Transform(Not(a))) == Value(env, Not(a))
    decreases Weight(Not(a)), 0
  {
    TransformOrderable(a);
    match Transform(a)
    case Not(x) => TransformValue(env, x);
    case Op(g, x, y) => TransformValue(env, DeMorgan(g, x, y));
    case Compare(rel, s, t) => NegatedRelation(env, rel, s, t);
    case Sym(_) =>
  }

  /** The operand condition is needed: `!(a < b)` over incomparable operands changes from `y` to `n`. */
  lemma TransformNegatedOrder(env: Env, rel: Relation, a: Symbol, b: Symbol)
    requires rel != Equal && rel != Unequal
    ensures Value(env, Transform(Not(Compare(rel, a, b)))) == Value(env, Not(Compare(rel, a, b)))
            <==> Order(env, rel, a, b) != None
  {
    NegatedRelation(env, rel, a, b);
  }

  // ----- expr_eliminate_yn -----

  /** The last step of `expr_eliminate_yn`, on a node whose two sides are done. */
  function Absorb(g: Gate, l: Expr, r: Expr): Expr {
    if l == Absorbing(g) then Absorbing(g)
    else if l == Neutral(g) then r
    else if r == Absorbing(g) then Absorbing(g)
    else if r == Neutral(g) then l
    else Op(g, l, r)
  }

  /** `expr_eliminate_yn`. */
  function EliminateYn(e: Expr): Expr {
    if e.Op? then Absorb(e.gate, EliminateYn(e.left), EliminateYn(e.right)) else e
  }

  lemma {:induction false} EliminateYnValue(env: Env, e: Expr)
    ensures Value(env, EliminateYn(e)) == Value(env, e)
  {
    if e.Op? { EliminateYnValue(env, e.left); EliminateYnValue(env, e.right); }
  }

  /** No AND or OR has a `y` or `n` for an operand. */
  predicate YnFree(e: Expr) {
    e.Op? ==> (e.left != Neutral(e.gate) && e.left != Absorbing(e.gate) &&
               e.right != Neutral(e.gate) && e.right != Absorbing(e.gate) &&
               YnFree(e.left) && YnFree(e.right))
  }

  /** The result has no `y` or `n` left under AND or OR, and an expression is kept whole
      exactly when it had none. */
  lemma {:induction false} EliminateYnExact(e: Expr)
    ensures YnFree(EliminateYn(e))
    ensures Size(EliminateYn(e)) <= Size(e)
    ensures YnFree(e) <==> EliminateYn(e) == e
    ensures YnFree(e) <==> Size(EliminateYn(e)) == Size(e)
  {
    if e.Op? { EliminateYnExact(e.left); EliminateYnExact(e.right); }
  }

  lemma {:induction false} EliminateYnKeeps(e: Expr)
    ensures NegNormal(e) ==> NegNormal(EliminateYn(e))
    ensures Orderable(e) ==> Orderable(EliminateYn(e))
    ensures TypedLeaves(e) ==> TypedLeaves(EliminateYn(e))
  {
    if e.Op? { EliminateYnKeeps(e.left); EliminateYnKeeps(e.right); }
  }

  // ----- expr_trans_bool -----

  /** `expr_trans_bool`. */
  function TransBool(e: Expr): Expr {
    match e
    case Sym(_) => e
    case Not(a) => Not(TransBool(a))
    case Op(g, l, r) => Op(g, TransBool(l), TransBool(r))
    case Compare(rel, a, b) =>
      if rel == Unequal && a.Kind() == KTristate && b == SYMBOL_NO then Sym(a) else e
  }

  /** On the normal form `expr_trans_bool` can change a value only between `m` and `y`. */
  lemma {:induction false} TransBoolKeepsNo(env: Env, e: Expr)
    requires Wf(env) && NegNormal(e)
    ensures Value(env, TransBool(e)) == No <==> Value(env, e) == No
    ensures Leq(Value(env, TransBool(e)), Value(env, e))
  {
    match e
    case Op(_, l, r) => TransBoolKeepsNo(env, l); TransBoolKeepsNo(env, r);
    case Compare(rel, a, b) =>
      if rel == Unequal && a.Kind() == KTristate && b == SYMBOL_NO { CompareYmn(env, rel, a, b); }
    case _ =>
  }

  /** Under a negation it does not: for one negated test, whether the value is `no` survives
      exactly when the test is not a tristate `!= n` on a symbol that holds `mod`. */
  lemma TransBoolNegatedTest(env: Env, rel: Relation, a: Symbol, b: Symbol)
    requires Wf(env)
    ensures (Value(env, TransBool(Not(Compare(rel, a, b)))) == No <==> Value(env, Not(Compare(rel, a, b))) == No)
            <==> !(rel == Unequal && a.Kind() == KTristate && b == SYMBOL_NO && Tri(env, a) == Mod)
  {
    if rel == Unequal && a.Kind() == KTristate && b == SYMBOL_NO { CompareYmn(env, rel, a, b); }
  }

  lemma {:induction false} TransBoolKeeps(e: Expr)
    requires NegNormal(e) && Orderable(e) && TypedLeaves(e)
    ensures var r := TransBool(e); NegNormal(r) && Orderable(r) && TypedLeaves(r)
  {
    match e
    case Op(_, l, r) => TransBoolKeeps(l); TransBoolKeeps(r);
    case _ =>
  }
}
