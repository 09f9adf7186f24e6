/** `expr_trans_compare`, `expr_depends_symbol` and the submenu decision of `menu_finalize`. */
module KconfigAdopt {
  import opened KconfigExpr
  import opened KconfigRewrite
  import opened KconfigEq
  import opened KconfigDupsPass
  import opened KconfigEqExact
  import opened KconfigStore
  import opened Sequences
  import opened KconfigDupsMeaning
  import opened Wrappers

  // ----- expr_trans_compare -----

  /** `expr_trans_compare` on a non-null expression; `rel` is `Equal` or `Unequal`. */
  function TransCompare(e: Expr, rel: Relation, s: Symbol): Expr
    requires (rel == Equal || rel == Unequal) && IsYmn(s)
  {
    match e
    case Sym(a) => Compare(rel, a, s)
    case Not(a) => TransCompare(a, Negated(rel), s)
    case Op(g, l, r) =>
      var a, b := TransCompare(l, Equal, s), TransCompare(r, Equal, s);
      var x := if s == SYMBOL_YES then Op(g, a, b) else if s == SYMBOL_NO then Op(Dual(g), a, b) else e;
      if rel == Unequal then Not(x) else x
    case Compare(_, _, _) =>
      if s == SYMBOL_MOD then Sym(if rel == Equal then SYMBOL_NO else SYMBOL_YES)
      else if (s == SYMBOL_YES) == (rel == Equal) then e
      else Not(e)
  }

  /** The null case: `y` compared with `s`. */
  function TransCompareOpt(e: Option<Expr>, rel: Relation, s: Symbol): Expr
    requires (rel == Equal || rel == Unequal) && IsYmn(s)
  {
    match e
    case None => if rel == Unequal then Not(Sym(s)) else Sym(s)
    case Some(x) => TransCompare(x, rel, s)
  }

  /** No negated operand of `e` holds `mod`. */
  predicate TwoValuedNots(env: Env, e: Expr) {
    match e
    case Sym(_) => true
    case Not(a) => Value(env, a) != Mod && TwoValuedNots(env, a)
    case Op(_, l, r) => TwoValuedNots(env, l) && TwoValuedNots(env, r)
    case Compare(_, _, _) => true
  }

  function Bool(b: bool): Tristate { if b then Yes else No }

  /** Against `y` or `n`, and while no negated operand holds `mod`, the result is the truth
      of `e = s` or `e != s`. */
  lemma {:induction false} TransCompareExact(env: Env, e: Expr, rel: Relation, s: Symbol)
    requires Wf(env) && TypedLeaves(e) && TwoValuedNots(env, e)
    requires (rel == Equal || rel == Unequal) && (s == SYMBOL_YES || s == SYMBOL_NO)
    ensures Value(env, TransCompare(e, rel, s)) == Bool((Value(env, e) == Tri(env, s)) == (rel == Equal))
  {
    match e
    case Sym(a) => CompareYmn(env, rel, a, s);
    case Not(a) => TransCompareExact(env, a, Negated(rel), s);
    case Op(_, l, r) =>
      TransCompareExact(env, l, Equal, s);
      TransCompareExact(env, r, Equal, s);
    case Compare(_, _, _) =>
  }

  /** For a negated operand the truth is kept exactly when the operand does not hold `mod`. */
  lemma TransCompareNegated(env: Env, a: Expr, rel: Relation, s: Symbol)
    requires Wf(env) && TypedLeaves(a) && TwoValuedNots(env, a)
    requires (rel == Equal || rel == Unequal) && (s == SYMBOL_YES || s == SYMBOL_NO)
    ensures Value(env, TransCompare(Not(a), rel, s)) == Bool((Value(env, Not(a)) == Tri(env, s)) == (rel == Equal))
            <==> Value(env, a) != Mod
  {
    TransCompareExact(env, a, Negated(rel), s);
  }

  /** On the normal form, without any condition on values: `e != n` is never claimed wrongly. */
  lemma {:induction false} TransCompareSafe(env: Env, e: Expr)
    requires Wf(env) && TypedLeaves(e) && NegNormal(e)
    ensures Value(env, e) == No ==> Value(env, TransCompare(e, Equal, SYMBOL_NO)) == Yes
    ensures Value(env, TransCompare(e, Unequal, SYMBOL_NO)) != No ==> Value(env, e) != No
  {
    match e
    case Sym(a) =>
      CompareYmn(env, Equal, a, SYMBOL_NO);
      CompareYmn(env, Unequal, a, SYMBOL_NO);
    case Not(a) =>
      CompareYmn(env, Equal, a.sym, SYMBOL_NO);
      CompareYmn(env, Unequal, a.sym, SYMBOL_NO);
      assert Value(env, a) == Tri(env, a.sym);
      assert TransCompare(e, Equal, SYMBOL_NO) == Compare(Unequal, a.sym, SYMBOL_NO);
      assert TransCompare(e, Unequal, SYMBOL_NO) == Compare(Equal, a.sym, SYMBOL_NO);
    case Op(_, l, r) =>
      TransCompareSafe(env, l);
      TransCompareSafe(env, r);
    case Compare(_, _, _) =>
  }

  lemma {:induction false} TransCompareOrderable(e: Expr, rel: Relation, s: Symbol)
    requires Orderable(e) && (rel == Equal || rel == Unequal) && IsYmn(s)
    ensures Orderable(TransCompare(e, rel, s))
  {
    match e
    case Not(a) => TransCompareOrderable(a, Negated(rel), s);
    case Op(_, l, r) =>
      TransCompareOrderable(l, Equal, s);
      TransCompareOrderable(r, Equal, s);
    case _ =>
  }

  // ----- expr_contains_symbol, expr_depends_symbol -----

  predicate ContainsSymbol(e: Expr, s: Symbol) {
    match e
    case Sym(a) => a == s
    case Not(a) => ContainsSymbol(a, s)
    case Op(_, l, r) => ContainsSymbol(l, s) || ContainsSymbol(r, s)
    case Compare(_, a, b) => a == s || b == s
  }

  predicate DependsSymbol(e: Expr, s: Symbol) {
    match e
    case Sym(a) => a == s
    case Op(g, l, r) => g == Conj && (DependsSymbol(l, s) || DependsSymbol(r, s))
    case Compare(rel, a, b) =>
      a == s && ((rel == Equal && (b == SYMBOL_YES || b == SYMBOL_MOD)) || (rel == Unequal && b == SYMBOL_NO))
    case Not(_) => false
  }

  lemma {:induction false} DependsSymbolSound(env: Env, e: Expr, s: Symbol)
    requires Wf(env) && s.IsTristateLike()
    requires DependsSymbol(e, s)
    ensures Value(env, e) != No ==> Tri(env, s) != No
    ensures ContainsSymbol(e, s)
  {
    match e
    case Op(_, l, r) =>
      if DependsSymbol(l, s) { DependsSymbolSound(env, l, s); } else { DependsSymbolSound(env, r, s); }
    case Compare(rel, a, b) => CompareYmn(env, rel, a, b);
    case _ =>
  }

  /** An operand that by itself is `no` when `s` is. */
  predicate Direct(k: Expr, s: Symbol) {
    || k == Sym(s) || k == Compare(Equal, s, SYMBOL_YES) || k == Compare(Equal, s, SYMBOL_MOD)
    || k == Compare(Unequal, s, SYMBOL_NO)
  }

  lemma DirectLeaf(e: Expr, s: Symbol)
    requires !IsGate(Conj, e)
    ensures DependsSymbol(e, s) <==> Direct(e, s)
  {
  }

  /** An expression depends on a symbol exactly if one of its operands under AND does, wherever it stands. */
  lemma {:induction false} DependsExact(e: Expr, s: Symbol)
    ensures DependsSymbol(e, s) <==> exists k :: k in Leaves(Conj, e) && Direct(k, s)
  {
    if IsGate(Conj, e) {
      DependsExact(e.left, s);
      DependsExact(e.right, s);
    } else {
      DirectLeaf(e, s);
      assert e in Leaves(Conj, e);
    }
  }

  predicate Mentions(k: Expr, s: Symbol) { k == Sym(s) || (k.Compare? && (k.lhs == s || k.rhs == s)) }

  /** The symbol, or a relation with it, stands at a place of the expression. */
  predicate MentionedAt(e: Expr, s: Symbol, p: Loc) { HasLoc(e, p) && Mentions(At(e, p), s) }

  lemma MentionedBelow(e: Expr, side: Side, p: Loc)
    requires e.Not? || e.Op?
    requires side == Lft || e.Op?
    ensures var part := if e.Not? then e.arg else if side == Lft then e.left else e.right;
            && (HasLoc(e, [side] + p) <==> HasLoc(part, p))
            && (HasLoc(part, p) ==> At(e, [side] + p) == At(part, p))
  {
    Cons(side, p);
  }

  /** It contains one exactly if the symbol or a relation with it stands somewhere in it. */
  lemma {:induction false} ContainsExact(e: Expr, s: Symbol)
    ensures ContainsSymbol(e, s) <==> exists p: Loc :: MentionedAt(e, s, p)
  {
    if ContainsSymbol(e, s) {
      var p := MentionOf(e, s);
      assert MentionedAt(e, s, p);
    }
    if p: Loc :| MentionedAt(e, s, p) { ContainsMentioned(e, s, p); }
  }

  lemma {:induction false} MentionOf(e: Expr, s: Symbol) returns (p: Loc)
    requires ContainsSymbol(e, s)
    ensures MentionedAt(e, s, p)
  {
    match e
    case Not(a) =>
      p := MentionOf(a, s);
      MentionedBelow(e, Lft, p);
      p := [Lft] + p;
    case Op(_, l, r) =>
      var side := if ContainsSymbol(l, s) then Lft else Rgt;
      p := MentionOf(if side == Lft then l else r, s);
      MentionedBelow(e, side, p);
      p := [side] + p;
    case _ => p := [];
  }

  lemma {:induction false} ContainsMentioned(e: Expr, s: Symbol, p: Loc)
    requires MentionedAt(e, s, p)
    ensures ContainsSymbol(e, s)
    decreases p
  {
    if p != [] {
      ContainsMentioned(if e.Not? then e.arg else if p[0] == Lft then e.left else e.right, s, p[1..]);
    }
  }

  // ----- adopting a sibling into a submenu -----

  /** `e != n`, simplified. */
  function Condition(e: Option<Expr>): Expr {
    EliminateDups(Transform(TransCompareOpt(e, Unequal, SYMBOL_NO)))
  }

  /** Whether `menu_finalize` takes a following entry with condition `dep` into the submenu
      of a symbol whose own prompt has condition `base`. */
  predicate Adopts(s: Symbol, base: Option<Expr>, dep: Option<Expr>) {
    && dep.Some? && ContainsSymbol(dep.value, s)
    && (DependsSymbol(dep.value, s) || EliminateEq(Condition(dep), Condition(base)).1 == Sym(SYMBOL_YES))
  }

  lemma {:induction false} DirectContained(e: Expr, s: Symbol, k: Expr)
    requires k in Leaves(Conj, e) && Direct(k, s)
    ensures ContainsSymbol(e, s)
  {
    if IsGate(Conj, e) {
      if k in Leaves(Conj, e.left) { DirectContained(e.left, s, k); } else { DirectContained(e.right, s, k); }
    }
  }

  /** An entry with such an operand is taken in whatever the prompt's condition. */
  lemma AdoptsDirect(s: Symbol, base: Option<Expr>, e: Expr, i: nat)
    requires i < |Leaves(Conj, e)| && Direct(Leaves(Conj, e)[i], s)
    ensures Adopts(s, base, Some(e))
  {
    DependsExact(e, s);
    DirectContained(e, s, Leaves(Conj, e)[i]);
  }

  /** No two operands of a simplified condition can be joined, at any depth. */
  lemma ConditionSettled(e: Option<Expr>)
    ensures Settled(Condition(e))
  {
    EliminateDupsSettles(Transform(TransCompareOpt(e, Unequal, SYMBOL_NO)));
  }

  /** The simplified condition of the prompt has only operands that the entry's has under AND. */
  predicate Covered(dep: Expr, base: Expr) {
    base == Sym(SYMBOL_YES) || (base != Sym(SYMBOL_NO) && IsGate(Conj, dep) && Parts(Conj, base) <= Parts(Conj, dep))
  }

  /** What is taken in: an entry that mentions the symbol, and either depends on it by an operand under
      AND, or has among the operands of its condition, in any order, all those of the prompt's. */
  lemma AdoptsExact(s: Symbol, base: Option<Expr>, e: Expr)
    requires Clean(Condition(base)) && Clean(Condition(Some(e)))
    ensures Adopts(s, base, Some(e)) <==>
              && (exists p: Loc :: MentionedAt(e, s, p))
              && ((exists k :: k in Leaves(Conj, e) && Direct(k, s)) || Covered(Condition(Some(e)), Condition(base)))
  {
    var c, b := Condition(Some(e)), Condition(base);
    ContainsExact(e, s);
    DependsExact(e, s);
    if IsYn(b) {
      EliminateEqConstant(c, b);
    } else if IsYn(c) {
      EliminateEqConstant(b, c);
    } else {
      EliminateEqYes(c, b);
    }
  }

  lemma ConditionValue(env: Env, e: Option<Expr>)
    requires Wf(env) && (e.Some? ==> Orderable(e.value))
    ensures Value(env, Condition(e)) == Value(env, TransCompareOpt(e, Unequal, SYMBOL_NO))
  {
    if e.Some? { TransCompareOrderable(e.value, Unequal, SYMBOL_NO); }
    TransformValue(env, TransCompareOpt(e, Unequal, SYMBOL_NO));
    EliminateDupsValue(env, Transform(TransCompareOpt(e, Unequal, SYMBOL_NO)));
  }

  /** An adopted entry can be visible only where its new parent is: through a direct
      dependency the parent symbol is set, otherwise the parent prompt's condition holds.
      The parent condition is in the form earlier passes left it in; only the entry's own
      negated operands must not hold `mod`. */
  lemma AdoptionSound(env: Env, s: Symbol, base: Option<Expr>, dep: Option<Expr>)
    requires Wf(env) && Adopts(s, base, dep)
    requires TypedLeaves(dep.value) && Orderable(dep.value) && TwoValuedNots(env, dep.value)
    requires base.Some? ==> Tidy(base.value)
    requires ValueOpt(env, dep) != No
    ensures s.IsTristateLike() && DependsSymbol(dep.value, s) ==> Tri(env, s) != No
    ensures !DependsSymbol(dep.value, s) ==> ValueOpt(env, base) != No
  {
    if DependsSymbol(dep.value, s) {
      if s.IsTristateLike() { DependsSymbolSound(env, dep.value, s); }
    } else {
      EliminateEqImplies(env, Condition(dep), Condition(base));
      ConditionValue(env, dep);
      ConditionValue(env, base);
      TransCompareExact(env, dep.value, Unequal, SYMBOL_NO);
      if base.Some? { TransCompareSafe(env, base.value); }
    }
  }

  // The condition on negated operands is needed.

  /** `s = n`. */
  function Off(s: Symbol): Expr { Compare(Equal, s, SYMBOL_NO) }

  /** `!a && !b`. */
  function Neither(a: Symbol, b: Symbol): Expr { Op(Conj, Not(Sym(a)), Not(Sym(b))) }

  lemma NeitherTransformed(a: Symbol, b: Symbol)
    requires a.Kind() == KTristate && b.Kind() == KTristate
    ensures Transform(TransCompare(Neither(a, b), Unequal, SYMBOL_NO)) == Op(Conj, Off(a), Off(b))
  {
    var x, y := Compare(Unequal, a, SYMBOL_NO), Compare(Unequal, b, SYMBOL_NO);
    assert TransCompare(Not(Sym(a)), Equal, SYMBOL_NO) == x;
    assert TransCompare(Not(Sym(b)), Equal, SYMBOL_NO) == y;
    assert TransCompare(Neither(a, b), Unequal, SYMBOL_NO) == Not(Op(Disj, x, y));
    assert Transform(x) == x && Transform(y) == y;
    assert Transform(Not(x)) == Off(a) && Transform(Not(y)) == Off(b);
    assert Transform(DeMorgan(Disj, x, y)) == Op(Conj, Off(a), Off(b));
  }

  lemma NeitherCondition(a: Symbol, b: Symbol)
    requires a.Kind() == KTristate && b.Kind() == KTristate && a != b
    ensures Condition(Some(Neither(a, b))) == Op(Conj, Off(a), Off(b))
    ensures Condition(Some(Off(a))) == Off(a)
  {
    NeitherTransformed(a, b);
    var both := Op(Conj, Off(a), Off(b));
    assert Leaves(Conj, both) == [Off(a), Off(b)];
    assert Settled(both);
    EliminateDupsSettles(both);
  }

  lemma NeitherAdopted(a: Symbol, b: Symbol)
    requires a.Kind() == KTristate && b.Kind() == KTristate && a != b
    ensures Adopts(b, Some(Off(a)), Some(Neither(a, b))) && !DependsSymbol(Neither(a, b), b)
  {
    NeitherCondition(a, b);
    assert ContainsSymbol(Not(Sym(b)), b);
    assert EqPair(Conj, Off(a), Off(a)) == (Neutral(Conj), Neutral(Conj));
    assert EqPair(Conj, Off(b), Neutral(Conj)) == (Off(b), Neutral(Conj));
    assert EqBothGates(Op(Conj, Off(a), Off(b)), Off(a)).1 == Neutral(Conj);
  }

  /** The entry under `!a && !b` is always adopted by `b` below a prompt under `a = n`, and
      its condition then implies the prompt's exactly when `a` does not hold `mod` or `b` holds `y`. */
  lemma AdoptionNeedsTwoValuedNots(env: Env, a: Symbol, b: Symbol)
    requires Wf(env) && a.Kind() == KTristate && b.Kind() == KTristate && a != b
    ensures Adopts(b, Some(Off(a)), Some(Neither(a, b))) && !DependsSymbol(Neither(a, b), b)
    ensures (Value(env, Neither(a, b)) != No ==> Value(env, Off(a)) != No)
            <==> Tri(env, a) != Mod || Tri(env, b) == Yes
  {
    NeitherAdopted(a, b);
    assert Value(env, Sym(a)) == Tri(env, a) && Value(env, Sym(b)) == Tri(env, b);
    assert Value(env, Not(Sym(a))) == NotT(Tri(env, a));
    assert Value(env, Not(Sym(b))) == NotT(Tri(env, b));
    CompareYmn(env, Equal, a, SYMBOL_NO);
  }
}
