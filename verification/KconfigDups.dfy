/** Merging the operands of an AND or OR pairwise until nothing changes: `expr_eliminate_dups`. */
module KconfigDups {
  import opened KconfigExpr
  import opened KconfigEq
  import opened Wrappers

  // ----- expr_join_or, expr_join_and -----

  predicate IsTest(e: Expr) { e.Compare? && (e.rel == Equal || e.rel == Unequal) }

  /** The symbol the first operand of a join speaks about. */
  function FirstSubject(e: Expr): Option<Symbol> {
    match e
    case Sym(s) => Some(s)
    case Compare(_, s, _) => if IsTest(e) then Some(s) else None
    case Not(a) => if a.Sym? then Some(a.sym) else if IsTest(a) then Some(a.lhs) else None
    case Op(_, _, _) => None
  }

  /** The second operand is read more narrowly: a negation counts only on a bare symbol. */
  function SecondSubject(e: Expr): Option<Symbol> {
    if e.Not? && !e.arg.Sym? then None else FirstSubject(e)
  }

  /** The boolean or tristate symbol both operands are about. */
  function Subject(e1: Expr, e2: Expr): (s: Option<Symbol>)
    ensures s.Some? ==> s.value.IsTristateLike()
  {
    var s := FirstSubject(e1);
    if s.Some? && s == SecondSubject(e2) && s.value.IsTristateLike() then s else None
  }

  /** Both are tests by `rel`, one against `x` and one against `y`. */
  predicate TestsAgainst(e1: Expr, e2: Expr, rel: Relation, x: Symbol, y: Symbol) {
    && e1.Compare? && e1.rel == rel && e2.Compare? && e2.rel == rel
    && ((e1.rhs == x && e2.rhs == y) || (e1.rhs == y && e2.rhs == x))
  }

  /** One is a bare symbol, the other a test of it by `rel` against `x`. */
  predicate SymbolAndTest(e1: Expr, e2: Expr, rel: Relation, x: Symbol) {
    || (e1.Sym? && e2.Compare? && e2.rel == rel && e2.rhs == x)
    || (e2.Sym? && e1.Compare? && e1.rel == rel && e1.rhs == x)
  }

  predicate SymbolAndNegation(e1: Expr, e2: Expr) {
    (e1.Not? && e1.arg.Sym? && e2.Sym?) || (e2.Not? && e2.arg.Sym? && e1.Sym?)
  }

  /** `expr_join_or`. */
  function JoinOr(e1: Expr, e2: Expr): Option<Expr> {
    if ExprEq(e1, e2) then Some(e1)
    else
      match Subject(e1, e2)
      case None => None
      case Some(s) =>
        if s.Kind() == KTristate && TestsAgainst(e1, e2, Equal, SYMBOL_YES, SYMBOL_MOD) then
          Some(Compare(Unequal, s, SYMBOL_NO))
        else if s.Kind() == KTristate && TestsAgainst(e1, e2, Equal, SYMBOL_YES, SYMBOL_NO) then
          Some(Compare(Unequal, s, SYMBOL_MOD))
        else if s.Kind() == KTristate && TestsAgainst(e1, e2, Equal, SYMBOL_MOD, SYMBOL_NO) then
          Some(Compare(Unequal, s, SYMBOL_YES))
        else if s.Kind() == KBoolean && SymbolAndNegation(e1, e2) then Some(Sym(SYMBOL_YES))
        else None
  }

  /** `expr_join_and`. */
  function JoinAnd(e1: Expr, e2: Expr): Option<Expr> {
    if ExprEq(e1, e2) then Some(e1)
    else
      match Subject(e1, e2)
      case None => None
      case Some(s) =>
        if SymbolAndTest(e1, e2, Equal, SYMBOL_YES) then Some(Compare(Equal, s, SYMBOL_YES))
        else if SymbolAndTest(e1, e2, Unequal, SYMBOL_NO) then Some(Sym(s))
        else if SymbolAndTest(e1, e2, Unequal, SYMBOL_MOD) then Some(Compare(Equal, s, SYMBOL_YES))
        else if s.Kind() != KTristate then None
        else if e1.Compare? && e2.Compare? && e1.rel == Equal && e2.rel == Unequal && e1.rhs.Const? && e2.rhs.Const? then
          Some(if e1.rhs != e2.rhs then Compare(Equal, s, e1.rhs) else Sym(SYMBOL_NO))
        else if e1.Compare? && e2.Compare? && e1.rel == Unequal && e2.rel == Equal && e1.rhs.Const? && e2.rhs.Const? then
          Some(if e1.rhs != e2.rhs then Compare(Equal, s, e2.rhs) else Sym(SYMBOL_NO))
        else if TestsAgainst(e1, e2, Unequal, SYMBOL_YES, SYMBOL_NO) then Some(Compare(Equal, s, SYMBOL_MOD))
        else if TestsAgainst(e1, e2, Unequal, SYMBOL_YES, SYMBOL_MOD) then Some(Compare(Equal, s, SYMBOL_NO))
        else if TestsAgainst(e1, e2, Unequal, SYMBOL_MOD, SYMBOL_NO) then Some(Compare(Equal, s, SYMBOL_YES))
        else None
  }

  function Join(g: Gate, e1: Expr, e2: Expr): (r: Option<Expr>)
    ensures r.Some? ==> Size(r.value) < Size(e1) + Size(e2)
    ensures r.Some? && !IsGate(g, e1) ==> !IsGate(g, r.value)
  {
    match g case Disj => JoinOr(e1, e2) case Conj => JoinAnd(e1, e2)
  }

  /** A test of a boolean or tristate symbol, read through its tristate value or its text. */
  lemma TestValue(env: Env, e: Expr)
    requires Wf(env) && IsTest(e) && e.lhs.IsTristateLike()
    ensures Value(env, e) == if (Text(env, e.lhs) == Text(env, e.rhs)) == (e.rel == Equal) then Yes else No
    ensures IsYmn(e.rhs) ==>
              Value(env, e) == if (Tri(env, e.lhs) == Tri(env, e.rhs)) == (e.rel == Equal) then Yes else No
  {
    CompareText(env, e.rel, e.lhs, e.rhs);
    if IsYmn(e.rhs) { CompareYmn(env, e.rel, e.lhs, e.rhs); }
  }

  lemma JoinTestsOr(env: Env, e1: Expr, e2: Expr)
    requires Wf(env) && !ExprEq(e1, e2) && JoinOr(e1, e2).Some? && e1.Compare? && e2.Compare?
    ensures Value(env, JoinOr(e1, e2).value) == OrT(Value(env, e1), Value(env, e2))
  {
    TestValue(env, e1);
    TestValue(env, e2);
    TestValue(env, JoinOr(e1, e2).value);
  }

  lemma JoinOrValue(env: Env, e1: Expr, e2: Expr)
    requires Wf(env) && JoinOr(e1, e2).Some?
    ensures Value(env, JoinOr(e1, e2).value) == OrT(Value(env, e1), Value(env, e2))
  {
    if ExprEq(e1, e2) {
      ExprEqSound(env, e1, e2);
    } else if e1.Compare? && e2.Compare? {
      JoinTestsOr(env, e1, e2);
    } else {
      if e1.Compare? && IsTest(e1) { TestValue(env, e1); }
      if e2.Compare? && IsTest(e2) { TestValue(env, e2); }
    }
  }

  lemma JoinTestsAnd(env: Env, e1: Expr, e2: Expr)
    requires Wf(env) && !ExprEq(e1, e2) && JoinAnd(e1, e2).Some? && e1.Compare? && e2.Compare?
    ensures Value(env, JoinAnd(e1, e2).value) == AndT(Value(env, e1), Value(env, e2))
  {
    TestValue(env, e1);
    TestValue(env, e2);
    var r := JoinAnd(e1, e2).value;
    if r.Compare? { TestValue(env, r); }
  }

  lemma JoinAndValue(env: Env, e1: Expr, e2: Expr)
    requires Wf(env) && JoinAnd(e1, e2).Some?
    ensures Value(env, JoinAnd(e1, e2).value) == AndT(Value(env, e1), Value(env, e2))
  {
    if ExprEq(e1, e2) {
      ExprEqSound(env, e1, e2);
    } else if e1.Compare? && e2.Compare? {
      JoinTestsAnd(env, e1, e2);
    } else {
      if e1.Compare? && IsTest(e1) { TestValue(env, e1); }
      if e2.Compare? && IsTest(e2) { TestValue(env, e2); }
      var r := JoinAnd(e1, e2).value;
      if r.Compare? { TestValue(env, r); }
    }
  }

  /** A join replaces two operands by one of the same combined value. */
  lemma JoinValue(env: Env, g: Gate, e1: Expr, e2: Expr)
    requires Wf(env) && Join(g, e1, e2).Some?
    ensures Value(env, Join(g, e1, e2).value) == Apply(g, Value(env, e1), Value(env, e2))
  {
    match g case Disj => JoinOrValue(env, e1, e2); case Conj => JoinAndValue(env, e1, e2);
  }

  // ----- which operands are joined -----

  /** Two tests of one tristate symbol against `y`, `m` and `n`: joined under OR if both are by `=`, under AND
      if not. */
  lemma TestsJoin(s: Symbol, r1: Relation, x: Symbol, r2: Relation, y: Symbol)
    requires s.Kind() == KTristate && IsYmn(x) && IsYmn(y) && (r1 != r2 || x != y)
    requires (r1 == Equal || r1 == Unequal) && (r2 == Equal || r2 == Unequal)
    ensures var e1, e2 := Compare(r1, s, x), Compare(r2, s, y);
            && (JoinOr(e1, e2).Some? <==> r1 == Equal && r2 == Equal)
            && (JoinAnd(e1, e2).Some? <==> r1 == Unequal || r2 == Unequal)
  {
  }

  /** Against other symbols a test by `=` is joined with one by `!=` under AND if both are constants. */
  lemma ConstantsJoin(s: Symbol, x: Symbol, y: Symbol)
    requires s.Kind() == KTristate
    ensures var e1, e2 := Compare(Equal, s, x), Compare(Unequal, s, y);
            && (JoinAnd(e1, e2).Some? <==> x.Const? && y.Const?) && (JoinAnd(e2, e1).Some? <==> x.Const? && y.Const?)
  {
  }

  /** A symbol and a test of it against `y`, `m` or `n`: joined under AND with `= y`, `!= n` and `!= m`. */
  lemma SymbolTestJoin(s: Symbol, rel: Relation, x: Symbol)
    requires s.IsTristateLike() && IsYmn(x) && (rel == Equal || rel == Unequal)
    ensures var e1, e2 := Sym(s), Compare(rel, s, x);
            && (JoinAnd(e1, e2).Some? <==> (rel == Equal <==> x == SYMBOL_YES))
            && (JoinAnd(e2, e1).Some? <==> (rel == Equal <==> x == SYMBOL_YES))
            && JoinOr(e1, e2) == None && JoinOr(e2, e1) == None
  {
  }

  /** A symbol and its negation: joined under OR if it is boolean. */
  lemma SymbolNegationJoin(s: Symbol)
    ensures var e1, e2 := Sym(s), Not(Sym(s));
            && (JoinOr(e1, e2).Some? <==> s.Kind() == KBoolean) && (JoinOr(e2, e1).Some? <==> s.Kind() == KBoolean)
            && JoinAnd(e1, e2) == None && JoinAnd(e2, e1) == None
  {
  }

  /** An operand about one symbol only. */
  predicate About(e: Expr, s: Symbol) {
    e == Sym(s) || e == Not(Sym(s)) || (IsTest(e) && e.lhs == s)
  }

  /** Any other two operands are joined only if they are equal. */
  lemma ForeignJoin(g: Gate, e1: Expr, e2: Expr)
    requires forall s: Symbol :: s.IsTristateLike() ==> !About(e1, s) || !About(e2, s)
    ensures Join(g, e1, e2).Some? <==> ExprEq(e1, e2)
  {
    var s := Subject(e1, e2);
    if s.Some? && About(e2, s.value) { assert !About(e1, s.value); }
  }

  /** And equal ones become one of them. */
  lemma EqualJoin(g: Gate, e1: Expr, e2: Expr)
    requires ExprEq(e1, e2)
    ensures Join(g, e1, e2) == Some(e1)
  {
  }
}
