/** That the symbols `sym_check_deps` goes on to are those a symbol's conditions and defaults are computed from. */
module SymDeps {
  import opened KconfigExpr
  import opened KconfigAdopt
  import opened SymGraph
  import opened Wrappers

  /** The expressions that decide over a symbol: its reverse dependency, and of its properties other than
      choices and selections the conditions and the values of defaults. */
  ghost predicate Decides(info: Info, e: Expr) {
    info.revDep == Some(e) || exists p :: p in info.props && InProp(p, e)
  }

  predicate InProp(p: Prop, e: Expr) {
    p.kind != PChoice && p.kind != PSelect && (p.visible == Some(e) || (p.kind == PDefault && p.value == Some(e)))
  }

  /** Two environments that differ in other symbols only. */
  ghost predicate SameOn(a: Env, b: Env, ss: seq<Symbol>) {
    a.modules == b.modules && a.number == b.number && forall s :: s in ss ==> a.tri(s) == b.tri(s) && a.text(s) == b.text(s)
  }

  lemma {:induction false} ExprDecided(a: Env, b: Env, e: Expr)
    requires SameOn(a, b, ExprSyms(e))
    ensures Value(a, e) == Value(b, e)
  {
    match e
    case Not(x) => ExprDecided(a, b, x);
    case Op(_, l, r) =>
      ExprDecided(a, b, l);
      ExprDecided(a, b, r);
    case Sym(s) => assert s in ExprSyms(e);
    case Compare(rel, x, y) =>
      assert x in ExprSyms(e) && y in ExprSyms(e);
      assert Text(a, x) == Text(b, x) && Text(a, y) == Text(b, y);
  }

  lemma {:induction false} ExprSymsExact(e: Expr, s: Symbol)
    ensures s in ExprSyms(e) <==> ContainsSymbol(e, s)
  {
    match e
    case Not(a) => ExprSymsExact(a, s);
    case Op(_, l, r) =>
      ExprSymsExact(l, s);
      ExprSymsExact(r, s);
    case _ =>
  }

  lemma PropSymsExact(p: Prop, s: Symbol)
    ensures s in PropSyms(p) <==> exists e :: InProp(p, e) && s in ExprSyms(e)
  {
    if s in PropSyms(p) {
      assert p.kind != PChoice && p.kind != PSelect;
      if s in OptSyms(p.visible) {
        assert InProp(p, p.visible.value);
      } else {
        assert InProp(p, p.value.value);
      }
    }
  }

  lemma {:induction false} PropsSymsExact(props: seq<Prop>, s: Symbol)
    ensures s in PropsSyms(props) <==> exists p :: p in props && s in PropSyms(p)
  {
    if props != [] {
      PropsSymsExact(props[1..], s);
      assert forall p :: p in props <==> p == props[0] || p in props[1..];
    }
  }

  /** A symbol is gone on to exactly if it stands in one of those expressions. */
  lemma DepsExact(info: Info, s: Symbol)
    ensures s in DepsOf(info) <==> exists e :: Decides(info, e) && ContainsSymbol(e, s)
  {
    PropsSymsExact(info.props, s);
    if s in DepsOf(info) {
      if s in OptSyms(info.revDep) {
        ExprSymsExact(info.revDep.value, s);
        assert Decides(info, info.revDep.value);
      } else {
        var p :| p in info.props && s in PropSyms(p);
        PropSymsExact(p, s);
        var e :| InProp(p, e) && s in ExprSyms(e);
        ExprSymsExact(e, s);
        assert Decides(info, e);
      }
    }
    if e :| Decides(info, e) && ContainsSymbol(e, s) {
      ExprSymsExact(e, s);
      if info.revDep != Some(e) {
        var p :| p in info.props && InProp(p, e);
        PropSymsExact(p, s);
      }
    }
  }

  /** So what other symbols hold makes no difference to any of them. */
  lemma DepsDecide(a: Env, b: Env, info: Info, e: Expr)
    requires SameOn(a, b, DepsOf(info)) && Decides(info, e)
    ensures Value(a, e) == Value(b, e)
  {
    forall s | s in ExprSyms(e) ensures s in DepsOf(info) {
      ExprSymsExact(e, s);
      DepsExact(info, s);
    }
    ExprDecided(a, b, e);
  }
}
