/** `sym_check_deps` over the flags themselves, for symbols outside choices. */
module SymCheck {
  import opened KconfigExpr
  import opened SymGraph
  import opened SymSearch
  import opened Wrappers

  lemma {:induction false} CheckListConcat(d: Deps, a: seq<Symbol>, b: seq<Symbol>, m: Marks)
    requires Closed(d) && (forall s :: s in a ==> s in d) && forall s :: s in b ==> s in d
    ensures var r := CheckList(d, a, m);
            CheckList(d, a + b, m) == if r.0.Some? then r else CheckList(d, b, r.1)
    decreases |a|
  {
    if a == [] {
      assert a + b == b;
    } else {
      var r := CheckDeps(d, a[0], m);
      assert (a + b)[1..] == a[1..] + b && (a + b)[0] == a[0];
      if r.0.None? { CheckListConcat(d, a[1..], b, r.1); }
    }
  }

  lemma CheckListOne(d: Deps, s: Symbol, m: Marks)
    requires Closed(d) && s in d
    ensures CheckList(d, [s], m) == CheckDeps(d, s, m)
  {
    var r := CheckDeps(d, s, m);
    assert [s][1..] == [];
  }

  predicate Inside(d: Deps, ss: seq<Symbol>) { Closed(d) && forall s :: s in ss ==> s in d }

  class Checker {
    const table: map<Symbol, Info>
    /** What the table says each symbol depends on. */
    ghost const deps: Deps

    /** The symbols with the flags `SYMBOL_CHECK` and `SYMBOL_CHECKED`. */
    var check: set<Symbol>
    var checked: set<Symbol>
    /** The dependency stack, its top last. */
    var stack: seq<Symbol>
    /** The symbols reported as recursive, oldest first. */
    var reports: seq<Symbol>

    ghost function Now(): Marks
      reads this
    {
      Marks(check, checked, stack, reports)
    }

    ghost predicate Table() {
      Closed(deps) && deps.Keys == table.Keys && forall a :: a in table ==> deps[a] == DepsOf(table[a])
    }

    constructor (table: map<Symbol, Info>)
      requires forall a, b :: a in table && b in DepsOf(table[a]) ==> b in table
      ensures Table() && this.table == table && Now() == CLEAR
    {
      this.table, deps := table, map a | a in table :: DepsOf(table[a]);
      check, checked, stack, reports := {}, {}, [], [];
    }

    method CheckDeps(s: Symbol) returns (r: Option<Symbol>)
      requires Table() && s in deps
      modifies this
      ensures (r, Now()) == SymSearch.CheckDeps(deps, s, old(Now()))
      decreases deps.Keys - checked, 0, 1
    {
      if s in check {
        reports := reports + [s];
        return Some(s);
      }
      if s in checked { return None; }
      r := CheckFresh(s);
      if r == Some(s) { r := None; }
    }

    /** The check proper, with `s` marked and stacked while it lasts. */
    method CheckFresh(s: Symbol) returns (r: Option<Symbol>)
      requires Table() && s in deps && s !in checked && s !in check
      modifies this
      ensures var list := CheckList(deps, deps[s], Enter(old(Now()), s));
              r == list.0 && Now() == Leave(list.1, s)
      decreases deps.Keys - checked, 0, 0
    {
      check, checked := check + {s}, checked + {s};
      r := CheckSymDeps(s);
      check := check - {s};
    }

    /** Everything `s` depends on, with `s` on the stack while it lasts. */
    method CheckSymDeps(s: Symbol) returns (r: Option<Symbol>)
      requires Table() && s in deps
      modifies this
      ensures var list := CheckList(deps, deps[s], old(Now().(stack := stack + [s])));
              r == list.0 && Now() == list.1.(stack := stack) && |list.1.stack| > 0 &&
              stack == list.1.stack[..|list.1.stack| - 1]
      decreases deps.Keys - checked, 4
    {
      stack := stack + [s];
      ghost var m := Now();
      var revDep, props := table[s].revDep, table[s].props;
      CheckListConcat(deps, OptSyms(revDep), PropsSyms(props), m);
      CheckListBalanced(deps, deps[s], m);
      r := CheckOptDeps(revDep);
      if r.None? { r := CheckProps(props); }
      stack := stack[..|stack| - 1];
    }

    method CheckProps(props: seq<Prop>) returns (r: Option<Symbol>)
      requires Table() && Inside(deps, PropsSyms(props))
      modifies this
      ensures (r, Now()) == CheckList(deps, PropsSyms(props), old(Now()))
      decreases deps.Keys - checked, 3
    {
      var i := 0;
      r := None;
      while i < |props| && r.None?
        invariant i <= |props| && Inside(deps, PropsSyms(props[i..])) && old(checked) <= checked
        invariant CheckList(deps, PropsSyms(props), old(Now())) ==
                  if r.Some? then (r, Now()) else CheckList(deps, PropsSyms(props[i..]), Now())
      {
        assert props[i..][1..] == props[i + 1..];
        CheckListConcat(deps, PropSyms(props[i]), PropsSyms(props[i + 1..]), Now());
        r := CheckProp(props[i]);
        i := i + 1;
      }
    }

    method CheckProp(p: Prop) returns (r: Option<Symbol>)
      requires Table() && Inside(deps, PropSyms(p))
      modifies this
      ensures (r, Now()) == CheckList(deps, PropSyms(p), old(Now()))
      decreases deps.Keys - checked, 2
    {
      r := None;
      if p.kind == PChoice || p.kind == PSelect { return; }
      var value := if p.kind == PDefault then p.value else None;
      CheckListConcat(deps, OptSyms(p.visible), OptSyms(value), Now());
      r := CheckOptDeps(p.visible);
      if r.None? { r := CheckOptDeps(value); }
    }

    method CheckOptDeps(e: Option<Expr>) returns (r: Option<Symbol>)
      requires Table() && Inside(deps, OptSyms(e))
      modifies this
      ensures (r, Now()) == CheckList(deps, OptSyms(e), old(Now()))
      decreases deps.Keys - checked, 1, 1
    {
      if e.None? { return None; }
      r := CheckExprDeps(e.value);
    }

    method CheckExprDeps(e: Expr) returns (r: Option<Symbol>)
      requires Table() && Inside(deps, ExprSyms(e))
      modifies this
      ensures (r, Now()) == CheckList(deps, ExprSyms(e), old(Now()))
      decreases deps.Keys - checked, 1, 0, Size(e)
    {
      match e
      case Sym(s) =>
        CheckListOne(deps, s, Now());
        r := CheckDeps(s);
      case Not(a) => r := CheckExprDeps(a);
      case Op(_, left, right) =>
        CheckListConcat(deps, ExprSyms(left), ExprSyms(right), Now());
        r := CheckExprDeps(left);
        if r.None? { r := CheckExprDeps(right); }
      case Compare(_, a, b) => r := CheckBoth(a, b);
    }

    method CheckBoth(a: Symbol, b: Symbol) returns (r: Option<Symbol>)
      requires Table() && a in deps && b in deps
      modifies this
      ensures (r, Now()) == CheckList(deps, [a, b], old(Now()))
      decreases deps.Keys - checked, 0, 2
    {
      assert [a, b] == [a] + [b];
      CheckListConcat(deps, [a], [b], Now());
      CheckListOne(deps, a, Now());
      r := CheckDeps(a);
      CheckListOne(deps, b, Now());
      if r.None? { r := CheckDeps(b); }
    }
  }
}
