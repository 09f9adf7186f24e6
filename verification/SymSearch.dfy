/** The depth-first search of `sym_check_deps` as a function of the flags, and what it finds. */
module SymSearch {
  import opened KconfigExpr
  import opened SymGraph
  import opened Sequences
  import opened Wrappers

  /** The symbols with the flags `SYMBOL_CHECK` and `SYMBOL_CHECKED`, the dependency stack with its
      top last, and the symbols reported so far. */
  datatype Marks = Marks(check: set<Symbol>, checked: set<Symbol>, stack: seq<Symbol>, reports: seq<Symbol>)

  function Enter(m: Marks, s: Symbol): Marks {
    m.(check := m.check + {s}, checked := m.checked + {s}, stack := m.stack + [s])
  }

  function Leave(m: Marks, s: Symbol): Marks {
    m.(check := m.check - {s}, stack := if m.stack == [] then [] else m.stack[..|m.stack| - 1])
  }

  /** Checks one symbol; the result is the symbol of a reported cycle that is still open. */
  function CheckDeps(d: Deps, s: Symbol, m: Marks): (r: (Option<Symbol>, Marks))
    requires Closed(d) && s in d
    ensures m.checked <= r.1.checked && s in r.1.checked + m.check
    decreases d.Keys - m.checked, 0, 0
  {
    if s in m.check then (Some(s), m.(reports := m.reports + [s]))
    else if s in m.checked then (None, m)
    else
      var r := CheckList(d, d[s], Enter(m, s));
      (if r.0 == Some(s) then None else r.0, Leave(r.1, s))
  }

  /** Checks symbols one after the other, up to the first with a result. */
  function CheckList(d: Deps, ss: seq<Symbol>, m: Marks): (r: (Option<Symbol>, Marks))
    requires Closed(d) && forall b :: b in ss ==> b in d
    ensures m.checked <= r.1.checked
    decreases d.Keys - m.checked, 1, |ss|
  {
    if ss == [] then (None, m)
    else
      var r := CheckDeps(d, ss[0], m);
      if r.0.Some? then r else CheckList(d, ss[1..], r.1)
  }

  // ----- marks and stack are left as they were -----

  lemma {:induction false} CheckDepsBalanced(d: Deps, s: Symbol, m: Marks)
    requires Closed(d) && s in d
    ensures var (r, n) := CheckDeps(d, s, m);
            n.check == m.check && n.stack == m.stack && m.reports <= n.reports
    decreases d.Keys - m.checked, 0, 0
  {
    if s !in m.check && s !in m.checked {
      CheckListBalanced(d, d[s], Enter(m, s));
    }
  }

  lemma {:induction false} CheckListBalanced(d: Deps, ss: seq<Symbol>, m: Marks)
    requires Closed(d) && forall b :: b in ss ==> b in d
    ensures var (r, n) := CheckList(d, ss, m);
            n.check == m.check && n.stack == m.stack && m.reports <= n.reports
    decreases d.Keys - m.checked, 1, |ss|
  {
    if ss != [] {
      CheckDepsBalanced(d, ss[0], m);
      var r := CheckDeps(d, ss[0], m);
      if r.0.None? { CheckListBalanced(d, ss[1..], r.1); }
    }
  }

  // ----- what is reported -----

  /** The stack is a path of dependencies and holds the symbols marked as being checked. */
  ghost predicate Stacked(d: Deps, m: Marks) {
    IsPath(d, m.stack) && m.check <= m.checked && forall s :: s in m.check <==> s in m.stack
  }

  ghost predicate Truthful(d: Deps, m: Marks) { forall s :: s in m.reports ==> s in m.checked && OnCycle(d, s) }

  /** Until something is reported, the symbols whose check has ended can be numbered so that each
      depends on lower ones only. */
  ghost predicate Numbered(d: Deps, m: Marks, rank: map<Symbol, nat>, next: nat) {
    m.reports == [] ==> Ranked(d, rank, next) && forall s :: s in rank <==> s in m.checked && s !in m.check
  }

  predicate OnTop(d: Deps, m: Marks, s: Symbol) { m.stack != [] ==> Depends(d, m.stack[|m.stack| - 1], s) }

  lemma StackedEnter(d: Deps, m: Marks, s: Symbol)
    requires Stacked(d, m) && OnTop(d, m, s) && s in d
    ensures Stacked(d, Enter(m, s)) && forall b :: b in d[s] ==> OnTop(d, Enter(m, s), b)
  {
    PathSnoc(d, m.stack, s);
  }

  lemma NumberedEnter(d: Deps, m: Marks, s: Symbol, rank: map<Symbol, nat>, next: nat)
    requires Numbered(d, m, rank, next) && s !in m.checked
    ensures Numbered(d, Enter(m, s), rank, next)
  {
  }

  lemma NumberedLeave(d: Deps, m: Marks, s: Symbol, rank: map<Symbol, nat>, next: nat)
    requires Numbered(d, m, rank, next) && s in m.check && s in m.checked && s in d
    requires m.reports == [] ==> forall b :: b in d[s] ==> b in rank
    ensures Numbered(d, Leave(m, s), rank[s := next], next + 1)
  {
    if m.reports == [] { RankedSnoc(d, rank, next, s); }
  }

  lemma TruthfulMet(d: Deps, m: Marks, s: Symbol)
    requires Stacked(d, m) && OnTop(d, m, s) && s in m.check && Truthful(d, m)
    ensures Truthful(d, m.(reports := m.reports + [s]))
  {
    var i :| 0 <= i < |m.stack| && m.stack[i] == s;
    PathCloses(d, m.stack, i);
  }

  lemma {:induction false} CheckDepsSound(d: Deps, s: Symbol, m: Marks, rank: map<Symbol, nat>, next: nat)
    returns (rank': map<Symbol, nat>, next': nat)
    requires Closed(d) && s in d && Stacked(d, m) && OnTop(d, m, s) && Truthful(d, m) && Numbered(d, m, rank, next)
    ensures var (r, n) := CheckDeps(d, s, m);
            && Truthful(d, n) && Numbered(d, n, rank', next')
            && (r.Some? ==> n.reports != [])
            && (n.reports == [] ==> s in rank')
    decreases d.Keys - m.checked, 0, 0
  {
    rank', next' := rank, next;
    if s in m.check {
      TruthfulMet(d, m, s);
    } else if s !in m.checked {
      StackedEnter(d, m, s);
      NumberedEnter(d, m, s, rank, next);
      CheckListBalanced(d, d[s], Enter(m, s));
      rank', next' := CheckListSound(d, d[s], Enter(m, s), rank, next);
      NumberedLeave(d, CheckList(d, d[s], Enter(m, s)).1, s, rank', next');
      rank', next' := rank'[s := next'], next' + 1;
    }
  }

  lemma {:induction false} CheckListSound(d: Deps, ss: seq<Symbol>, m: Marks, rank: map<Symbol, nat>, next: nat)
    returns (rank': map<Symbol, nat>, next': nat)
    requires Closed(d) && (forall b :: b in ss ==> b in d && OnTop(d, m, b))
    requires Stacked(d, m) && Truthful(d, m) && Numbered(d, m, rank, next)
    ensures var (r, n) := CheckList(d, ss, m);
            && Truthful(d, n) && Numbered(d, n, rank', next')
            && (r.Some? ==> n.reports != [])
            && (n.reports == [] ==> forall b :: b in ss ==> b in rank')
    decreases d.Keys - m.checked, 1, |ss|
  {
    rank', next' := rank, next;
    if ss != [] {
      var n := CheckDeps(d, ss[0], m).1;
      CheckDepsBalanced(d, ss[0], m);
      rank', next' := CheckDepsSound(d, ss[0], m, rank, next);
      if CheckDeps(d, ss[0], m).0.None? {
        CheckListBalanced(d, ss[1..], n);
        rank', next' := CheckListSound(d, ss[1..], n, rank', next');
      }
    }
  }

  // ----- the whole table -----

  /** `sym_check_deps` on every symbol of the table. */
  function CheckTable(d: Deps, syms: seq<Symbol>, m: Marks): (n: Marks)
    requires Closed(d) && forall s :: s in syms ==> s in d
    ensures m.checked <= n.checked
    decreases |syms|
  {
    if syms == [] then m else CheckTable(d, syms[1..], CheckDeps(d, syms[0], m).1)
  }

  predicate Clear(m: Marks) { m.check == {} && m.stack == [] }

  lemma {:induction false} CheckTableSound(d: Deps, syms: seq<Symbol>, m: Marks, rank: map<Symbol, nat>, next: nat)
    returns (rank': map<Symbol, nat>, next': nat)
    requires Closed(d) && (forall s :: s in syms ==> s in d)
    requires Clear(m) && Truthful(d, m) && Numbered(d, m, rank, next)
    ensures var n := CheckTable(d, syms, m);
            && Clear(n) && Truthful(d, n) && Numbered(d, n, rank', next')
            && m.reports <= n.reports && forall s :: s in syms ==> s in n.checked
    decreases |syms|
  {
    rank', next' := rank, next;
    if syms != [] {
      CheckDepsBalanced(d, syms[0], m);
      rank', next' := CheckDepsSound(d, syms[0], m, rank, next);
      rank', next' := CheckTableSound(d, syms[1..], CheckDeps(d, syms[0], m).1, rank', next');
    }
  }

  const CLEAR := Marks({}, {}, [], [])

  /** From clear flags, something is reported exactly when a checked symbol is on a cycle, every
      report names one that is, and marks and stack end clear. */
  lemma ReportsExactlyCycles(d: Deps, syms: seq<Symbol>)
    requires Closed(d) && forall s :: s in syms ==> s in d
    ensures var n := CheckTable(d, syms, CLEAR);
            && Clear(n) && (forall s :: s in n.reports ==> s in n.checked && OnCycle(d, s))
            && (n.reports != [] <==> exists s :: s in n.checked && OnCycle(d, s))
            && forall s :: s in syms ==> s in n.checked
  {
    var n := CheckTable(d, syms, CLEAR);
    var rank, next := CheckTableSound(d, syms, CLEAR, map[], 0);
    if n.reports == [] {
      forall s | s in n.checked ensures !OnCycle(d, s) {
        RankedAcyclic(d, rank, next, s);
      }
    } else {
      assert n.reports[0] in n.reports;
    }
  }

  /** Run over the whole table, it reports exactly when the dependencies have a cycle. */
  lemma WholeTable(d: Deps, syms: seq<Symbol>)
    requires Closed(d) && forall s :: s in syms <==> s in d
    ensures CheckTable(d, syms, CLEAR).reports != [] <==> exists s :: OnCycle(d, s)
  {
    ReportsExactlyCycles(d, syms);
    if exists s :: OnCycle(d, s) {
      var s :| OnCycle(d, s);
      var p :| IsCycle(d, s, p);
      assert Edge(d, p, 0);
    }
  }

  // ----- how often -----

  /** Nothing has been reported twice, and nothing that is still being checked. */
  predicate Fresh(m: Marks) {
    && NoDup(m.reports) && m.check <= m.checked
    && (forall s :: s in m.reports ==> s in m.checked) && forall s :: s in m.check ==> s !in m.reports
  }

  /** Of the symbols being checked only the result has been reported. */
  predicate OnlyResult(r: Option<Symbol>, n: Marks) {
    && NoDup(n.reports) && n.check <= n.checked && (forall s :: s in n.reports ==> s in n.checked)
    && forall s :: s in n.check && s in n.reports ==> r == Some(s)
  }

  lemma NoDupSnoc(a: seq<Symbol>, s: Symbol)
    requires NoDup(a) && s !in a
    ensures NoDup(a + [s])
  {
    forall i, j | 0 <= i < j < |a| + 1 ensures (a + [s])[i] != (a + [s])[j] {
      if j == |a| { assert (a + [s])[i] == a[i] && a[i] in a; }
    }
  }

  lemma {:induction false} CheckDepsOnce(d: Deps, s: Symbol, m: Marks)
    requires Closed(d) && s in d && Fresh(m)
    ensures var (r, n) := CheckDeps(d, s, m); OnlyResult(r, n)
    decreases d.Keys - m.checked, 0, 0
  {
    if s in m.check {
      NoDupSnoc(m.reports, s);
    } else if s !in m.checked {
      CheckListOnce(d, d[s], Enter(m, s));
      CheckListBalanced(d, d[s], Enter(m, s));
    }
  }

  lemma {:induction false} CheckListOnce(d: Deps, ss: seq<Symbol>, m: Marks)
    requires Closed(d) && (forall b :: b in ss ==> b in d) && Fresh(m)
    ensures var (r, n) := CheckList(d, ss, m); OnlyResult(r, n)
    decreases d.Keys - m.checked, 1, |ss|
  {
    if ss != [] {
      CheckDepsOnce(d, ss[0], m);
      if CheckDeps(d, ss[0], m).0.None? { CheckListOnce(d, ss[1..], CheckDeps(d, ss[0], m).1); }
    }
  }

  lemma {:induction false} CheckTableOnce(d: Deps, syms: seq<Symbol>, m: Marks)
    requires Closed(d) && (forall s :: s in syms ==> s in d) && Clear(m) && Fresh(m)
    ensures NoDup(CheckTable(d, syms, m).reports)
    decreases |syms|
  {
    if syms != [] {
      CheckDepsOnce(d, syms[0], m);
      CheckDepsBalanced(d, syms[0], m);
      CheckTableOnce(d, syms[1..], CheckDeps(d, syms[0], m).1);
    }
  }

  /** From clear flags, no symbol is reported twice: what is left of the check of a symbol that has been
      met again is skipped. */
  lemma ReportsOnce(d: Deps, syms: seq<Symbol>)
    requires Closed(d) && forall s :: s in syms ==> s in d
    ensures NoDup(CheckTable(d, syms, CLEAR).reports)
  {
    CheckTableOnce(d, syms, CLEAR);
  }

  /** The result never tells: from a clear stack it is always none, a cycle being dropped where it
      closes. Only the report shows it. */
  lemma ResultNeverTells(d: Deps, s: Symbol, m: Marks)
    requires Closed(d) && s in d && Clear(m)
    ensures CheckDeps(d, s, m).0 == None
  {
    ResultMarked(d, s, m);
  }

  /** A result is a symbol that was marked before. */
  lemma {:induction false} ResultMarked(d: Deps, s: Symbol, m: Marks)
    requires Closed(d) && s in d
    ensures var r := CheckDeps(d, s, m).0; r.Some? ==> r.value in m.check
    decreases d.Keys - m.checked, 0, 0
  {
    if s !in m.check && s !in m.checked { ListResultMarked(d, d[s], Enter(m, s)); }
  }

  lemma {:induction false} ListResultMarked(d: Deps, ss: seq<Symbol>, m: Marks)
    requires Closed(d) && forall b :: b in ss ==> b in d
    ensures var r := CheckList(d, ss, m).0; r.Some? ==> r.value in m.check
    decreases d.Keys - m.checked, 1, |ss|
  {
    if ss != [] {
      ResultMarked(d, ss[0], m);
      CheckDepsBalanced(d, ss[0], m);
      if CheckDeps(d, ss[0], m).0.None? { ListResultMarked(d, ss[1..], CheckDeps(d, ss[0], m).1); }
    }
  }
}
