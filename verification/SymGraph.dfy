/** Which symbols the value of a symbol is computed from, in the order `sym_check_deps` follows
    them, and cycles among them. */
module SymGraph {
  import opened KconfigExpr
  import opened Wrappers

  datatype PropKind = PPrompt | PComment | PMenu | PDefault | PChoice | PSelect | PImply | PRange | PEnv | PSymbol

  datatype Prop = Prop(kind: PropKind, visible: Option<Expr>, value: Option<Expr>)

  /** A symbol that is neither a choice nor one of its values. */
  datatype Info = Info(revDep: Option<Expr>, props: seq<Prop>)

  function ExprSyms(e: Expr): seq<Symbol> {
    match e
    case Sym(s) => [s]
    case Not(a) => ExprSyms(a)
    case Op(_, l, r) => ExprSyms(l) + ExprSyms(r)
    case Compare(_, a, b) => [a, b]
  }

  function OptSyms(e: Option<Expr>): seq<Symbol> { if e.Some? then ExprSyms(e.value) else [] }

  /** A selection counts from the selected symbol, as its reverse dependency. */
  function PropSyms(p: Prop): seq<Symbol> {
    if p.kind == PChoice || p.kind == PSelect then []
    else OptSyms(p.visible) + if p.kind == PDefault then OptSyms(p.value) else []
  }

  function PropsSyms(props: seq<Prop>): seq<Symbol> {
    if props == [] then [] else PropSyms(props[0]) + PropsSyms(props[1..])
  }

  function DepsOf(info: Info): seq<Symbol> { OptSyms(info.revDep) + PropsSyms(info.props) }

  // ----- dependency graphs -----

  type Deps = map<Symbol, seq<Symbol>>

  predicate Closed(d: Deps) { forall a, b :: a in d && b in d[a] ==> b in d }

  predicate Depends(d: Deps, a: Symbol, b: Symbol) { a in d && b in d[a] }

  predicate Edge(d: Deps, p: seq<Symbol>, i: nat)
    requires i + 1 < |p|
  {
    Depends(d, p[i], p[i + 1])
  }

  predicate IsPath(d: Deps, p: seq<Symbol>) { forall i :: 0 <= i < |p| - 1 ==> Edge(d, p, i) }

  predicate IsCycle(d: Deps, s: Symbol, p: seq<Symbol>) {
    |p| >= 2 && IsPath(d, p) && p[0] == s == p[|p| - 1]
  }

  ghost predicate OnCycle(d: Deps, s: Symbol) { exists p :: IsCycle(d, s, p) }

  /** A path whose end depends on one of its symbols has a cycle there. */
  lemma PathCloses(d: Deps, p: seq<Symbol>, i: nat)
    requires IsPath(d, p) && i < |p| && Depends(d, p[|p| - 1], p[i])
    ensures OnCycle(d, p[i])
  {
    var c := p[i..] + [p[i]];
    forall k | 0 <= k < |c| - 1 ensures Edge(d, c, k) {
      assert c[k] == p[i + k];
      if k + 1 < |c| - 1 { assert Edge(d, p, i + k); }
    }
    assert IsCycle(d, p[i], c);
  }

  lemma PathSnoc(d: Deps, p: seq<Symbol>, s: Symbol)
    requires IsPath(d, p) && (p != [] ==> Depends(d, p[|p| - 1], s))
    ensures IsPath(d, p + [s])
  {
    var more := p + [s];
    forall i | 0 <= i < |more| - 1 ensures Edge(d, more, i) {
      if i < |p| - 1 { assert Edge(d, p, i); }
    }
  }

  // ----- numberings -----

  /** Every numbered symbol depends on symbols numbered lower only. */
  predicate Ranked(d: Deps, rank: map<Symbol, nat>, next: nat) {
    forall a :: a in rank ==> RankedAt(d, rank, next, a)
  }

  predicate RankedAt(d: Deps, rank: map<Symbol, nat>, next: nat, a: Symbol)
    requires a in rank
  {
    a in d && rank[a] < next && forall b :: b in d[a] ==> b in rank && rank[b] < rank[a]
  }

  lemma RankedSnoc(d: Deps, rank: map<Symbol, nat>, next: nat, s: Symbol)
    requires Ranked(d, rank, next) && s !in rank && s in d && forall b :: b in d[s] ==> b in rank
    ensures Ranked(d, rank[s := next], next + 1)
  {
    var more := rank[s := next];
    forall a | a in more ensures RankedAt(d, more, next + 1, a) {
      if a != s { assert RankedAt(d, rank, next, a); }
      forall b | b in d[a] ensures b in more && more[b] < more[a] {
        assert b in rank && RankedAt(d, rank, next, b);
      }
    }
  }

  /** Every path goes down in the numbering. */
  lemma {:induction false} Descends(d: Deps, rank: map<Symbol, nat>, next: nat, p: seq<Symbol>)
    requires Ranked(d, rank, next) && |p| >= 2 && IsPath(d, p) && p[0] in rank
    ensures p[|p| - 1] in rank && rank[p[|p| - 1]] < rank[p[0]]
    decreases |p|
  {
    assert Edge(d, p, 0) && RankedAt(d, rank, next, p[0]);
    if |p| > 2 {
      var q := p[1..];
      forall j | 0 <= j < |q| - 1 ensures Edge(d, q, j) {
        assert Edge(d, p, j + 1);
      }
      Descends(d, rank, next, q);
    }
  }

  /** So no numbered symbol is on a cycle. */
  lemma RankedAcyclic(d: Deps, rank: map<Symbol, nat>, next: nat, s: Symbol)
    requires Ranked(d, rank, next) && s in rank
    ensures !OnCycle(d, s)
  {
    if OnCycle(d, s) {
      var p :| IsCycle(d, s, p);
      Descends(d, rank, next, p);
    }
  }
}
