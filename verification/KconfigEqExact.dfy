/** Exactly what `expr_eq` recognises, and what `expr_eliminate_eq` leaves: operands of ANDs and ORs
    count in any order and grouping, at every depth. */
module KconfigEqExact {
  import opened KconfigExpr
  import opened KconfigRewrite
  import opened KconfigEq
  import opened KconfigStore

  // ----- the form of an expression -----

  /** An expression without order and grouping. */
  datatype Form = Plain(e: Expr) | Negation(arg: Form) | Joined(gate: Gate, parts: multiset<Form>)

  function FormOf(e: Expr): Form
    decreases e, 1
  {
    match e
    case Not(a) => Negation(FormOf(a))
    case Op(g, _, _) => Joined(g, Parts(g, e))
    case _ => Plain(e)
  }

  /** The forms of the operands of `g`, neutral constants aside. */
  function Parts(g: Gate, e: Expr): multiset<Form>
    decreases e, if IsGate(g, e) then 0 else 2
  {
    if IsGate(g, e) then Parts(g, e.left) + Parts(g, e.right)
    else if e == Neutral(g) then multiset{}
    else multiset{FormOf(e)}
  }

  predicate IsYn(e: Expr) { e == Sym(SYMBOL_YES) || e == Sym(SYMBOL_NO) }

  /** No operand is `y` or `n`, at any depth. */
  predicate Clean(e: Expr) {
    match e
    case Not(a) => Clean(a)
    case Op(_, l, r) => !IsYn(l) && !IsYn(r) && Clean(l) && Clean(r)
    case _ => true
  }

  /** The same, but for neutral operands of `g` at the top. */
  predicate Level(g: Gate, e: Expr) {
    if IsGate(g, e) then Level(g, e.left) && Level(g, e.right) else e == Neutral(g) || (Clean(e) && !IsYn(e))
  }

  predicate Fit(e: Expr) { if e.Op? then Level(e.gate, e) else Clean(e) }

  lemma {:induction false} CleanIsLevel(g: Gate, e: Expr)
    requires Clean(e) && !IsYn(e)
    ensures Level(g, e) && Fit(e)
    decreases e, if IsGate(g, e) then 0 else 1
  {
    if e.Op? {
      if e.gate == g {
        CleanIsLevel(g, e.left);
        CleanIsLevel(g, e.right);
      } else {
        CleanIsLevel(e.gate, e);
      }
    }
  }

  lemma {:induction false} CleanIsYnFree(e: Expr)
    requires Clean(e)
    ensures EliminateYn(e) == e
  {
    if e.Op? {
      CleanIsYnFree(e.left);
      CleanIsYnFree(e.right);
    }
  }

  // ----- taking away -----

  lemma TakeInTwoSteps(a: multiset<Form>, b: multiset<Form>, c: multiset<Form>)
    ensures (a - b) - c == a - (b + c)
    ensures (b - a) + (c - (a - b)) == (b + c) - a
  {
  }

  /** `r` is what is left of two sides when each gives up what the other has. */
  predicate Subtracts(g: Gate, e1: Expr, e2: Expr, r: (Expr, Expr)) {
    && Level(g, r.0) && Level(g, r.1)
    && Parts(g, r.0) == Parts(g, e1) - Parts(g, e2)
    && Parts(g, r.1) == Parts(g, e2) - Parts(g, e1)
  }

  lemma PartsOfGate(g: Gate, l: Expr, r: Expr)
    ensures Parts(g, Op(g, l, r)) == Parts(g, l) + Parts(g, r)
    ensures Level(g, Op(g, l, r)) <==> Level(g, l) && Level(g, r)
  {
  }

  lemma SubtractsLeft(g: Gate, l: Expr, r: Expr, e2: Expr, a: (Expr, Expr), b: (Expr, Expr))
    requires Subtracts(g, l, e2, a) && Subtracts(g, r, a.1, b)
    ensures Subtracts(g, Op(g, l, r), e2, (Op(g, a.0, b.0), b.1))
  {
    var x, y, z := Parts(g, e2), Parts(g, l), Parts(g, r);
    PartsOfGate(g, l, r);
    PartsOfGate(g, a.0, b.0);
    TakeInTwoSteps(x, y, z);
    assert Parts(g, Op(g, a.0, b.0)) == (y - x) + (z - (x - y));
  }

  lemma SubtractsRight(g: Gate, e1: Expr, l: Expr, r: Expr, a: (Expr, Expr), b: (Expr, Expr))
    requires Subtracts(g, e1, l, a) && Subtracts(g, a.0, r, b)
    ensures Subtracts(g, e1, Op(g, l, r), (b.0, Op(g, a.1, b.1)))
  {
    var x, y, z := Parts(g, e1), Parts(g, l), Parts(g, r);
    PartsOfGate(g, l, r);
    PartsOfGate(g, a.1, b.1);
    TakeInTwoSteps(x, y, z);
    assert Parts(g, Op(g, a.1, b.1)) == (y - x) + (z - (x - y));
  }

  lemma EqPairLeftGate(g: Gate, e1: Expr, e2: Expr)
    requires IsGate(g, e1) && Subtracts(g, e1.left, e2, EqPair(g, e1.left, e2))
    requires var a := EqPair(g, e1.left, e2); Subtracts(g, e1.right, a.1, EqPair(g, e1.right, a.1))
    ensures Subtracts(g, e1, e2, EqPair(g, e1, e2))
  {
    var a := EqPair(g, e1.left, e2);
    SubtractsLeft(g, e1.left, e1.right, e2, a, EqPair(g, e1.right, a.1));
  }

  lemma EqPairRightGate(g: Gate, e1: Expr, e2: Expr)
    requires !IsGate(g, e1) && IsGate(g, e2) && Subtracts(g, e1, e2.left, EqPair(g, e1, e2.left))
    requires var a := EqPair(g, e1, e2.left); Subtracts(g, a.0, e2.right, EqPair(g, a.0, e2.right))
    ensures Subtracts(g, e1, e2, EqPair(g, e1, e2))
  {
    var a := EqPair(g, e1, e2.left);
    SubtractsRight(g, e1, e2.left, e2.right, a, EqPair(g, a.0, e2.right));
  }

  lemma LeafParts(g: Gate, e: Expr)
    requires !IsGate(g, e)
    ensures Parts(g, e) == if e == Neutral(g) then multiset{} else multiset{FormOf(e)}
  {
  }

  lemma OneFromOne(a: Form, b: Form)
    ensures a != b ==> multiset{a} - multiset{b} == multiset{a}
    ensures multiset{a} - multiset{a} == multiset{}
  {
  }

  lemma NeutralStays(g: Gate, e1: Expr, e2: Expr)
    requires !IsGate(g, e1) && !IsGate(g, e2) && (e1 == Neutral(g) || e2 == Neutral(g))
    ensures EqPair(g, e1, e2) == (e1, e2)
  {
  }

  /** Two operands: both go if they are equal, and neutral constants stay. */
  lemma EqPairLeaves(g: Gate, e1: Expr, e2: Expr, r: (Expr, Expr))
    requires Level(g, e1) && Level(g, e2) && !IsGate(g, e1) && !IsGate(g, e2)
    requires r == if e1 != Neutral(g) && e2 != Neutral(g) && FormOf(e1) == FormOf(e2)
                  then (Neutral(g), Neutral(g)) else (e1, e2)
    ensures Subtracts(g, e1, e2, r)
  {
    LeafParts(g, e1);
    LeafParts(g, e2);
    LeafParts(g, Neutral(g));
    OneFromOne(FormOf(e1), FormOf(e2));
  }

  /** `__expr_eliminate_eq` takes from each side what the other side has, counting repetitions. */
  lemma {:induction false} EqPairSubtracts(g: Gate, e1: Expr, e2: Expr)
    requires Level(g, e1) && Level(g, e2)
    ensures Subtracts(g, e1, e2, EqPair(g, e1, e2))
    decreases Size(e1) + Size(e2), if IsGate(g, e1) || IsGate(g, e2) then 0 else 4
  {
    if IsGate(g, e1) {
      EqPairSubtracts(g, e1.left, e2);
      EqPairSubtracts(g, e1.right, EqPair(g, e1.left, e2).1);
      EqPairLeftGate(g, e1, e2);
    } else if IsGate(g, e2) {
      EqPairSubtracts(g, e1, e2.left);
      EqPairSubtracts(g, EqPair(g, e1, e2.left).0, e2.right);
      EqPairRightGate(g, e1, e2);
    } else {
      if e1 == Neutral(g) || e2 == Neutral(g) { NeutralStays(g, e1, e2); } else { OperandsEq(g, e1, e2); }
      EqPairLeaves(g, e1, e2, EqPair(g, e1, e2));
    }
  }

  lemma {:induction false} OperandsEq(g: Gate, e1: Expr, e2: Expr)
    requires Clean(e1) && Clean(e2) && !IsYn(e1) && !IsYn(e2)
    ensures ExprEq(e1, e2) <==> FormOf(e1) == FormOf(e2)
    ensures !IsGate(g, e1) && !IsGate(g, e2) ==>
              EqPair(g, e1, e2) == if FormOf(e1) == FormOf(e2) then (Neutral(g), Neutral(g)) else (e1, e2)
    decreases Size(e1) + Size(e2), 3
  {
    CleanIsLevel(g, e1);
    CleanIsLevel(g, e2);
    ExprEqExact(e1, e2);
  }

  lemma NoParts(a: multiset<Form>, b: multiset<Form>)
    ensures a + b == multiset{} <==> a == multiset{} && b == multiset{}
  {
    forall x | a + b == multiset{} ensures a[x] == 0 && b[x] == 0 { assert (a + b)[x] == 0; }
  }

  lemma AbsorbLevel(g: Gate, l: Expr, r: Expr)
    requires Level(g, l) && Level(g, r)
    requires l == Neutral(g) <==> Parts(g, l) == multiset{}
    requires r == Neutral(g) <==> Parts(g, r) == multiset{}
    ensures var e := Absorb(g, l, r);
            && Level(g, e) && Parts(g, e) == Parts(g, l) + Parts(g, r)
            && (e == Neutral(g) <==> Parts(g, l) + Parts(g, r) == multiset{})
  {
    PartsOfGate(g, l, r);
    NoParts(Parts(g, l), Parts(g, r));
  }

  /** `expr_eliminate_yn` takes the neutral constants away and nothing else. */
  lemma {:induction false} EliminateYnLevel(g: Gate, e: Expr)
    requires Level(g, e)
    ensures var r := EliminateYn(e); Level(g, r) && Parts(g, r) == Parts(g, e)
    ensures EliminateYn(e) == Neutral(g) <==> Parts(g, e) == multiset{}
  {
    if IsGate(g, e) {
      EliminateYnLevel(g, e.left);
      EliminateYnLevel(g, e.right);
      AbsorbLevel(g, EliminateYn(e.left), EliminateYn(e.right));
    } else {
      if e != Neutral(g) { CleanIsYnFree(e); }
      LeafParts(g, e);
    }
  }

  lemma SameDifference(a: multiset<Form>, b: multiset<Form>)
    requires a - b == b - a
    ensures a == b
  {
    forall x ensures a[x] == b[x] {
      assert (a - b)[x] == (b - a)[x];
    }
  }

  // ----- expr_eq -----

  lemma {:induction false} GatesEq(g: Gate, e1: Expr, e2: Expr)
    requires IsGate(g, e1) && IsGate(g, e2) && Level(g, e1) && Level(g, e2)
    ensures ExprEq(e1, e2) <==> Parts(g, e1) == Parts(g, e2)
    decreases Size(e1) + Size(e2), 1
  {
    var p := EqPair(g, e1, e2);
    EqPairSubtracts(g, e1, e2);
    EliminateYnLevel(g, p.0);
    EliminateYnLevel(g, p.1);
    var o1, o2 := Parts(g, e1), Parts(g, e2);
    assert EqBothGates(e1, e2) == p;
    var r := EliminateEq(e1, e2);
    if o1 == o2 {
      assert o1 - o2 == multiset{} && o2 - o1 == multiset{};
    } else if r.0.Sym? && r.0 == r.1 {
      SameDifference(o1, o2);
    }
  }

  /** Expressions are equal for `expr_eq` exactly when they have the same form: the operands of every
      AND and OR, at any depth and below negations, may stand in any order and grouping. */
  lemma {:induction false} ExprEqExact(e1: Expr, e2: Expr)
    requires Fit(e1) && Fit(e2)
    ensures ExprEq(e1, e2) <==> FormOf(e1) == FormOf(e2)
    decreases Size(e1) + Size(e2), 2
  {
    if e1.Not? && e2.Not? {
      NegationFits(e1);
      NegationFits(e2);
      ExprEqExact(e1.arg, e2.arg);
    } else if e1.Op? && IsGate(e1.gate, e2) {
      GatesEq(e1.gate, e1, e2);
    }
  }

  lemma NegationFits(e: Expr)
    requires e.Not? && Fit(e)
    ensures Fit(e.arg)
  {
    if !IsYn(e.arg) { CleanIsLevel(Conj, e.arg); }
  }

  // ----- the same form -----

  /** What an expression is as an operand of `g`, by its form. */
  function PartsOfForm(g: Gate, f: Form): multiset<Form> {
    if f.Joined? && f.gate == g then f.parts else if f == Plain(Neutral(g)) then multiset{} else multiset{f}
  }

  lemma PartsByForm(g: Gate, e: Expr)
    ensures Parts(g, e) == PartsOfForm(g, FormOf(e))
  {
  }

  lemma {:induction false} SameFormPut(e: Expr, p: Loc, x: Expr)
    requires HasLoc(e, p) && FormOf(At(e, p)) == FormOf(x)
    ensures FormOf(Put(e, p, x)) == FormOf(e)
    decreases p
  {
    if p != [] {
      if e.Not? {
        SameFormPut(e.arg, p[1..], x);
      } else {
        var side := if p[0] == Lft then e.left else e.right;
        SameFormPut(side, p[1..], x);
        PartsByForm(e.gate, side);
        PartsByForm(e.gate, Put(side, p[1..], x));
      }
    }
  }

  /** Wherever a part is replaced by one of the same form, the whole stays equal. */
  lemma ReplacedEqual(e: Expr, p: Loc, x: Expr)
    requires HasLoc(e, p) && FormOf(At(e, p)) == FormOf(x) && Fit(e) && Fit(Put(e, p, x))
    ensures ExprEq(e, Put(e, p, x))
  {
    SameFormPut(e, p, x);
    ExprEqExact(e, Put(e, p, x));
  }

  /** The two sides of a gate, the other way round. */
  function Swapped(e: Expr): Expr
    requires e.Op?
  {
    Op(e.gate, e.right, e.left)
  }

  lemma {:induction false} SwappedClean(e: Expr, p: Loc)
    requires HasLoc(e, p) && At(e, p).Op? && Clean(e)
    ensures Clean(Put(e, p, Swapped(At(e, p)))) && (IsYn(Put(e, p, Swapped(At(e, p)))) <==> IsYn(e))
    decreases p
  {
    if p != [] {
      SwappedClean(if e.Not? then e.arg else if p[0] == Lft then e.left else e.right, p[1..]);
    }
  }

  /** So swapping the sides of any gate at any depth gives an equal expression. */
  lemma SwappedEqual(e: Expr, p: Loc)
    requires HasLoc(e, p) && At(e, p).Op? && Clean(e)
    ensures ExprEq(e, Put(e, p, Swapped(At(e, p))))
  {
    var x := Swapped(At(e, p));
    SwappedClean(e, p);
    if e.Op? { CleanIsLevel(e.gate, e); }
    if Put(e, p, x).Op? { CleanIsLevel(e.gate, Put(e, p, x)); }
    PartsOfGate(x.gate, x.left, x.right);
    ReplacedEqual(e, p, x);
  }

  // ----- expr_eliminate_eq -----

  /** An operand that is not there: nothing is taken. */
  lemma {:induction false} EqPairAbsent(g: Gate, e1: Expr, e2: Expr)
    requires Level(g, e1) && !IsGate(g, e2) && Clean(e2) && !IsYn(e2) && FormOf(e2) !in Parts(g, e1)
    ensures EqPair(g, e1, e2) == (e1, e2)
  {
    if IsGate(g, e1) {
      EqPairAbsent(g, e1.left, e2);
      EqPairAbsent(g, e1.right, e2);
    } else {
      if e1 == Neutral(g) { NeutralStays(g, e1, e2); } else { OperandsEq(g, e1, e2); }
    }
  }

  /** The gate whose operands are compared: that of the first side, unless it has none or the second, of
      another gate, is not among its operands. */
  function GateUsed(e1: Expr, e2: Expr): Gate
    requires e1.Op? || e2.Op?
  {
    if e1.Op? && (!e2.Op? || e2.gate == e1.gate || FormOf(e2) in Parts(e1.gate, e1)) then e1.gate else e2.gate
  }

  lemma EqBothGatesExact(e1: Expr, e2: Expr)
    requires Clean(e1) && Clean(e2) && !IsYn(e1) && !IsYn(e2) && (e1.Op? || e2.Op?)
    ensures EqBothGates(e1, e2) == EqPair(GateUsed(e1, e2), e1, e2)
  {
    if e1.Op? {
      var p := EqPair(e1.gate, e1, e2);
      CleanIsLevel(e1.gate, e1);
      CleanIsLevel(e1.gate, e2);
      if e2.Op? && e2.gate != e1.gate {
        if FormOf(e2) in Parts(e1.gate, e1) {
          EqPairSubtracts(e1.gate, e1, e2);
          LeafParts(e1.gate, e2);
          assert Parts(e1.gate, p.1) == multiset{};
          EqPairOther(e1.gate, e1, e2);
        } else {
          EqPairAbsent(e1.gate, e1, e2);
        }
      } else if !e2.Op? {
        EqPairOther(e1.gate, e1, e2);
      }
    }
  }

  /** A side that is no gate stays whole or becomes the neutral constant. */
  lemma {:induction false} EqPairOther(g: Gate, e1: Expr, e2: Expr)
    requires !IsGate(g, e2)
    ensures EqPair(g, e1, e2).1 == e2 || EqPair(g, e1, e2).1 == Neutral(g)
    decreases e1
  {
    if IsGate(g, e1) {
      EqPairOther(g, e1.left, e2);
      EqPairOther(g, e1.right, EqPair(g, e1.left, e2).1);
    }
  }

  /** What `expr_eliminate_eq` leaves of two expressions: if neither is an AND or OR both stay,
      otherwise each loses the operands the other has. */
  lemma EliminateEqExact(e1: Expr, e2: Expr)
    requires Clean(e1) && Clean(e2) && !IsYn(e1) && !IsYn(e2)
    ensures !e1.Op? && !e2.Op? ==> EliminateEq(e1, e2) == (e1, e2)
    ensures e1.Op? || e2.Op? ==> Subtracts(GateUsed(e1, e2), e1, e2, EliminateEq(e1, e2))
    ensures forall g :: (e1.Op? || e2.Op?) && g == GateUsed(e1, e2) ==>
              (EliminateEq(e1, e2).1 == Neutral(g) <==> Parts(g, e2) <= Parts(g, e1))
  {
    if e1.Op? || e2.Op? {
      var g := GateUsed(e1, e2);
      EqBothGatesExact(e1, e2);
      var p := EqPair(g, e1, e2);
      CleanIsLevel(g, e1);
      CleanIsLevel(g, e2);
      EqPairSubtracts(g, e1, e2);
      EliminateYnLevel(g, p.0);
      EliminateYnLevel(g, p.1);
      NothingLeft(Parts(g, e2), Parts(g, e1));
    }
  }

  lemma NothingLeft(a: multiset<Form>, b: multiset<Form>)
    ensures a - b == multiset{} <==> a <= b
  {
    if a - b == multiset{} {
      forall x ensures a[x] <= b[x] { assert (a - b)[x] == 0; }
    }
  }

  lemma {:induction false} GateHasParts(g: Gate, e: Expr)
    requires Clean(e) && !IsYn(e)
    ensures |Parts(g, e)| >= if IsGate(g, e) then 2 else 1
  {
    if IsGate(g, e) {
      GateHasParts(g, e.left);
      GateHasParts(g, e.right);
    }
  }

  /** The second side becomes `y` exactly if it is, or if the first is an AND with all its operands. */
  lemma EliminateEqYes(e1: Expr, e2: Expr)
    requires Clean(e1) && Clean(e2) && !IsYn(e1) && !IsYn(e2)
    ensures EliminateEq(e1, e2).1 == Sym(SYMBOL_YES) <==> IsGate(Conj, e1) && Parts(Conj, e2) <= Parts(Conj, e1)
  {
    EliminateEqExact(e1, e2);
    if e1.Op? || e2.Op? {
      var g := GateUsed(e1, e2);
      var r := EliminateEq(e1, e2);
      assert g == Disj ==> r.1 != Sym(SYMBOL_YES);
      if !IsGate(Conj, e1) && g == Conj {
        GateHasParts(Conj, e2);
        LeafParts(Conj, e1);
        if Parts(Conj, e2) <= Parts(Conj, e1) { FewerParts(Parts(Conj, e2), Parts(Conj, e1)); }
      }
      if IsGate(Conj, e1) && g == Disj { LeafParts(Conj, e2); }
    }
  }

  lemma FewerParts(a: multiset<Form>, b: multiset<Form>)
    requires a <= b
    ensures |a| <= |b|
  {
    assert b == a + (b - a);
  }

  /** Also with a constant on either side. */
  lemma {:induction false} EqPairConstant(g: Gate, e: Expr, c: Expr)
    requires IsYn(c) && Clean(e)
    ensures EqPair(g, e, c) == (e, c) && EqPair(g, c, e) == (c, e)
    decreases e
  {
    if IsGate(g, e) {
      EqPairConstant(g, e.left, c);
      EqPairConstant(g, e.right, c);
    }
  }

  /** The case of one constant side: nothing is taken. */
  lemma EliminateEqConstant(e: Expr, c: Expr)
    requires IsYn(c) && Clean(e)
    ensures EliminateEq(e, c) == (e, c) && EliminateEq(c, e) == (c, e)
  {
    if e.Op? { EqPairConstant(e.gate, e, c); }
    CleanIsYnFree(e);
    CleanIsYnFree(c);
  }
}
