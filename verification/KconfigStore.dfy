/** The passes of `expr.c` as they run: on a tree that is rewritten in place through the
    addresses of its cells (`struct expr **`), counting joins in `trans_count`.
    A cell is addressed by the way down to it from the root, so two addresses are the same
    cell exactly when they are equal. */
module KconfigStore {
  import opened KconfigExpr
  import opened KconfigEq
  import opened KconfigDupsPass

  datatype Side = Lft | Rgt

  type Loc = seq<Side>

  predicate HasLoc(e: Expr, p: Loc) {
    p == [] ||
    match e
    case Not(a) => p[0] == Lft && HasLoc(a, p[1..])
    case Op(_, l, r) => HasLoc(if p[0] == Lft then l else r, p[1..])
    case _ => false
  }

  function At(e: Expr, p: Loc): Expr
    requires HasLoc(e, p)
    decreases p
  {
    if p == [] then e
    else if e.Not? then At(e.arg, p[1..])
    else At(if p[0] == Lft then e.left else e.right, p[1..])
  }

  function Put(e: Expr, p: Loc, x: Expr): Expr
    requires HasLoc(e, p)
    decreases p
  {
    if p == [] then x
    else if e.Not? then Not(Put(e.arg, p[1..], x))
    else if p[0] == Lft then Op(e.gate, Put(e.left, p[1..], x), e.right)
    else Op(e.gate, e.left, Put(e.right, p[1..], x))
  }

  // ----- reading and writing cells -----

  lemma {:induction false} LocAppend(e: Expr, p: Loc, s: Loc)
    requires HasLoc(e, p)
    ensures HasLoc(e, p + s) <==> HasLoc(At(e, p), s)
    ensures HasLoc(e, p + s) ==> At(e, p + s) == At(At(e, p), s)
    ensures forall x :: HasLoc(e, p + s) ==> Put(e, p + s, x) == Put(e, p, Put(At(e, p), s, x))
    decreases p
  {
    if p == [] {
      assert p + s == s;
    } else {
      assert (p + s)[1..] == p[1..] + s && (p + s)[0] == p[0];
      LocAppend(if e.Not? then e.arg else if p[0] == Lft then e.left else e.right, p[1..], s);
    }
  }

  lemma {:induction false} PutSame(e: Expr, p: Loc, x: Expr)
    requires HasLoc(e, p)
    ensures HasLoc(Put(e, p, x), p) && At(Put(e, p, x), p) == x
    ensures forall y :: Put(Put(e, p, x), p, y) == Put(e, p, y)
    ensures Put(e, p, At(e, p)) == e
    decreases p
  {
    if p != [] {
      PutSame(if e.Not? then e.arg else if p[0] == Lft then e.left else e.right, p[1..], x);
    }
  }

  // ----- the operands of a gate, by address -----

  /** `s` leads from `t` through `g`-gates only. */
  predicate OnSpine(g: Gate, t: Expr, s: Loc) {
    s == [] || (IsGate(g, t) && OnSpine(g, if s[0] == Lft then t.left else t.right, s[1..]))
  }

  lemma {:induction false} OnSpineHasLoc(g: Gate, t: Expr, s: Loc)
    requires OnSpine(g, t, s)
    ensures HasLoc(t, s)
    decreases s
  {
    if s != [] { OnSpineHasLoc(g, if s[0] == Lft then t.left else t.right, s[1..]); }
  }

  /** How many operands lie to the left of `s`. */
  function Offset(g: Gate, t: Expr, s: Loc): nat
    requires OnSpine(g, t, s)
    decreases s
  {
    if s == [] then 0
    else if s[0] == Lft then Offset(g, t.left, s[1..])
    else |Leaves(g, t.left)| + Offset(g, t.right, s[1..])
  }

  function SubAt(g: Gate, t: Expr, s: Loc): Expr
    requires OnSpine(g, t, s)
  {
    OnSpineHasLoc(g, t, s);
    At(t, s)
  }

  /** The two halves of a gate on the spine. */
  lemma {:induction false} SpineChildren(g: Gate, t: Expr, s: Loc)
    requires OnSpine(g, t, s) && IsGate(g, SubAt(g, t, s))
    ensures OnSpine(g, t, s + [Lft]) && OnSpine(g, t, s + [Rgt])
    ensures SubAt(g, t, s + [Lft]) == SubAt(g, t, s).left && SubAt(g, t, s + [Rgt]) == SubAt(g, t, s).right
    ensures Offset(g, t, s + [Lft]) == Offset(g, t, s)
    ensures Offset(g, t, s + [Rgt]) == Offset(g, t, s) + |Leaves(g, SubAt(g, t, s).left)|
    decreases s
  {
    if s != [] {
      SpineChildren(g, if s[0] == Lft then t.left else t.right, s[1..]);
      assert (s + [Lft])[1..] == s[1..] + [Lft] && (s + [Rgt])[1..] == s[1..] + [Rgt];
    }
    OnSpineHasLoc(g, t, s);
    LocAppend(t, s, [Lft]);
    LocAppend(t, s, [Rgt]);
    assert At(SubAt(g, t, s), [Lft]) == SubAt(g, t, s).left && At(SubAt(g, t, s), [Rgt]) == SubAt(g, t, s).right;
  }

  /** Rebuilding over other operands moves none of the addresses. */
  lemma {:induction false} SpineOfRebuild(g: Gate, t: Expr, ls: seq<Expr>, s: Loc)
    requires OnSpine(g, t, s) && |ls| == |Leaves(g, t)|
    requires forall k :: 0 <= k < |ls| ==> !IsGate(g, ls[k])
    ensures var r := Rebuild(g, t, ls);
            && OnSpine(g, r, s) && Offset(g, r, s) == Offset(g, t, s)
            && (IsGate(g, SubAt(g, r, s)) <==> IsGate(g, SubAt(g, t, s)))
            && |Leaves(g, SubAt(g, r, s))| == |Leaves(g, SubAt(g, t, s))|
    decreases s
  {
    LeavesOfRebuild(g, t, ls);
    if s != [] {
      var n := |Leaves(g, t.left)|;
      LeavesOfRebuild(g, t.left, ls[..n]);
      if s[0] == Lft { SpineOfRebuild(g, t.left, ls[..n], s[1..]); }
      else { SpineOfRebuild(g, t.right, ls[n..], s[1..]); }
    }
  }

  /** Writing the cell of one operand. */
  lemma {:induction false} PutOperand(g: Gate, t: Expr, s: Loc, x: Expr)
    requires OnSpine(g, t, s) && !IsGate(g, SubAt(g, t, s))
    ensures HasLoc(t, s) && Offset(g, t, s) < |Leaves(g, t)|
    ensures Leaves(g, t)[Offset(g, t, s)] == SubAt(g, t, s)
    ensures Put(t, s, x) == Rebuild(g, t, Leaves(g, t)[Offset(g, t, s) := x])
    decreases s
  {
    OnSpineHasLoc(g, t, s);
    if s != [] {
      var l, r := Leaves(g, t.left), Leaves(g, t.right);
      var i := Offset(g, t, s);
      if s[0] == Lft {
        PutOperand(g, t.left, s[1..], x);
        assert (l + r)[i := x][..|l|] == l[i := x] && (l + r)[i := x][|l|..] == r;
        LeavesOfRebuild(g, t.right, r);
      } else {
        PutOperand(g, t.right, s[1..], x);
        assert (l + r)[i := x][..|l|] == l && (l + r)[i := x][|l|..] == r[i - |l| := x];
        LeavesOfRebuild(g, t.left, l);
      }
    }
  }

  /** Different operand cells have different positions. */
  lemma {:induction false} OffsetInjective(g: Gate, t: Expr, s1: Loc, s2: Loc)
    requires OnSpine(g, t, s1) && !IsGate(g, SubAt(g, t, s1))
    requires OnSpine(g, t, s2) && !IsGate(g, SubAt(g, t, s2))
    ensures s1 == s2 <==> Offset(g, t, s1) == Offset(g, t, s2)
    decreases s1
  {
    if s1 != [] && s2 != [] {
      var c1 := if s1[0] == Lft then t.left else t.right;
      PutOperand(g, c1, s1[1..], t);
      PutOperand(g, if s2[0] == Lft then t.left else t.right, s2[1..], t);
      if s1[0] == s2[0] {
        OffsetInjective(g, c1, s1[1..], s2[1..]);
        assert s1 == [s1[0]] + s1[1..] && s2 == [s2[0]] + s2[1..];
      }
    }
  }

  // ----- splitting the pass the way the pointers walk -----

  lemma {:induction false} RowSplit(g: Gate, ls: seq<Expr>, i: nat, c: nat, m: nat, d: nat)
    requires i < |ls| && c <= m <= d <= |ls| && OperandsOf(g, ls, ls)
    ensures var a := Row(g, ls, i, c, m);
            var b := Row(g, a.leaves, i, m, d);
            Row(g, ls, i, c, d) == Joined(b.leaves, a.count + b.count)
    decreases m - c
  {
    if c < m { RowSplit(g, Visit(g, ls, i, c).leaves, i, c + 1, m, d); }
  }

  lemma {:induction false} BlockSplit(g: Gate, ls: seq<Expr>, a: nat, m: nat, b: nat, c: nat, d: nat)
    requires a <= m <= b <= |ls| && c <= d <= |ls| && OperandsOf(g, ls, ls)
    ensures var x := Block(g, ls, a, m, c, d);
            var y := Block(g, x.leaves, m, b, c, d);
            Block(g, ls, a, b, c, d) == Joined(y.leaves, x.count + y.count)
    decreases m - a
  {
    if a < m { BlockSplit(g, Row(g, ls, a, c, d).leaves, a + 1, m, b, c, d); }
  }

  lemma BlockOneRow(g: Gate, ls: seq<Expr>, i: nat, c: nat, d: nat)
    requires i < |ls| && c <= d <= |ls| && OperandsOf(g, ls, ls)
    ensures Block(g, ls, i, i + 1, c, d) == Row(g, ls, i, c, d)
  {
    var v := Row(g, ls, i, c, d);
    assert Block(g, v.leaves, i + 1, i + 1, c, d) == Joined(v.leaves, 0);
  }

  lemma RowOneVisit(g: Gate, ls: seq<Expr>, i: nat, j: nat)
    requires i < |ls| && j < |ls| && OperandsOf(g, ls, ls)
    ensures Row(g, ls, i, j, j + 1) == Visit(g, ls, i, j)
  {
    var v := Visit(g, ls, i, j);
    assert Row(g, v.leaves, i, j + 1, j + 1) == Joined(v.leaves, 0);
  }

  lemma {:induction false} RebuildTwice(g: Gate, t: Expr, a: seq<Expr>, b: seq<Expr>)
    requires |a| == |Leaves(g, t)| == |b|
    requires forall k :: 0 <= k < |a| ==> !IsGate(g, a[k])
    ensures |Leaves(g, Rebuild(g, t, a))| == |a| && Rebuild(g, Rebuild(g, t, a), b) == Rebuild(g, t, b)
  {
    LeavesOfRebuild(g, t, a);
    if IsGate(g, t) {
      var n := |Leaves(g, t.left)|;
      LeavesOfRebuild(g, t.left, a[..n]);
      RebuildTwice(g, t.left, a[..n], b[..n]);
      RebuildTwice(g, t.right, a[n..], b[n..]);
    }
  }

  /** The whole tree while the operands of the gate at `q` are `ls`. */
  function TreeWith(root: Expr, q: Loc, g: Gate, ls: seq<Expr>): Expr
    requires HasLoc(root, q) && |ls| == |Leaves(g, At(root, q))|
  {
    Put(root, q, Rebuild(g, At(root, q), ls))
  }

  /** Reading and writing the cell of one operand while the operands are `ls`. */
  lemma CellOfOperand(root: Expr, q: Loc, g: Gate, ls: seq<Expr>, s: Loc, x: Expr)
    requires HasLoc(root, q) && |ls| == |Leaves(g, At(root, q))|
    requires forall k :: 0 <= k < |ls| ==> !IsGate(g, ls[k])
    requires OnSpine(g, At(root, q), s) && !IsGate(g, SubAt(g, At(root, q), s))
    ensures var r := TreeWith(root, q, g, ls);
            var i := Offset(g, At(root, q), s);
            && i < |ls| && HasLoc(r, q + s) && At(r, q + s) == ls[i]
            && Put(r, q + s, x) == TreeWith(root, q, g, ls[i := x])
  {
    var t := At(root, q);
    var t1 := Rebuild(g, t, ls);
    var i := Offset(g, t, s);
    PutSame(root, q, t1);
    SpineOfRebuild(g, t, ls, s);
    LeavesOfRebuild(g, t, ls);
    PutOperand(g, t, s, x);
    PutOperand(g, t1, s, x);
    LocAppend(TreeWith(root, q, g, ls), q, s);
    RebuildTwice(g, t, ls, ls[i := x]);
  }

  // ----- the pass, started from two cells -----

  /** How many operands lie to the left of the end of `s`. */
  function Upto(g: Gate, t: Expr, s: Loc): (n: nat)
    requires OnSpine(g, t, s)
    ensures Offset(g, t, s) <= n <= |Leaves(g, t)|
    decreases s
  {
    if s == [] then |Leaves(g, t)|
    else if s[0] == Lft then Upto(g, t.left, s[1..])
    else |Leaves(g, t.left)| + Upto(g, t.right, s[1..])
  }

  function Width(g: Gate, t: Expr, s: Loc): nat
    requires OnSpine(g, t, s)
  {
    Upto(g, t, s) - Offset(g, t, s)
  }

  lemma {:induction false} WidthIsLeaves(g: Gate, t: Expr, s: Loc)
    requires OnSpine(g, t, s)
    ensures Width(g, t, s) == |Leaves(g, SubAt(g, t, s))|
    decreases s
  {
    if s != [] { WidthIsLeaves(g, if s[0] == Lft then t.left else t.right, s[1..]); }
  }

  /** The part of the pass over `t` that compares the operands below `s1` with those below `s2`. */
  function PassBetween(g: Gate, t: Expr, s1: Loc, s2: Loc): (r: Joined)
    requires OnSpine(g, t, s1) && OnSpine(g, t, s2)
    ensures OperandsOf(g, Leaves(g, t), r.leaves)
  {
    Block(g, Leaves(g, t), Offset(g, t, s1), Upto(g, t, s1), Offset(g, t, s2), Upto(g, t, s2))
  }

  /** What stays the same about a spine after part of the pass. */
  lemma AfterPart(g: Gate, t: Expr, ls: seq<Expr>, s: Loc)
    requires IsGate(g, t) && OnSpine(g, t, s) && OperandsOf(g, Leaves(g, t), ls)
    ensures var t1 := Rebuild(g, t, ls);
            && IsGate(g, t1) && OnSpine(g, t1, s) && Leaves(g, t1) == ls
            && Offset(g, t1, s) == Offset(g, t, s) && Width(g, t1, s) == Width(g, t, s)
            && Size(t1) <= Size(t)
  {
    LeavesOfRebuild(g, t, ls);
    SizeOfRebuild(g, t, ls);
    SpineOfRebuild(g, t, ls, s);
    WidthIsLeaves(g, t, s);
    WidthIsLeaves(g, Rebuild(g, t, ls), s);
  }

  /** The operands below `s` are those from `i` up to `e`. */
  predicate Spans(g: Gate, t: Expr, s: Loc, i: nat, e: nat) {
    OnSpine(g, t, s) && Offset(g, t, s) == i && Upto(g, t, s) == e
  }

  lemma HalvesSpan(g: Gate, t: Expr, s: Loc) returns (k: nat)
    requires OnSpine(g, t, s) && IsGate(g, SubAt(g, t, s))
    ensures var i, e := Offset(g, t, s), Upto(g, t, s);
            i < k < e && Spans(g, t, s + [Lft], i, k) && Spans(g, t, s + [Rgt], k, e)
  {
    SpineChildren(g, t, s);
    WidthIsLeaves(g, t, s);
    WidthIsLeaves(g, t, s + [Lft]);
    WidthIsLeaves(g, t, s + [Rgt]);
    k := Offset(g, t, s + [Rgt]);
  }

  /** Part of the pass, then the rest on what it left, is the pass `whole`. */
  predicate Composes(g: Gate, t: Expr, a: Joined, b: Joined, whole: Joined) {
    && |a.leaves| == |b.leaves| == |Leaves(g, t)|
    && |Leaves(g, Rebuild(g, t, a.leaves))| == |Leaves(g, t)|
    && Rebuild(g, Rebuild(g, t, a.leaves), b.leaves) == Rebuild(g, t, b.leaves)
    && whole == Joined(b.leaves, a.count + b.count)
  }

  lemma ComposesIntro(g: Gate, t: Expr, a: Joined, b: Joined, whole: Joined)
    requires OperandsOf(g, Leaves(g, t), a.leaves) && |b.leaves| == |a.leaves|
    requires whole == Joined(b.leaves, a.count + b.count)
    ensures Composes(g, t, a, b, whole)
  {
    RebuildTwice(g, t, a.leaves, b.leaves);
  }

  /** What a walker may rely on between the two halves. */
  predicate Resumes(g: Gate, t: Expr, t1: Expr, s: Loc, other: Loc) {
    && IsGate(g, t1) && Size(t1) <= Size(t)
    && OnSpine(g, t1, s) && OnSpine(g, t1, other) && OnSpine(g, t, s) && OnSpine(g, t, other)
    && Width(g, t1, s) == Width(g, t, s) && Width(g, t1, other) == Width(g, t, other)
  }

  lemma ResumesIntro(g: Gate, t: Expr, ls: seq<Expr>, s: Loc, other: Loc)
    requires IsGate(g, t) && OperandsOf(g, Leaves(g, t), ls) && OnSpine(g, t, s) && OnSpine(g, t, other)
    ensures Resumes(g, t, Rebuild(g, t, ls), s, other)
    ensures var t1 := Rebuild(g, t, ls);
            Leaves(g, t1) == ls && Offset(g, t1, s) == Offset(g, t, s) && Offset(g, t1, other) == Offset(g, t, other)
  {
    AfterPart(g, t, ls, s);
    AfterPart(g, t, ls, other);
  }

  lemma SpanAfterPart(g: Gate, t: Expr, ls: seq<Expr>, s: Loc)
    requires IsGate(g, t) && OnSpine(g, t, s) && OperandsOf(g, Leaves(g, t), ls)
    ensures var t1 := Rebuild(g, t, ls);
            && OnSpine(g, t1, s) && Leaves(g, t1) == ls && OperandsOf(g, ls, ls)
            && Offset(g, t1, s) == Offset(g, t, s) && Upto(g, t1, s) == Upto(g, t, s) <= |ls|
  {
    AfterPart(g, t, ls, s);
  }

  /** The rest of the pass, on what the first part left. */
  lemma ResumedPass(g: Gate, t: Expr, ls: seq<Expr>, s1: Loc, s2: Loc)
    requires IsGate(g, t) && OperandsOf(g, Leaves(g, t), ls) && OnSpine(g, t, s1) && OnSpine(g, t, s2)
    ensures var t1 := Rebuild(g, t, ls);
            && OnSpine(g, t1, s1) && OnSpine(g, t1, s2)
            && OperandsOf(g, ls, ls) && Upto(g, t, s1) <= |ls| && Upto(g, t, s2) <= |ls|
            && PassBetween(g, t1, s1, s2)
               == Block(g, ls, Offset(g, t, s1), Upto(g, t, s1), Offset(g, t, s2), Upto(g, t, s2))
  {
    SpanAfterPart(g, t, ls, s1);
    SpanAfterPart(g, t, ls, s2);
  }

  /** The pass from a gate on the first side: left half, then right half. */
  lemma SplitFirst(g: Gate, t: Expr, s1: Loc, s2: Loc)
    requires IsGate(g, t) && OnSpine(g, t, s1) && OnSpine(g, t, s2) && IsGate(g, SubAt(g, t, s1))
    ensures OnSpine(g, t, s1 + [Lft]) && Width(g, t, s1 + [Lft]) < Width(g, t, s1)
    ensures OnSpine(g, t, s1 + [Rgt]) && Width(g, t, s1 + [Rgt]) < Width(g, t, s1)
    ensures var a := PassBetween(g, t, s1 + [Lft], s2);
            var t1 := Rebuild(g, t, a.leaves);
            && Resumes(g, t, t1, s1 + [Rgt], s2)
            && Composes(g, t, a, PassBetween(g, t1, s1 + [Rgt], s2), PassBetween(g, t, s1, s2))
  {
    var k := HalvesSpan(g, t, s1);
    BlockSplit(g, Leaves(g, t), Offset(g, t, s1), k, Upto(g, t, s1), Offset(g, t, s2), Upto(g, t, s2));
    var a := PassBetween(g, t, s1 + [Lft], s2);
    ResumesIntro(g, t, a.leaves, s1 + [Rgt], s2);
    ResumedPass(g, t, a.leaves, s1 + [Rgt], s2);
    ComposesIntro(g, t, a, PassBetween(g, Rebuild(g, t, a.leaves), s1 + [Rgt], s2), PassBetween(g, t, s1, s2));
  }

  lemma OneRowSplit(g: Gate, ls: seq<Expr>, i: nat, c: nat, m: nat, d: nat)
    requires i < |ls| && c <= m <= d <= |ls| && OperandsOf(g, ls, ls)
    ensures var a := Block(g, ls, i, i + 1, c, m);
            var b := Block(g, a.leaves, i, i + 1, m, d);
            Block(g, ls, i, i + 1, c, d) == Joined(b.leaves, a.count + b.count)
  {
    BlockOneRow(g, ls, i, c, m);
    BlockOneRow(g, Row(g, ls, i, c, m).leaves, i, m, d);
    BlockOneRow(g, ls, i, c, d);
    RowSplit(g, ls, i, c, m, d);
  }

  /** From one operand against a gate on the second side: left half, then right half. */
  lemma SplitSecond(g: Gate, t: Expr, s1: Loc, s2: Loc)
    requires IsGate(g, t) && OnSpine(g, t, s1) && OnSpine(g, t, s2)
    requires !IsGate(g, SubAt(g, t, s1)) && IsGate(g, SubAt(g, t, s2))
    ensures OnSpine(g, t, s2 + [Lft]) && Width(g, t, s2 + [Lft]) < Width(g, t, s2)
    ensures OnSpine(g, t, s2 + [Rgt]) && Width(g, t, s2 + [Rgt]) < Width(g, t, s2)
    ensures var a := PassBetween(g, t, s1, s2 + [Lft]);
            var t1 := Rebuild(g, t, a.leaves);
            && Resumes(g, t, t1, s2 + [Rgt], s1)
            && Composes(g, t, a, PassBetween(g, t1, s1, s2 + [Rgt]), PassBetween(g, t, s1, s2))
  {
    var k := HalvesSpan(g, t, s2);
    WidthIsLeaves(g, t, s1);
    OneRowSplit(g, Leaves(g, t), Offset(g, t, s1), Offset(g, t, s2), k, Upto(g, t, s2));
    var a := PassBetween(g, t, s1, s2 + [Lft]);
    ResumesIntro(g, t, a.leaves, s2 + [Rgt], s1);
    ResumedPass(g, t, a.leaves, s1, s2 + [Rgt]);
    ComposesIntro(g, t, a, PassBetween(g, Rebuild(g, t, a.leaves), s1, s2 + [Rgt]), PassBetween(g, t, s1, s2));
  }

  lemma OperandSpan(g: Gate, t: Expr, s: Loc)
    requires OnSpine(g, t, s) && !IsGate(g, SubAt(g, t, s))
    ensures Upto(g, t, s) == Offset(g, t, s) + 1 && Offset(g, t, s) < |Leaves(g, t)|
  {
    WidthIsLeaves(g, t, s);
  }

  lemma PassOfOne(g: Gate, t: Expr, s1: Loc, s2: Loc)
    requires OnSpine(g, t, s1) && OnSpine(g, t, s2)
    requires Upto(g, t, s1) == Offset(g, t, s1) + 1 && Upto(g, t, s2) == Offset(g, t, s2) + 1
    ensures PassBetween(g, t, s1, s2) == Visit(g, Leaves(g, t), Offset(g, t, s1), Offset(g, t, s2))
  {
    OneVisit(g, Leaves(g, t), Offset(g, t, s1), Offset(g, t, s2));
  }

  /** Between two operands the pass is a single visit. */
  lemma SplitDone(g: Gate, t: Expr, s1: Loc, s2: Loc)
    requires OnSpine(g, t, s1) && OnSpine(g, t, s2)
    requires !IsGate(g, SubAt(g, t, s1)) && !IsGate(g, SubAt(g, t, s2))
    ensures Offset(g, t, s1) < |Leaves(g, t)| && Offset(g, t, s2) < |Leaves(g, t)|
    ensures PassBetween(g, t, s1, s2) == Visit(g, Leaves(g, t), Offset(g, t, s1), Offset(g, t, s2))
  {
    OperandSpan(g, t, s1);
    OperandSpan(g, t, s2);
    PassOfOne(g, t, s1, s2);
  }

  lemma OneVisit(g: Gate, ls: seq<Expr>, i: nat, j: nat)
    requires i < |ls| && j < |ls| && OperandsOf(g, ls, ls)
    ensures Block(g, ls, i, i + 1, j, j + 1) == Visit(g, ls, i, j)
  {
    BlockOneRow(g, ls, i, j, j + 1);
    RowOneVisit(g, ls, i, j);
  }
}
