/** What the relations between two symbols mean. */
module KconfigOrder {
  import opened KconfigExpr
  import opened Wrappers

  // ----- texts -----

  /** `a` comes before `b` in a dictionary: they are the same up to a place where `a` ends or has the lesser
      character. */
  ghost predicate Before(a: string, b: string) { exists k :: BeforeAt(a, b, k) }

  predicate BeforeAt(a: string, b: string, k: nat) { k <= |a| && k < |b| && a[..k] == b[..k] && (k == |a| || a[k] < b[k]) }

  lemma BeforeTail(a: string, b: string, k: nat)
    requires a != [] && b != [] && a[0] == b[0]
    ensures BeforeAt(a, b, k + 1) <==> BeforeAt(a[1..], b[1..], k)
  {
    if k + 1 <= |a| && k + 1 < |b| {
      assert a[..k + 1] == [a[0]] + a[1..][..k] && b[..k + 1] == [b[0]] + b[1..][..k];
      if a[..k + 1] == b[..k + 1] { assert a[1..][..k] == a[..k + 1][1..] && b[1..][..k] == b[..k + 1][1..]; }
    }
  }

  lemma BeforeHead(a: string, b: string, k: nat)
    requires BeforeAt(a, b, k) && a != []
    ensures b != [] && a[0] <= b[0]
  {
    if k > 0 { assert a[..k][0] == b[..k][0]; }
  }

  lemma {:induction false} StrCmpLess(a: string, b: string)
    ensures StrCmp(a, b) < 0 <==> Before(a, b)
  {
    if a != [] && b != [] && a[0] == b[0] {
      StrCmpLess(a[1..], b[1..]);
      if k: nat :| BeforeAt(a[1..], b[1..], k) { BeforeTail(a, b, k); }
      if k: nat :| BeforeAt(a, b, k) {
        assert k != 0;
        BeforeTail(a, b, k - 1);
      }
    } else if StrCmp(a, b) < 0 {
      assert BeforeAt(a, b, 0);
    } else {
      forall k: nat | BeforeAt(a, b, k) ensures false { BeforeHead(a, b, k); }
    }
  }

  lemma {:induction false} StrCmpTurned(a: string, b: string)
    ensures StrCmp(b, a) == -StrCmp(a, b)
  {
    if a != [] && b != [] { StrCmpTurned(a[1..], b[1..]); }
  }

  // ----- relations -----

  predicate Holds(env: Env, a: Symbol, rel: Relation, b: Symbol) { CompareValue(env, rel, a, b) == Yes }

  /** Of two symbols that can be ordered exactly one of `<`, `=` and `>` holds, and the other relations are
      made of these. Of two that cannot, none of the four orders does. */
  lemma Trichotomy(env: Env, a: Symbol, b: Symbol)
    ensures Order(env, Less, a, b) != None ==>
              && (Holds(env, a, Less, b) || Holds(env, a, Equal, b) || Holds(env, a, Greater, b))
              && !(Holds(env, a, Less, b) && Holds(env, a, Equal, b)) && !(Holds(env, a, Less, b) && Holds(env, a, Greater, b))
              && !(Holds(env, a, Equal, b) && Holds(env, a, Greater, b))
              && (Holds(env, a, LessEq, b) <==> Holds(env, a, Less, b) || Holds(env, a, Equal, b))
              && (Holds(env, a, GreaterEq, b) <==> Holds(env, a, Greater, b) || Holds(env, a, Equal, b))
    ensures Order(env, Less, a, b) == None ==>
              forall rel :: rel != Equal && rel != Unequal ==> CompareValue(env, rel, a, b) == No
    ensures Holds(env, a, Unequal, b) <==> !Holds(env, a, Equal, b)
  {
  }

  /** A symbol compared as a number: the one its text spells in the base of its kind. */
  function NumberOf(env: Env, s: Symbol): Option<int> {
    match s.Kind()
    case KInt => Number(env, Text(env, s), 10)
    case KHex => Number(env, Text(env, s), 16)
    case KString => Number(env, Text(env, s), 0)
    case KUnknown => Number(env, Text(env, s), 0)
    case _ => None
  }

  /** Two symbols that both spell a number, not both of them strings, are compared by it, as 64-bit
      numbers without a sign if one is hexadecimal. */
  lemma NumbersCompare(env: Env, a: Symbol, b: Symbol)
    requires NumberOf(env, a).Some? && NumberOf(env, b).Some? && !(a.Kind() == KString && b.Kind() == KString)
    ensures var hex, x, y := a.Kind() == KHex || b.Kind() == KHex, NumberOf(env, a).value, NumberOf(env, b).value;
            && (Holds(env, a, Less, b) <==> if hex then x % TWO64 < y % TWO64 else x < y)
            && (Holds(env, a, Equal, b) <==> if hex then x % TWO64 == y % TWO64 else x == y)
  {
  }

  /** Two of which one spells no number are compared as texts, unless one is of the type `S_OTHER`. */
  lemma TextsCompare(env: Env, a: Symbol, b: Symbol)
    requires a.Kind() != KOther && b.Kind() != KOther
    requires NumberOf(env, a) == None || NumberOf(env, b) == None || (a.Kind() == KString && b.Kind() == KString)
    ensures Holds(env, a, Less, b) <==> Before(Text(env, a), Text(env, b))
    ensures Holds(env, a, Equal, b) <==> Text(env, a) == Text(env, b)
  {
    StrCmpLess(Text(env, a), Text(env, b));
    StrCmpZero(Text(env, a), Text(env, b));
  }
}
