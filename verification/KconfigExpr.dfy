/** Kconfig expressions and their three-valued meaning (`kconf/expr.h`, `expr_calc_value`). */
module KconfigExpr {
  import opened Wrappers

  datatype Tristate = No | Mod | Yes

  function Rank(t: Tristate): nat {
    match t case No => 0 case Mod => 1 case Yes => 2
  }

  function AndT(a: Tristate, b: Tristate): Tristate { if Rank(a) < Rank(b) then a else b }

  function OrT(a: Tristate, b: Tristate): Tristate { if Rank(a) > Rank(b) then a else b }

  function NotT(a: Tristate): Tristate {
    match a case No => Yes case Mod => Mod case Yes => No
  }

  predicate Leq(a: Tristate, b: Tristate) { Rank(a) <= Rank(b) }

  datatype SymbolKind = KUnknown | KBoolean | KTristate | KInt | KHex | KString | KOther

  /** Constants are interned by their text, so two constants are the same symbol
      exactly when they have the same text; every other symbol has its own identity. */
  datatype Symbol =
    | Const(name: string)
    | Var(id: nat, varKind: SymbolKind)
  {
    function Kind(): SymbolKind { if Const? then KUnknown else varKind }
    predicate IsTristateLike() { Kind() == KBoolean || Kind() == KTristate }
  }

  const SYMBOL_YES := Const("y")
  const SYMBOL_MOD := Const("m")
  const SYMBOL_NO := Const("n")

  predicate IsYmn(s: Symbol) { s == SYMBOL_YES || s == SYMBOL_MOD || s == SYMBOL_NO }

  datatype Relation = Equal | Unequal | Less | LessEq | Greater | GreaterEq

  datatype Gate = Conj | Disj

  datatype Expr =
    | Sym(sym: Symbol)
    | Not(arg: Expr)
    | Op(gate: Gate, left: Expr, right: Expr)
    | Compare(rel: Relation, lhs: Symbol, rhs: Symbol)

  function Size(e: Expr): (n: nat)
    ensures n >= 1
  {
    match e
    case Sym(_) => 1
    case Not(a) => 1 + Size(a)
    case Op(_, l, r) => 1 + Size(l) + Size(r)
    case Compare(_, _, _) => 1
  }

  /** What the symbols currently hold: tristate values, string values, the value of the
      `modules` symbol, and the outcome of the C library's number parser, `None` where it
      does not accept the whole string. */
  datatype Env = Env(
    tri: Symbol -> Tristate,
    text: Symbol -> string,
    modules: Tristate,
    number: (string, nat) -> Option<int>)

  /** `curr.tri` after `sym_calc_value`: only boolean and tristate symbols hold anything but `no`. */
  function Tri(env: Env, s: Symbol): Tristate {
    match s
    case Const(name) => if name == "y" then Yes else if name == "m" then Mod else No
    case Var(_, _) => if s.IsTristateLike() then env.tri(s) else No
  }

  /** `sym_get_string_value`. */
  function Text(env: Env, s: Symbol): string {
    match s
    case Const(name) => name
    case Var(_, _) =>
      if s.IsTristateLike() then
        match env.tri(s)
        case No => "n"
        case Mod => if env.modules == No then "n" else "m"
        case Yes => "y"
      else env.text(s)
  }

  /** What `sym_calc_value` keeps: a boolean symbol never holds `mod`, and no symbol does
      while modules are off. */
  ghost predicate Wf(env: Env) {
    forall s: Symbol {:trigger env.tri(s)} ::
      env.tri(s) == Mod ==> s.Kind() != KBoolean && env.modules != No
  }

  datatype Parsed = AsString | Signed(value: int) | Unsigned(value: int) | Invalid

  predicate IsHexDigit(c: char) { '0' <= c <= '9' || 'a' <= c <= 'f' || 'A' <= c <= 'F' }

  /** The parser's answer, accepted only when the string ends in a hexadecimal digit. */
  function Number(env: Env, str: string, base: nat): Option<int> {
    if str != "" && IsHexDigit(str[|str| - 1]) then env.number(str, base) else None
  }

  /** `expr_parse_string`. */
  function Parse(env: Env, str: string, kind: SymbolKind): Parsed {
    if kind == KBoolean || kind == KTristate then AsString
    else if kind == KOther then Invalid
    else
      var base := if kind == KInt then 10 else if kind == KHex then 16 else 0;
      match Number(env, str, base)
      case None => AsString
      case Some(v) => if kind == KHex then Unsigned(v) else Signed(v)
  }

  const TWO64 := 0x1_0000_0000_0000_0000

  /** The sign of `strcmp`. */
  function StrCmp(a: string, b: string): int {
    if a == [] && b == [] then 0
    else if a == [] then -1
    else if b == [] then 1
    else if a[0] < b[0] then -1
    else if a[0] > b[0] then 1
    else StrCmp(a[1..], b[1..])
  }

  function IntCmp(a: int, b: int): int { if a < b then -1 else if a > b then 1 else 0 }

  /** The three-way comparison of two symbols, `None` where they cannot be ordered. */
  function Order(env: Env, rel: Relation, a: Symbol, b: Symbol): Option<int> {
    var sa, sb := Text(env, a), Text(env, b);
    var both := a.Kind() == KString && b.Kind() == KString;
    var ka := if both then AsString else Parse(env, sa, a.Kind());
    var kb := if both then AsString else Parse(env, sb, b.Kind());
    if ka.AsString? || kb.AsString? then Some(StrCmp(sa, sb))
    else if ka.Invalid? || kb.Invalid? then
      if rel == Equal || rel == Unequal then Some(StrCmp(sa, sb)) else None
    else if ka.Unsigned? || kb.Unsigned? then Some(IntCmp(ka.value % TWO64, kb.value % TWO64))
    else Some(IntCmp(ka.value, kb.value))
  }

  function CompareValue(env: Env, rel: Relation, a: Symbol, b: Symbol): Tristate {
    match Order(env, rel, a, b)
    case None => No
    case Some(res) =>
      var holds :=
        match rel
        case Equal => res == 0
        case Unequal => res != 0
        case Less => res < 0
        case LessEq => res <= 0
        case Greater => res > 0
        case GreaterEq => res >= 0;
      if holds then Yes else No
  }

  function Apply(g: Gate, a: Tristate, b: Tristate): Tristate {
    match g case Conj => AndT(a, b) case Disj => OrT(a, b)
  }

  /** `expr_calc_value`. */
  function Value(env: Env, e: Expr): Tristate {
    match e
    case Sym(s) => Tri(env, s)
    case Not(a) => NotT(Value(env, a))
    case Op(g, l, r) => Apply(g, Value(env, l), Value(env, r))
    case Compare(rel, a, b) => CompareValue(env, rel, a, b)
  }

  /** A null expression means `y`. */
  function ValueOpt(env: Env, e: Option<Expr>): Tristate {
    match e case None => Yes case Some(x) => Value(env, x)
  }

  function Neutral(g: Gate): Expr { match g case Conj => Sym(SYMBOL_YES) case Disj => Sym(SYMBOL_NO) }

  function Absorbing(g: Gate): Expr { match g case Conj => Sym(SYMBOL_NO) case Disj => Sym(SYMBOL_YES) }

  lemma {:induction false} StrCmpZero(a: string, b: string)
    ensures StrCmp(a, b) == 0 <==> a == b
  {
    if a != [] && b != [] {
      StrCmpZero(a[1..], b[1..]);
      assert a == [a[0]] + a[1..] && b == [b[0]] + b[1..];
    }
  }

  /** A symbol with a tristate meaning: boolean, tristate, or one of `y`, `m`, `n`. */
  predicate HasTristate(s: Symbol) { s.IsTristateLike() || IsYmn(s) }

  /** Testing such a symbol against `y`, `m` or `n` tests its tristate value. */
  lemma CompareYmn(env: Env, rel: Relation, a: Symbol, b: Symbol)
    requires Wf(env) && HasTristate(a) && IsYmn(b)
    requires rel == Equal || rel == Unequal
    ensures CompareValue(env, rel, a, b) ==
            if (Tri(env, a) == Tri(env, b)) == (rel == Equal) then Yes else No
  {
    StrCmpZero(Text(env, a), Text(env, b));
  }

  /** A boolean or tristate symbol is compared as a string, whatever stands on the right. */
  lemma CompareText(env: Env, rel: Relation, a: Symbol, b: Symbol)
    requires a.IsTristateLike() && (rel == Equal || rel == Unequal)
    ensures CompareValue(env, rel, a, b) ==
            if (Text(env, a) == Text(env, b)) == (rel == Equal) then Yes else No
  {
    StrCmpZero(Text(env, a), Text(env, b));
  }
}
