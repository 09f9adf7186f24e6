/** Netlink attributes, policies, and the checks on one attribute that do not recurse. */
module NlaPolicy {
  import opened Bytes

  const HDRLEN: nat := 4
  const EINVAL: int := -22
  const ERANGE: int := -34

  /** The strictness flags. */
  datatype Flags = Flags(trailing: bool, maxtype: bool, unspec: bool, strictAttrs: bool, nested: bool)

  const STRICT := Flags(true, true, true, true, true)

  predicate AtMost(f: Flags, g: Flags) {
    && (f.trailing ==> g.trailing) && (f.maxtype ==> g.maxtype) && (f.unspec ==> g.unspec)
    && (f.strictAttrs ==> g.strictAttrs) && (f.nested ==> g.nested)
  }

  datatype Kind =
    | Unspec | U8 | U16 | U32 | U64 | Str | Flag | Msecs | Nested | NestedArray | NulString | Binary
    | S8 | S16 | S32 | S64 | Bitfield32 | Refused | ExactLen | ExactLenWarn | MinLen

  datatype Check = NoCheck | Range | Min | Max | Function

  /** What the union of a policy entry holds. */
  datatype Extra =
    | Nothing
    | Policy(index: nat)
    | Mask(bits: bv32)
    | Bounds(min: int, max: int)
    | Callback(id: nat)
    | StrictStart(from: nat)

  datatype Entry = Entry(kind: Kind, check: Check, len: nat, extra: Extra)

  function StrictFrom(e: Entry): nat { if e.extra.StrictStart? then e.extra.from else 0 }

  /** An attribute in the stream: the offset of its header, its type field and its payload. */
  datatype Attr = Attr(at: nat, field: nat, payload: seq<byte>)

  /** The type without the two flag bits on top. */
  function Type(a: Attr): nat { a.field % 0x4000 }

  predicate NestedFlag(a: Attr) { a.field / 0x8000 % 2 == 1 }

  // ----- fixed lengths -----

  /** The exact length of a kind, 0 where any will do. */
  function FixedLen(k: Kind): nat {
    match k
    case U8 => 1 case U16 => 2 case U32 => 4 case U64 => 8
    case S8 => 1 case S16 => 2 case S32 => 4 case S64 => 8
    case _ => 0
  }

  function MinimumLen(k: Kind): nat {
    match k
    case Msecs => 8
    case Nested => HDRLEN
    case _ => FixedLen(k)
  }

  // ----- integers -----

  function Signed(n: nat, bits: nat): int
    requires bits in {0x80, 0x8000, 0x8000_0000, 0x8000_0000_0000_0000}
  {
    if n < bits then n else n - 2 * bits
  }

  /** The number in the first octets of a payload, which are there. */
  function Number(p: seq<byte>, n: nat): nat
    requires n <= |p|
  {
    LittleEndian(p[..n])
  }

  /** The value of an integer attribute, for the kinds that have one. */
  function IntValue(k: Kind, p: seq<byte>): (v: int)
    requires FixedLen(k) > 0 && FixedLen(k) <= |p|
  {
    var n := Number(p, FixedLen(k));
    match k
    case S8 => Signed(n, 0x80)
    case S16 => Signed(n, 0x8000)
    case S32 => Signed(n, 0x8000_0000)
    case S64 => Signed(n, 0x8000_0000_0000_0000)
    case _ => n
  }

  function AsU64(x: int): nat { x % 0x1_0000_0000_0000_0000 }

  function LowBound(e: Entry): int { if e.extra.Bounds? then e.extra.min else 0 }
  function HighBound(e: Entry): int { if e.extra.Bounds? then e.extra.max else 0 }

  /** `nla_validate_int_range`: the bounds are signed 16-bit numbers, and against an unsigned 64-bit
      value they are converted to one. */
  function IntRange(e: Entry, p: seq<byte>): int {
    if FixedLen(e.kind) == 0 then EINVAL
    else if FixedLen(e.kind) > |p| then ERANGE
    else
      var v := IntValue(e.kind, p);
      var lo := if e.kind == U64 then AsU64(LowBound(e)) else LowBound(e);
      var hi := if e.kind == U64 then AsU64(HighBound(e)) else HighBound(e);
      if (e.check == Range || e.check == Min) && v < lo then ERANGE
      else if (e.check == Range || e.check == Max) && v > hi then ERANGE
      else 0
  }

  /** What the bounds are meant to say. */
  predicate InBounds(e: Entry, v: int) {
    && (e.check == Range || e.check == Min ==> LowBound(e) <= v)
    && (e.check == Range || e.check == Max ==> v <= HighBound(e))
  }

  // ----- where the bounds mean what they say -----

  /** The bounds are stored in 16 bits. */
  predicate Short(e: Entry) { -0x8000 <= LowBound(e) < 0x8000 && -0x8000 <= HighBound(e) < 0x8000 }

  /** On an unsigned 64-bit attribute a negative bound that the check reads is right only for the
      values that it treats alike before and after its conversion. */
  predicate RightFor(e: Entry, v: int) {
    e.kind == U64 ==>
      match e.check
      case Min => LowBound(e) >= 0 || v >= AsU64(LowBound(e))
      case Max => HighBound(e) >= 0 || v > AsU64(HighBound(e))
      case Range =>
        if HighBound(e) >= 0 then LowBound(e) >= 0 || v > HighBound(e)
        else v < AsU64(LowBound(e)) || v > AsU64(HighBound(e))
      case _ => true
  }

  lemma Converted(b: int)
    requires -0x8000 <= b < 0x8000
    ensures AsU64(b) == if b < 0 then 0x1_0000_0000_0000_0000 + b else b
  {
  }

  /** The check agrees with the bounds on a value exactly when `RightFor` says so. */
  lemma IntRangeExact(e: Entry, p: seq<byte>)
    requires 0 < FixedLen(e.kind) <= |p| && Short(e)
    ensures (IntRange(e, p) == 0 <==> InBounds(e, IntValue(e.kind, p))) <==> RightFor(e, IntValue(e.kind, p))
  {
    if e.kind == U64 {
      Converted(LowBound(e));
      Converted(HighBound(e));
    }
  }

  /** A negative lower bound turns all small values away, though every one is in bounds. */
  lemma NegativeLowBound(e: Entry, p: seq<byte>)
    requires e.kind == U64 && e.check == Min && -0x8000 <= LowBound(e) < 0 && 8 <= |p|
    requires IntValue(U64, p) < 0x1_0000_0000_0000_0000 + LowBound(e)
    ensures InBounds(e, IntValue(U64, p)) && IntRange(e, p) == ERANGE
  {
    Converted(LowBound(e));
  }

  /** A negative upper bound lets almost all values pass, though none is in bounds. */
  lemma NegativeHighBound(e: Entry, p: seq<byte>)
    requires e.kind == U64 && e.check == Max && -0x8000 <= HighBound(e) < 0 && 8 <= |p|
    requires IntValue(U64, p) <= 0x1_0000_0000_0000_0000 + HighBound(e)
    ensures !InBounds(e, IntValue(U64, p)) && IntRange(e, p) == 0
  {
    Converted(HighBound(e));
  }

  /** The policies whose bounds mean what they say for every value. The last one lets nothing pass,
      by its bounds and by the check. */
  predicate RightPolicy(e: Entry) {
    e.kind == U64 ==>
      match e.check
      case Min => LowBound(e) >= 0
      case Max => HighBound(e) >= 0
      case Range => (LowBound(e) >= 0 && HighBound(e) >= 0) || HighBound(e) < LowBound(e) < 0
      case _ => true
  }

  ghost predicate AlwaysRight(e: Entry)
    requires FixedLen(e.kind) > 0
  {
    forall p: seq<byte> :: FixedLen(e.kind) <= |p| ==> (IntRange(e, p) == 0 <==> InBounds(e, IntValue(e.kind, p)))
  }

  /** A value on which a wrong policy goes wrong. */
  function WrongValue(e: Entry): nat {
    if e.check == Min || HighBound(e) >= 0 then 0 else AsU64(HighBound(e))
  }

  /** A policy entry treats every payload as its bounds ask if and only if `RightPolicy` holds. */
  lemma IntPolicyExact(e: Entry)
    requires 0 < FixedLen(e.kind) && Short(e)
    ensures AlwaysRight(e) <==> RightPolicy(e)
  {
    if e.kind == U64 {
      Converted(LowBound(e));
      Converted(HighBound(e));
    }
    if RightPolicy(e) {
      forall p: seq<byte> | FixedLen(e.kind) <= |p|
        ensures IntRange(e, p) == 0 <==> InBounds(e, IntValue(e.kind, p))
      {
        IntRangeExact(e, p);
      }
    } else {
      var p := Spelled(WrongValue(e), 8);
      SpelledRight(WrongValue(e), 8);
      assert p[..8] == p;
      assert IntValue(e.kind, p) == WrongValue(e);
      IntRangeExact(e, p);
    }
  }
}
