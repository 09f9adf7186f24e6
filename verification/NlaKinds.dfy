/** Which attributes are accepted, kind by kind. */
module NlaKinds {
  import opened Bytes
  import opened NlaBitfield
  import opened NlaPolicy
  import opened NlaValidate
  import opened NlaParse
  import opened Wrappers

  /** How many octets an integer of a kind has. */
  predicate IsInteger(k: Kind, n: nat) {
    (k in {U8, S8} && n == 1) || (k in {U16, S16} && n == 2) || (k in {U32, S32} && n == 4) || (k in {U64, S64} && n == 8)
  }

  /** The length a kind asks for at least, where the policy gives none. */
  predicate AtLeast(k: Kind, n: nat) {
    IsInteger(k, n) || (k == Msecs && n == 8) || (k == ExactLenWarn && n == 0)
  }

  predicate Selects(mask: bv32, value: bv32, selector: bv32) { selector & !mask == 0 && value & !selector == 0 }

  lemma BitsSelect(mask: bv32, value: bv32, selector: bv32)
    ensures BitfieldOk(mask, value, selector) <==> Selects(mask, value, selector)
  {
    BitfieldExact(mask, value, selector);
  }

  /** The fields select nothing outside the mask and set nothing they do not select. */
  predicate AllowsBits(e: Entry, p: seq<byte>) {
    |p| == 8 && e.extra.Mask? && Selects(e.extra.bits, Word(p[..4]), Word(p[4..]))
  }

  /** A text that ends in time. */
  predicate AllowsEnded(e: Entry, p: seq<byte>) {
    && (exists i :: 0 <= i < |p| && p[i] == 0 && (e.len != 0 ==> i <= e.len))
    && (e.len != 0 ==> |Text(p)| <= e.len)
  }

  ghost predicate AllowsLength(e: Entry, n: nat) {
    if e.len != 0 then n >= e.len else exists m :: AtLeast(e.kind, m) && n >= m
  }

  /** The payload is one a policy entry of its kind allows. */
  ghost predicate Allows(e: Entry, p: seq<byte>, unspec: bool) {
    match e.kind
    case Refused => false
    case Flag => p == []
    case ExactLen => |p| == e.len
    case MinLen => |p| >= e.len
    case Unspec => !unspec && |p| >= e.len
    case Binary => e.len != 0 ==> |p| <= e.len
    case Str => p != [] && (e.len != 0 ==> |Text(p)| <= e.len)
    case NulString => AllowsEnded(e, p)
    case Bitfield32 => AllowsBits(e, p)
    case Nested => p == [] || |p| >= 4
    case NestedArray => p == [] || |p| >= 4
    case _ => AllowsLength(e, |p|)
  }

  lemma MinimumExact(k: Kind, n: nat)
    requires AtLeast(k, n)
    ensures MinimumLen(k) == n
  {
  }

  lemma MinimumThere(k: Kind)
    requires k in {U8, S8, U16, S16, U32, S32, U64, S64, Msecs, ExactLenWarn}
    ensures AtLeast(k, MinimumLen(k))
  {
  }

  lemma LengthExact(e: Entry, n: nat)
    requires e.kind in {U8, S8, U16, S16, U32, S32, U64, S64, Msecs, ExactLenWarn}
    ensures n >= (if e.len != 0 then e.len else MinimumLen(e.kind)) <==> AllowsLength(e, n)
  {
    MinimumThere(e.kind);
    if m :| AtLeast(e.kind, m) && n >= m { MinimumExact(e.kind, m); }
  }

  lemma BitsExact(e: Entry, p: seq<byte>)
    ensures BitfieldCheck(e, p) == 0 <==> AllowsBits(e, p)
  {
    if |p| == 8 && e.extra.Mask? { BitsSelect(e.extra.bits, Word(p[..4]), Word(p[4..])); }
  }

  /** The checks of a kind pass exactly the payloads it allows. */
  lemma FlatExact(e: Entry, p: seq<byte>, flags: Flags)
    ensures FlatCheck(e, p, flags) == 0 <==> Allows(e, p, flags.unspec)
  {
    if e.kind == Str {
      StringExact(e, p);
    } else if e.kind == NulString {
      NulStringExact(e, p);
    } else if e.kind == Bitfield32 {
      BitsExact(e, p);
    } else if e.kind in {U8, S8, U16, S16, U32, S32, U64, S64, Msecs, ExactLenWarn} {
      LengthExact(e, |p|);
    }
  }

  /** Under the strict flag an integer has just the octets it needs, and a length given is kept to. */
  ghost predicate KeepsLength(e: Entry, n: nat) {
    (forall m :: IsInteger(e.kind, m) ==> n == m) && (e.kind == ExactLenWarn ==> n == e.len)
  }

  /** Under the flag for nesting, what is nested says so and nothing else does. */
  predicate KeepsNesting(k: Kind, field: nat) {
    && (k in {Nested, NestedArray} ==> field / 0x8000 % 2 == 1)
    && (k !in {Nested, NestedArray, Unspec} ==> field / 0x8000 % 2 == 0)
  }

  lemma StrictExact(e: Entry, a: Attr)
    ensures !BadLength(e, |a.payload|) <==> KeepsLength(e, |a.payload|)
    ensures !BadNesting(e, a) <==> KeepsNesting(e.kind, a.field)
  {
    assert IsInteger(e.kind, FixedLen(e.kind)) <==> FixedLen(e.kind) != 0;
  }

  /** All checks apply, those asked for and from a strict start type on every one. */
  function InForce(e0: Entry, t: nat, flags: Flags): Flags {
    if e0.extra.StrictStart? && e0.extra.from != 0 && t >= e0.extra.from then STRICT else flags
  }

  /** An attribute of a type that the policy has an entry for is accepted if and only if its length and its
      nesting flag are right where that is asked for, its payload is one the kind allows, what is nested in
      it is accepted, and so is its value. Any other attribute is accepted. */
  lemma AcceptedExact(c: Config, a: Attr, maxtype: nat, policy: nat, flags: Flags)
    requires ValidConfig(c) && Covers(c, policy, maxtype)
    ensures ValidateNla(c, a, maxtype, policy, flags) >= 0 <==>
              (1 <= Type(a) <= maxtype ==>
                var f, e := InForce(c.policies[policy][0], Type(a), flags), c.policies[policy][Type(a)];
                && (f.strictAttrs ==> KeepsLength(e, |a.payload|)) && (f.nested ==> KeepsNesting(e.kind, a.field))
                && Allows(e, a.payload, f.unspec) && InnerCheck(c, e, a.payload, f) >= 0 && FurtherCheck(c, e, a) >= 0)
  {
    if 1 <= Type(a) <= maxtype {
      var f, e := InForce(c.policies[policy][0], Type(a), flags), c.policies[policy][Type(a)];
      StrictExact(e, a);
      FlatExact(e, a.payload, f);
      FlatCheckSign(e, a.payload, f);
    }
  }

  // ----- what is nested -----

  /** Every attribute of a stream is accepted, and nothing is left over where that is asked for. */
  ghost predicate StreamOk(c: Config, data: seq<byte>, maxtype: nat, policy: nat, flags: Flags)
    requires ValidConfig(c) && Covers(c, policy, maxtype)
  {
    && (forall x :: x in Offsets(data, 0) ==> Acceptable(c, data, x, maxtype, Some(policy), flags))
    && (flags.trailing ==> EndOf(data, 0) >= |data|)
  }

  /** An entry of an array: empty, or a stream. */
  ghost predicate EntryOk(c: Config, data: seq<byte>, x: nat, maxtype: nat, policy: nat, flags: Flags)
    requires ValidConfig(c) && Covers(c, policy, maxtype)
  {
    && AttrOk(data, x)
    && var q := AttrAt(data, x).payload;
    q == [] || (|q| >= 4 && StreamOk(c, q, maxtype, policy, flags))
  }

  lemma StreamExact(c: Config, data: seq<byte>, maxtype: nat, policy: nat, flags: Flags)
    requires ValidConfig(c) && Covers(c, policy, maxtype)
    ensures ParseFrom(c, data, 0, maxtype, Some(policy), flags) >= 0 <==> StreamOk(c, data, maxtype, policy, flags)
  {
    ParseExact(c, data, 0, maxtype, Some(policy), flags);
  }

  lemma {:induction false} ArrayExact(c: Config, data: seq<byte>, at: nat, maxtype: nat, policy: nat, flags: Flags)
    requires ValidConfig(c) && Covers(c, policy, maxtype)
    ensures ArrayFrom(c, data, at, maxtype, policy, flags) >= 0 <==>
              forall x :: x in Offsets(data, at) ==> EntryOk(c, data, x, maxtype, policy, flags)
    decreases Left(data, at)
  {
    if AttrOk(data, at) {
      var next := NextAt(data, at);
      StreamExact(c, AttrAt(data, at).payload, maxtype, policy, flags);
      ArrayExact(c, data, next, maxtype, policy, flags);
      FirstOffset(data, at);
      if EntryOk(c, data, at, maxtype, policy, flags) {
        assert ArrayFrom(c, data, at, maxtype, policy, flags) == ArrayFrom(c, data, next, maxtype, policy, flags);
      } else {
        assert ArrayFrom(c, data, at, maxtype, policy, flags) < 0;
      }
    }
  }

  /** The payload of a nested attribute with a policy is accepted if it is empty or a stream that is, under that
      policy and the same flags; that of an array if each of its entries is. Nothing else is looked into. */
  lemma InnerExact(c: Config, e: Entry, p: seq<byte>, flags: Flags)
    requires ValidConfig(c) && ValidEntry(c, e)
    ensures InnerCheck(c, e, p, flags) >= 0 <==>
              (p != [] && e.extra.Policy? ==>
                && (e.kind == Nested ==> StreamOk(c, p, e.len, e.extra.index, flags))
                && (e.kind == NestedArray ==>
                      forall x :: x in Offsets(p, 0) ==> EntryOk(c, p, x, e.len, e.extra.index, flags)))
  {
    if p != [] && e.extra.Policy? {
      if e.kind == Nested { StreamExact(c, p, e.len, e.extra.index, flags); }
      if e.kind == NestedArray { ArrayExact(c, p, 0, e.len, e.extra.index, flags); }
    }
  }
}
