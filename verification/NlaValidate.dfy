/** Validating a stream of netlink attributes against a policy, through all levels of nesting. */
module NlaValidate {
  import opened Bytes
  import opened NlaBitfield
  import opened NlaPolicy
  import opened Wrappers

  /** The policies, which refer to each other by index and may do so in circles, and what the callback
      checks answer. */
  datatype Config = Config(policies: seq<seq<Entry>>, call: (nat, nat, seq<byte>) -> int)

  /** Every policy referred to has an entry for each type it will be asked for, and an integer that
      is compared is required to be there. */
  predicate ValidEntry(c: Config, e: Entry) {
    && (e.kind in {Nested, NestedArray} && e.extra.Policy? ==>
          e.extra.index < |c.policies| && e.len < |c.policies[e.extra.index]|)
    && (e.check in {Range, Min, Max} ==> e.len == 0 || e.len >= FixedLen(e.kind))
  }

  predicate ValidConfig(c: Config) {
    forall p, t :: 0 <= p < |c.policies| && 0 <= t < |c.policies[p]| ==> ValidEntry(c, c.policies[p][t])
  }

  predicate Covers(c: Config, policy: nat, maxtype: nat) {
    policy < |c.policies| && maxtype < |c.policies[policy]|
  }

  // ----- the stream -----

  function LengthAt(data: seq<byte>, at: nat): nat
    requires at + 2 <= |data|
  {
    LittleEndian(data[at..at + 2])
  }

  /** `nla_ok`: there is an attribute at `at`. */
  predicate AttrOk(data: seq<byte>, at: nat) {
    at + HDRLEN <= |data| && HDRLEN <= LengthAt(data, at) <= |data| - at
  }

  function AttrAt(data: seq<byte>, at: nat): (a: Attr)
    requires AttrOk(data, at)
    ensures |a.payload| + HDRLEN <= |data| - at
  {
    Attr(at, LittleEndian(data[at + 2..at + 4]), data[at + HDRLEN..at + LengthAt(data, at)])
  }

  /** `nla_next`: behind the attribute and its padding, which may be missing at the end. */
  function NextAt(data: seq<byte>, at: nat): (n: nat)
    requires AttrOk(data, at)
    ensures n >= at + HDRLEN
  {
    at + (LengthAt(data, at) + 3) / 4 * 4
  }

  function Left(data: seq<byte>, at: nat): nat { if at < |data| then |data| - at else 0 }

  // ----- one attribute -----

  function Strictness(e0: Entry, t: nat, flags: Flags): Flags {
    if StrictFrom(e0) != 0 && t >= StrictFrom(e0) then STRICT else flags
  }

  predicate BadLength(e: Entry, len: nat) {
    (FixedLen(e.kind) != 0 && len != FixedLen(e.kind)) || (e.kind == ExactLenWarn && len != e.len)
  }

  predicate BadNesting(e: Entry, a: Attr) {
    || (e.kind in {Nested, NestedArray} && !NestedFlag(a))
    || (e.kind !in {Nested, NestedArray, Unspec} && NestedFlag(a))
  }

  /** The string at the front of a payload, and its end. */
  function StringCheck(e: Entry, p: seq<byte>): int {
    if |p| < 1 then ERANGE
    else if e.len != 0 && |p| - (if p[|p| - 1] == 0 then 1 else 0) > e.len then ERANGE
    else 0
  }

  function NulStringCheck(e: Entry, p: seq<byte>): int {
    var n := if e.len != 0 && e.len + 1 < |p| then e.len + 1 else |p|;
    if n == 0 || 0 !in p[..n] then EINVAL else StringCheck(e, p)
  }

  function BitfieldCheck(e: Entry, p: seq<byte>): int {
    if |p| != 8 then ERANGE
    else if e.extra.Mask? && BitfieldOk(e.extra.bits, Word(p[..4]), Word(p[4..])) then 0
    else EINVAL
  }

  lemma FourOctets(p: seq<byte>)
    requires |p| == 4
    ensures LittleEndian(p) < 0x1_0000_0000
  {
    LittleEndianBelow(p);
    assert Pow256(4) == 256 * Pow256(3) && Pow256(3) == 256 * Pow256(2) && Pow256(2) == 256 * Pow256(1) && Pow256(1) == 256 * Pow256(0);
  }

  function Word(p: seq<byte>): bv32
    requires |p| == 4
  {
    FourOctets(p);
    LittleEndian(p) as bv32
  }

  /** The checks by kind that look at no other attribute. */
  function FlatCheck(e: Entry, p: seq<byte>, flags: Flags): int {
    match e.kind
    case ExactLen => if |p| != e.len then ERANGE else 0
    case Refused => EINVAL
    case Flag => if |p| > 0 then ERANGE else 0
    case Bitfield32 => BitfieldCheck(e, p)
    case NulString => NulStringCheck(e, p)
    case Str => StringCheck(e, p)
    case Binary => if e.len != 0 && |p| > e.len then ERANGE else 0
    case Unspec => if flags.unspec then EINVAL else if |p| < e.len then ERANGE else 0
    case MinLen => if |p| < e.len then ERANGE else 0
    case Nested => if |p| != 0 && |p| < HDRLEN then ERANGE else 0
    case NestedArray => if |p| != 0 && |p| < HDRLEN then ERANGE else 0
    case _ => if |p| < (if e.len != 0 then e.len else MinimumLen(e.kind)) then ERANGE else 0
  }

  function FurtherCheck(c: Config, e: Entry, a: Attr): int {
    match e.check
    case NoCheck => 0
    case Function => if e.extra.Callback? then c.call(e.extra.id, a.field, a.payload) else 0
    case _ => IntRange(e, a.payload)
  }

  /** `validate_nla`. */
  function ValidateNla(c: Config, a: Attr, maxtype: nat, policy: nat, flags0: Flags): int
    requires ValidConfig(c) && Covers(c, policy, maxtype)
    decreases |a.payload|, 2, 0
  {
    var t := Type(a);
    var flags := Strictness(c.policies[policy][0], t, flags0);
    if t == 0 || t > maxtype then 0
    else
      var e := c.policies[policy][t];
      if flags.strictAttrs && BadLength(e, |a.payload|) then EINVAL
      else if flags.nested && BadNesting(e, a) then EINVAL
      else if FlatCheck(e, a.payload, flags) != 0 then FlatCheck(e, a.payload, flags)
      else
        var inner := InnerCheck(c, e, a.payload, flags);
        if inner < 0 then inner else FurtherCheck(c, e, a)
  }

  /** What is nested in an attribute, if anything is. */
  function InnerCheck(c: Config, e: Entry, p: seq<byte>, flags: Flags): int
    requires ValidConfig(c) && ValidEntry(c, e)
    decreases |p|, 1, 0
  {
    if p == [] || !e.extra.Policy? then 0
    else if e.kind == Nested then ParseFrom(c, p, 0, e.len, Some(e.extra.index), flags)
    else if e.kind == NestedArray then ArrayFrom(c, p, 0, e.len, e.extra.index, flags)
    else 0
  }

  /** `__nla_validate_parse` from an attribute on. */
  function ParseFrom(c: Config, data: seq<byte>, at: nat, maxtype: nat, policy: Option<nat>, flags: Flags): (r: int)
    requires ValidConfig(c) && (policy.Some? ==> Covers(c, policy.value, maxtype))
    ensures r <= 0
    decreases |data|, 0, Left(data, at)
  {
    if !AttrOk(data, at) then if at < |data| && flags.trailing then EINVAL else 0
    else
      var a := AttrAt(data, at);
      var r :=
        if Type(a) == 0 || Type(a) > maxtype then if flags.maxtype then EINVAL else 0
        else if policy.None? then 0
        else ValidateNla(c, a, maxtype, policy.value, flags);
      if r < 0 then r else ParseFrom(c, data, NextAt(data, at), maxtype, policy, flags)
  }

  /** `nla_validate_array` from an entry on. */
  function ArrayFrom(c: Config, data: seq<byte>, at: nat, maxtype: nat, policy: nat, flags: Flags): (r: int)
    requires ValidConfig(c) && Covers(c, policy, maxtype)
    ensures r <= 0
    decreases |data|, 0, Left(data, at)
  {
    if !AttrOk(data, at) then 0
    else
      var p := AttrAt(data, at).payload;
      var r :=
        if p == [] then 0
        else if |p| < HDRLEN then ERANGE
        else ParseFrom(c, p, 0, maxtype, Some(policy), flags);
      if r < 0 then r else ArrayFrom(c, data, NextAt(data, at), maxtype, policy, flags)
  }

  // ----- strings -----

  /** A string without the end it may be stored with. */
  function Text(p: seq<byte>): seq<byte> { if p != [] && p[|p| - 1] == 0 then p[..|p| - 1] else p }

  /** A string passes exactly when it is not empty and its text is no longer than the policy allows. */
  lemma StringExact(e: Entry, p: seq<byte>)
    ensures StringCheck(e, p) == 0 <==> p != [] && (e.len != 0 ==> |Text(p)| <= e.len)
  {
  }

  /** One that must be ended passes exactly when it moreover has an end, at the latest right behind the
      longest text allowed. */
  lemma NulStringExact(e: Entry, p: seq<byte>)
    ensures NulStringCheck(e, p) == 0 <==>
              && (exists i :: 0 <= i < |p| && p[i] == 0 && (e.len != 0 ==> i <= e.len))
              && (e.len != 0 ==> |Text(p)| <= e.len)
  {
    var n := if e.len != 0 && e.len + 1 < |p| then e.len + 1 else |p|;
    StringExact(e, p);
    if n != 0 && 0 in p[..n] {
      var i :| 0 <= i < n && p[..n][i] == 0;
      assert p[i] == 0;
    }
    forall i | 0 <= i < |p| && p[i] == 0 && (e.len != 0 ==> i <= e.len) ensures 0 in p[..n] {
      assert p[..n][i] == 0;
    }
  }

  // ----- strictness -----

  lemma StrictnessAtMost(e0: Entry, t: nat, f: Flags, g: Flags)
    requires AtMost(f, g)
    ensures AtMost(Strictness(e0, t, f), Strictness(e0, t, g))
  {
  }

  lemma FlatCheckMonotone(e: Entry, p: seq<byte>, f: Flags, g: Flags)
    requires AtMost(f, g) && FlatCheck(e, p, g) == 0
    ensures FlatCheck(e, p, f) == 0
  {
  }

  /** What passes under some flags passes under any fewer, at this level and at all below. */
  lemma {:induction false} ValidateMonotone(c: Config, a: Attr, maxtype: nat, policy: nat, f0: Flags, g0: Flags)
    requires ValidConfig(c) && Covers(c, policy, maxtype) && AtMost(f0, g0)
    requires ValidateNla(c, a, maxtype, policy, g0) >= 0
    ensures ValidateNla(c, a, maxtype, policy, f0) >= 0
    decreases |a.payload|, 2, 0
  {
    var t := Type(a);
    if t != 0 && t <= maxtype {
      var e := c.policies[policy][t];
      var f, g := Strictness(c.policies[policy][0], t, f0), Strictness(c.policies[policy][0], t, g0);
      StrictnessAtMost(c.policies[policy][0], t, f0, g0);
      FlatCheckSign(e, a.payload, g);
      FlatCheckMonotone(e, a.payload, f, g);
      InnerMonotone(c, e, a.payload, f, g);
    }
  }

  lemma FlatCheckSign(e: Entry, p: seq<byte>, flags: Flags)
    ensures FlatCheck(e, p, flags) <= 0
  {
  }

  lemma {:induction false} InnerMonotone(c: Config, e: Entry, p: seq<byte>, f: Flags, g: Flags)
    requires ValidConfig(c) && ValidEntry(c, e) && AtMost(f, g) && InnerCheck(c, e, p, g) >= 0
    ensures InnerCheck(c, e, p, f) >= 0
    decreases |p|, 1, 0
  {
    if p != [] && e.extra.Policy? {
      if e.kind == Nested {
        ParseMonotone(c, p, 0, e.len, Some(e.extra.index), f, g);
      } else if e.kind == NestedArray {
        ArrayMonotone(c, p, 0, e.len, e.extra.index, f, g);
      }
    }
  }

  lemma {:induction false} ParseMonotone(c: Config, data: seq<byte>, at: nat, maxtype: nat, policy: Option<nat>, f: Flags, g: Flags)
    requires ValidConfig(c) && (policy.Some? ==> Covers(c, policy.value, maxtype)) && AtMost(f, g)
    requires ParseFrom(c, data, at, maxtype, policy, g) >= 0
    ensures ParseFrom(c, data, at, maxtype, policy, f) >= 0
    decreases |data|, 0, Left(data, at)
  {
    if AttrOk(data, at) {
      var a := AttrAt(data, at);
      if Type(a) != 0 && Type(a) <= maxtype && policy.Some? {
        ValidateMonotone(c, a, maxtype, policy.value, f, g);
      }
      ParseMonotone(c, data, NextAt(data, at), maxtype, policy, f, g);
    }
  }

  lemma {:induction false} ArrayMonotone(c: Config, data: seq<byte>, at: nat, maxtype: nat, policy: nat, f: Flags, g: Flags)
    requires ValidConfig(c) && Covers(c, policy, maxtype) && AtMost(f, g)
    requires ArrayFrom(c, data, at, maxtype, policy, g) >= 0
    ensures ArrayFrom(c, data, at, maxtype, policy, f) >= 0
    decreases |data|, 0, Left(data, at)
  {
    if AttrOk(data, at) {
      var p := AttrAt(data, at).payload;
      if p != [] && |p| >= HDRLEN { ParseMonotone(c, p, 0, maxtype, Some(policy), f, g); }
      ArrayMonotone(c, data, NextAt(data, at), maxtype, policy, f, g);
    }
  }
}
