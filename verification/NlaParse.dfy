/** The loops of the netlink validator, and the table of attributes they fill. */
module NlaParse {
  import opened Bytes
  import opened NlaPolicy
  import opened NlaValidate
  import opened Wrappers

  // ----- the attributes of a stream -----

  /** The offsets of the attributes, in order. */
  function Offsets(data: seq<byte>, at: nat): seq<nat>
    decreases Left(data, at)
  {
    if !AttrOk(data, at) then [] else [at] + Offsets(data, NextAt(data, at))
  }

  /** Where the walk over the stream ends. */
  function EndOf(data: seq<byte>, at: nat): nat
    decreases Left(data, at)
  {
    if !AttrOk(data, at) then at else EndOf(data, NextAt(data, at))
  }

  /** One attribute of a stream is acceptable. */
  predicate Acceptable(c: Config, data: seq<byte>, at: nat, maxtype: nat, policy: Option<nat>, flags: Flags)
    requires ValidConfig(c) && (policy.Some? ==> Covers(c, policy.value, maxtype))
  {
    && AttrOk(data, at)
    && var a := AttrAt(data, at);
    if 1 <= Type(a) <= maxtype then policy.Some? ==> ValidateNla(c, a, maxtype, policy.value, flags) >= 0
    else !flags.maxtype
  }

  lemma FirstOffset(data: seq<byte>, at: nat)
    requires AttrOk(data, at)
    ensures forall x :: x in Offsets(data, at) <==> x == at || x in Offsets(data, NextAt(data, at))
    ensures EndOf(data, at) == EndOf(data, NextAt(data, at))
  {
  }

  /** A stream is accepted exactly when each of its attributes is, and, if the flags say so, nothing
      is left over behind the last. */
  lemma {:induction false} ParseExact(c: Config, data: seq<byte>, at: nat, maxtype: nat, policy: Option<nat>, flags: Flags)
    requires ValidConfig(c) && (policy.Some? ==> Covers(c, policy.value, maxtype))
    ensures ParseFrom(c, data, at, maxtype, policy, flags) == 0
            <==> (forall x :: x in Offsets(data, at) ==> Acceptable(c, data, x, maxtype, policy, flags))
                 && (flags.trailing ==> EndOf(data, at) >= |data|)
    decreases Left(data, at)
  {
    if AttrOk(data, at) {
      var next := NextAt(data, at);
      ParseExact(c, data, next, maxtype, policy, flags);
      FirstOffset(data, at);
      if !Acceptable(c, data, at, maxtype, policy, flags) {
        assert ParseFrom(c, data, at, maxtype, policy, flags) < 0;
      } else {
        assert ParseFrom(c, data, at, maxtype, policy, flags) == ParseFrom(c, data, next, maxtype, policy, flags);
      }
    }
  }

  // ----- the table -----

  predicate HasType(data: seq<byte>, at: nat, t: nat) { AttrOk(data, at) && Type(AttrAt(data, at)) == t }

  /** The slot for type `t` holds the offset of the last attribute of that type, if there is one. */
  predicate IsLast(data: seq<byte>, offsets: seq<nat>, t: nat, slot: Option<nat>) {
    match slot
    case None => forall x :: x in offsets ==> !HasType(data, x, t)
    case Some(at) =>
      at in offsets && HasType(data, at, t) && forall x :: x in offsets && HasType(data, x, t) ==> x <= at
  }

  /** The offsets before `at` on the way there from the start. */
  predicate WalkedTo(data: seq<byte>, done: seq<nat>, at: nat) {
    done + Offsets(data, at) == Offsets(data, 0) && forall x :: x in done ==> x < at
  }

  predicate Table(data: seq<byte>, done: seq<nat>, maxtype: nat, tb: seq<Option<nat>>) {
    |tb| == maxtype + 1 && tb[0] == None && forall t :: 1 <= t <= maxtype ==> IsLast(data, done, t, tb[t])
  }

  lemma TableNext(data: seq<byte>, done: seq<nat>, at: nat, maxtype: nat, tb: seq<Option<nat>>)
    requires AttrOk(data, at) && Table(data, done, maxtype, tb) && forall x :: x in done ==> x < at
    ensures var t := Type(AttrAt(data, at));
            Table(data, done + [at], maxtype, if 1 <= t <= maxtype then tb[t := Some(at)] else tb)
  {
    var t := Type(AttrAt(data, at));
    var after := if 1 <= t <= maxtype then tb[t := Some(at)] else tb;
    var more := done + [at];
    forall u | 1 <= u <= maxtype ensures IsLast(data, more, u, after[u]) {
      assert forall x :: x in more <==> x in done || x == at;
      assert IsLast(data, done, u, tb[u]);
    }
  }

  lemma WalkedNext(data: seq<byte>, done: seq<nat>, at: nat)
    requires WalkedTo(data, done, at) && AttrOk(data, at)
    ensures WalkedTo(data, done + [at], NextAt(data, at))
  {
    var rest := Offsets(data, NextAt(data, at));
    assert done + ([at] + rest) == (done + [at]) + rest;
  }

  // ----- the loops -----

  /** `__nla_validate_parse`: on success the table has the last attribute of every type. */
  method Parse(c: Config, data: seq<byte>, maxtype: nat, policy: Option<nat>, flags: Flags)
    returns (r: int, tb: seq<Option<nat>>)
    requires ValidConfig(c) && (policy.Some? ==> Covers(c, policy.value, maxtype))
    ensures r == ParseFrom(c, data, 0, maxtype, policy, flags)
    ensures r == 0 ==> Table(data, Offsets(data, 0), maxtype, tb)
    decreases |data|, 0
  {
    tb := seq(maxtype + 1, i => None);
    var at: nat := 0;
    ghost var done: seq<nat> := [];
    assert done + Offsets(data, 0) == Offsets(data, 0);
    while AttrOk(data, at)
      invariant WalkedTo(data, done, at) && Table(data, done, maxtype, tb)
      invariant ParseFrom(c, data, at, maxtype, policy, flags) == ParseFrom(c, data, 0, maxtype, policy, flags)
      decreases Left(data, at)
    {
      var a := AttrAt(data, at);
      TableNext(data, done, at, maxtype, tb);
      WalkedNext(data, done, at);
      if Type(a) == 0 || Type(a) > maxtype {
        if flags.maxtype { return EINVAL, tb; }
      } else {
        if policy.Some? {
          r := Validate(c, a, maxtype, policy.value, flags);
          if r < 0 { return r, tb; }
        }
        tb := tb[Type(a) := Some(at)];
      }
      done, at := done + [at], NextAt(data, at);
    }
    assert done == Offsets(data, 0);
    if at < |data| && flags.trailing { return EINVAL, tb; }
    r := 0;
  }

  /** `nla_validate_array`. */
  method ValidateArray(c: Config, data: seq<byte>, maxtype: nat, policy: nat, flags: Flags) returns (r: int)
    requires ValidConfig(c) && Covers(c, policy, maxtype)
    ensures r == ArrayFrom(c, data, 0, maxtype, policy, flags)
    decreases |data|, 0
  {
    var at: nat := 0;
    while AttrOk(data, at)
      invariant ArrayFrom(c, data, at, maxtype, policy, flags) == ArrayFrom(c, data, 0, maxtype, policy, flags)
      decreases Left(data, at)
    {
      var p := AttrAt(data, at).payload;
      if p != [] {
        if |p| < HDRLEN { return ERANGE; }
        var tb;
        r, tb := Parse(c, p, maxtype, Some(policy), flags);
        if r < 0 { return; }
      }
      at := NextAt(data, at);
    }
    r := 0;
  }

  /** `validate_nla`. */
  method Validate(c: Config, a: Attr, maxtype: nat, policy: nat, flags0: Flags) returns (r: int)
    requires ValidConfig(c) && Covers(c, policy, maxtype)
    ensures r == ValidateNla(c, a, maxtype, policy, flags0)
    decreases |a.payload|, 1
  {
    var t := Type(a);
    var flags := Strictness(c.policies[policy][0], t, flags0);
    if t == 0 || t > maxtype { return 0; }
    var e := c.policies[policy][t];
    if flags.strictAttrs && BadLength(e, |a.payload|) { return EINVAL; }
    if flags.nested && BadNesting(e, a) { return EINVAL; }
    r := FlatCheck(e, a.payload, flags);
    if r != 0 { return; }
    if a.payload != [] && e.extra.Policy? {
      if e.kind == Nested {
        var tb;
        r, tb := Parse(c, a.payload, e.len, Some(e.extra.index), flags);
        if r < 0 { return; }
      } else if e.kind == NestedArray {
        r := ValidateArray(c, a.payload, e.len, e.extra.index, flags);
        if r < 0 { return; }
      }
    }
    r := FurtherCheck(c, e, a);
  }

  /** The table of an accepted stream is the same under any fewer flags. */
  lemma SameTable(c: Config, data: seq<byte>, maxtype: nat, policy: Option<nat>, f: Flags, g: Flags,
                  tbf: seq<Option<nat>>, tbg: seq<Option<nat>>)
    requires ValidConfig(c) && (policy.Some? ==> Covers(c, policy.value, maxtype)) && AtMost(f, g)
    requires ParseFrom(c, data, 0, maxtype, policy, g) == 0
    requires Table(data, Offsets(data, 0), maxtype, tbf) && Table(data, Offsets(data, 0), maxtype, tbg)
    ensures ParseFrom(c, data, 0, maxtype, policy, f) == 0 && tbf == tbg
  {
    ParseMonotone(c, data, 0, maxtype, policy, f, g);
    var offsets := Offsets(data, 0);
    forall t | 0 <= t <= maxtype ensures tbf[t] == tbg[t] {
      if t > 0 { assert IsLast(data, offsets, t, tbf[t]) && IsLast(data, offsets, t, tbg[t]); }
    }
  }
}
