/** Which elements a match instruction takes: the test of the tags on bits, and choices between tags. */
module Asn1Match {
  import opened Bytes
  import opened Asn1Grammar
  import opened Asn1Decoder
  import opened Asn1Decode
  import opened Wrappers

  // ----- bits and numbers -----

  predicate Bit(b: byte, k: nat)
    requires k > 0
  {
    b / k % 2 == 1
  }

  /** The eight bits of an octet. */
  predicate Spells(x: bv8, b: byte) {
    && (x & 1 != 0 <==> Bit(b, 1)) && (x & 2 != 0 <==> Bit(b, 2)) && (x & 4 != 0 <==> Bit(b, 4))
    && (x & 8 != 0 <==> Bit(b, 8)) && (x & 16 != 0 <==> Bit(b, 16)) && (x & 32 != 0 <==> Bit(b, 32))
    && (x & 64 != 0 <==> Bit(b, 64)) && (x & 128 != 0 <==> Bit(b, 128))
  }

  lemma BitsOf(b: byte)
    ensures Spells(b as bv8, b)
  {
  }

  /** The flags in an opcode are bits of it. */
  lemma OpcodeFlags(op: byte)
    ensures (MatchSkip(op) <==> op as bv8 & 0x01 != 0) && (MatchAct(op) <==> op as bv8 & 0x02 != 0)
    ensures (MatchJump(op) <==> op as bv8 & 0x04 != 0) && (MatchAny(op) <==> op as bv8 & 0x08 != 0)
    ensures (MatchCond(op) <==> op as bv8 & 0x10 != 0) && (EndSet(op) <==> op as bv8 & 0x01 != 0)
    ensures (EndOf(op) <==> op as bv8 & 0x02 != 0) && (EndAct(op) <==> op as bv8 & 0x04 != 0)
  {
    BitsOf(op);
  }

  /** The test of the source: the tags differ in no bit, but for the constructed one if the instruction has it. */
  predicate BitsMatch(optag: bv8, tag: bv8) { (optag ^ tag) & !(optag & 0x20) == 0 }

  lemma BitsMatchBits(o: bv8, t: bv8)
    ensures BitsMatch(o, t) <==>
              && (o & 1 != 0 <==> t & 1 != 0) && (o & 2 != 0 <==> t & 2 != 0) && (o & 4 != 0 <==> t & 4 != 0)
              && (o & 8 != 0 <==> t & 8 != 0) && (o & 16 != 0 <==> t & 16 != 0) && (o & 64 != 0 <==> t & 64 != 0)
              && (o & 128 != 0 <==> t & 128 != 0) && (t & 32 != 0 ==> o & 32 != 0)
  {
  }

  predicate SameBit(o: byte, t: byte, k: nat)
    requires k > 0
  {
    Bit(o, k) == Bit(t, k)
  }

  predicate SameOthers(o: byte, t: byte) {
    && SameBit(o, t, 1) && SameBit(o, t, 2) && SameBit(o, t, 4) && SameBit(o, t, 8) && SameBit(o, t, 16)
    && SameBit(o, t, 64) && SameBit(o, t, 128)
  }

  lemma BitsMatchOthers(x: bv8, y: bv8, o: byte, t: byte)
    requires Spells(x, o) && Spells(y, t)
    ensures BitsMatch(x, y) <==> SameOthers(o, t) && (Bit(t, 32) ==> Bit(o, 32))
  {
    BitsMatchBits(x, y);
  }

  function Digit(b: byte, k: nat): nat
    requires k > 0
  {
    b / k % 2
  }

  lemma HalveLow(b: byte)
    ensures b == 2 * (b / 2) + Digit(b, 1) && b / 2 == 2 * (b / 4) + Digit(b, 2) && b / 4 == 2 * (b / 8) + Digit(b, 4)
  {
  }

  lemma HalveHigh(b: byte)
    ensures b / 8 == 2 * (b / 16) + Digit(b, 8) && b / 16 == 2 * (b / 32) + Digit(b, 16)
    ensures b / 64 == Digit(b, 64) + 2 * Digit(b, 128)
  {
  }

  lemma Sums(b: byte)
    ensures b % 32 == Digit(b, 1) + 2 * Digit(b, 2) + 4 * Digit(b, 4) + 8 * Digit(b, 8) + 16 * Digit(b, 16)
    ensures b / 64 == Digit(b, 64) + 2 * Digit(b, 128)
  {
    HalveLow(b);
    HalveHigh(b);
  }

  lemma SameSum(a: nat, b: nat, c: nat, d: nat, e: nat, a': nat, b': nat, c': nat, d': nat, e': nat)
    requires a < 2 && b < 2 && c < 2 && d < 2 && e < 2 && a' < 2 && b' < 2 && c' < 2 && d' < 2 && e' < 2
    ensures a + 2 * b + 4 * c + 8 * d + 16 * e == a' + 2 * b' + 4 * c' + 8 * d' + 16 * e' <==>
            a == a' && b == b' && c == c' && d == d' && e == e'
  {
  }

  /** The other bits are the number of the tag and its class. */
  lemma OthersAreParts(o: byte, t: byte)
    ensures SameOthers(o, t) <==> o % 32 == t % 32 && o / 64 == t / 64
  {
    Sums(o);
    Sums(t);
    SameSum(Digit(o, 1), Digit(o, 2), Digit(o, 4), Digit(o, 8), Digit(o, 16),
            Digit(t, 1), Digit(t, 2), Digit(t, 4), Digit(t, 8), Digit(t, 16));
    SameSum(Digit(o, 64), Digit(o, 128), 0, 0, 0, Digit(t, 64), Digit(t, 128), 0, 0, 0);
  }

  lemma MatchesParts(o: byte, t: byte)
    ensures TagMatches(o, t) <==> o % 32 == t % 32 && o / 64 == t / 64 && (Constructed(t) ==> Constructed(o))
  {
  }

  lemma ConstructedBit(b: byte)
    ensures Constructed(b) <==> Bit(b, 32)
  {
  }

  lemma MatchesSpelled(x: bv8, y: bv8, o: byte, t: byte)
    requires Spells(x, o) && Spells(y, t)
    ensures TagMatches(o, t) <==> BitsMatch(x, y)
  {
    BitsMatchOthers(x, y, o, t);
    OthersAreParts(o, t);
    MatchesParts(o, t);
    ConstructedBit(o);
    ConstructedBit(t);
  }

  /** Two tags match exactly if class and number are the same and the data has the constructed bit only if
      the instruction has it; that is the test on bits. */
  lemma TagMatchesExact(optag: byte, tag: byte)
    ensures TagMatches(optag, tag) <==>
              optag % 32 == tag % 32 && optag / 64 == tag / 64 && (Constructed(tag) ==> Constructed(optag))
    ensures TagMatches(optag, tag) <==> BitsMatch(optag as bv8, tag as bv8)
  {
    MatchesParts(optag, tag);
    BitsOf(optag);
    BitsOf(tag);
    MatchesSpelled(optag as bv8, tag as bv8, optag, tag);
  }

  // ----- one instruction -----

  /** A match instruction that is not passed up front. */
  predicate AtMatch(machine: seq<byte>, data: seq<byte>, s: State) {
    && InBounds(data, s) && s.pc < |machine| && machine[s.pc] <= LAST_MATCH && CanRun(machine, s, machine[s.pc])
    && !(MatchCond(machine[s.pc]) && s.flags.matched) && !(MatchSkip(machine[s.pc]) && s.dp == s.datalen)
  }

  /** With a tag of its own, and data to compare it with. */
  predicate Compares(machine: seq<byte>, data: seq<byte>, s: State) {
    AtMatch(machine, data, s) && !MatchAny(machine[s.pc]) && s.datalen - s.dp >= 2 && !LongTag(data[s.dp])
  }

  /** The instruction goes on to the next one with the cursor and the open elements as they were. */
  predicate PassesOn(machine: seq<byte>, s: State, o: Outcome)
    requires s.pc < |machine|
  {
    && o.Next? && o.s.pc == s.pc + OpLength(machine[s.pc]) && o.s.dp == s.dp && o.s.datalen == s.datalen
    && o.s.stack == s.stack && o.s.jsp == s.jsp && o.s.jumps == s.jumps && o.s.calls == s.calls && !o.s.flags.lastMatched
  }

  /** The element at the cursor is taken, or something is wrong with it. */
  predicate TakesElement(s: State, o: Outcome) {
    o != Failed(TagMismatch) && (o.Next? ==> o.s.dp >= s.dp + 2 && o.s.flags.matched)
  }

  lemma TakingMoves(machine: seq<byte>, data: seq<byte>, respond: seq<Call> -> int, op: byte, s: State)
    requires InBounds(data, s) && CanRun(machine, s, op) && op <= LAST_MATCH && s.flags.matched
    ensures var o := Taking(machine, data, respond, op, s);
            o != Failed(TagMismatch) && (o.Next? ==> o.s.dp >= s.dp && o.s.flags.matched)
  {
  }

  lemma ReadHeaderMoves(data: seq<byte>, s: State)
    requires InBounds(data, s) && s.dp < s.datalen && s.flags.matched
    ensures var m := ReadHeader(data, s);
            m != Mismatched(TagMismatch) && (m.Taken? ==> m.s.dp > s.dp && m.s.flags.matched)
  {
  }

  lemma ComparedOutcome(machine: seq<byte>, data: seq<byte>, respond: seq<Call> -> int, s: State)
    requires Compares(machine, data, s)
    ensures var o := Step(machine, data, respond, s);
            if TagMatches(machine[s.pc + 1], data[s.dp]) then TakesElement(s, o)
            else if MatchSkip(machine[s.pc]) then PassesOn(machine, s, o) && !o.s.flags.matched
            else o == Failed(TagMismatch)
  {
    var op := machine[s.pc];
    var cons := Constructed(machine[s.pc + 1]);
    if TagMatches(machine[s.pc + 1], data[s.dp]) {
      var t := s.(tag := data[s.dp], hdr := 2, flags := Flags(false, true, false, cons), dp := s.dp + 1);
      ReadHeaderMoves(data, t);
      var m := ReadHeader(data, t);
      if m.Taken? { TakingMoves(machine, data, respond, op, m.s); }
    }
  }

  /** A match instruction with a tag takes the element at the cursor only if class and number are those of the
      instruction and the data is not constructed without the instruction being so. Otherwise it fails with a
      mismatch, or, if it may be skipped, goes on as if it had not been there. */
  lemma MatchExact(machine: seq<byte>, data: seq<byte>, respond: seq<Call> -> int, s: State)
    requires Compares(machine, data, s)
    ensures var o, optag, tag := Step(machine, data, respond, s), machine[s.pc + 1], data[s.dp];
            && (BitsMatch(optag as bv8, tag as bv8) <==>
                  optag % 32 == tag % 32 && optag / 64 == tag / 64 && (Constructed(tag) ==> Constructed(optag)))
            && if BitsMatch(optag as bv8, tag as bv8) then TakesElement(s, o)
               else if machine[s.pc] as bv8 & 0x01 != 0 then PassesOn(machine, s, o) && !o.s.flags.matched
               else o == Failed(TagMismatch)
  {
    TagMatchesExact(machine[s.pc + 1], data[s.dp]);
    OpcodeFlags(machine[s.pc]);
    ComparedOutcome(machine, data, respond, s);
  }

  /** In any run, an instruction that compares tags moves the cursor exactly if they match. */
  lemma RunMatchesExact(machine: seq<byte>, data: seq<byte>, respond: seq<Call> -> int, trace: seq<State>, i: nat)
    requires Reaches(machine, data, respond, trace) && i + 1 < |trace| && Compares(machine, data, trace[i])
    ensures var s, t := trace[i], trace[i + 1];
            if BitsMatch(machine[s.pc + 1] as bv8, data[s.dp] as bv8) then t.dp >= s.dp + 2 && t.flags.matched
            else t.dp == s.dp && !t.flags.matched && machine[s.pc] as bv8 & 0x01 != 0
  {
    assert StepsTo(machine, data, respond, trace[i], trace[i + 1]);
    MatchExact(machine, data, respond, trace[i]);
  }

  lemma OthersMatch(machine: seq<byte>, data: seq<byte>, respond: seq<Call> -> int, s: State)
    requires InBounds(data, s) && s.pc < |machine| && machine[s.pc] <= LAST_MATCH && CanRun(machine, s, machine[s.pc])
    requires !Compares(machine, data, s)
    ensures Step(machine, data, respond, s) != Failed(TagMismatch)
  {
    var op := machine[s.pc];
    if AtMatch(machine, data, s) && s.datalen - s.dp >= 2 && !LongTag(data[s.dp]) {
      var t := s.(tag := data[s.dp], hdr := 2, flags := Flags(false, true, false, false), dp := s.dp + 1);
      ReadHeaderMoves(data, t);
      var m := ReadHeader(data, t);
      if m.Taken? { TakingMoves(machine, data, respond, op, m.s); }
    }
  }

  lemma EndMismatch(machine: seq<byte>, data: seq<byte>, respond: seq<Call> -> int, op: byte, s: State)
    requires InBounds(data, s) && CanRun(machine, s, op) && END_SEQ <= op <= END_LAST
    ensures End(machine, data, respond, op, s) == Failed(TagMismatch) <==> (op == 0x21 || op == 0x25) && !s.flags.matched
  {
  }

  /** The mismatches there are: a tag that differs where the instruction may not be skipped, and nothing matched where
      a choice or a set ends. */
  lemma MismatchExact(machine: seq<byte>, data: seq<byte>, respond: seq<Call> -> int, s: State)
    requires InBounds(data, s) && s.pc < |machine| && CanRun(machine, s, machine[s.pc])
    ensures Step(machine, data, respond, s) == Failed(TagMismatch) <==>
              || (Compares(machine, data, s) && !BitsMatch(machine[s.pc + 1] as bv8, data[s.dp] as bv8)
                  && machine[s.pc] as bv8 & 0x01 == 0)
              || (machine[s.pc] in {COND_FAIL, 0x21, 0x25} && !s.flags.matched)
  {
    var op := machine[s.pc];
    if op <= LAST_MATCH {
      if Compares(machine, data, s) {
        MatchExact(machine, data, respond, s);
      } else {
        OthersMatch(machine, data, respond, s);
      }
    } else if END_SEQ <= op <= END_LAST {
      EndMismatch(machine, data, respond, op, s);
    }
  }

  /** A run ends well exactly at an instruction to complete with nothing open and nowhere to return to. */
  lemma CompletesExact(machine: seq<byte>, data: seq<byte>, respond: seq<Call> -> int, s: State)
    requires InBounds(data, s)
    ensures Step(machine, data, respond, s).Finished? <==>
              s.pc < |machine| && machine[s.pc] == COMPLETE && s.stack.csp == 0 && s.jsp == 0
  {
    if s.pc < |machine| {
      var op := machine[s.pc];
      if END_SEQ <= op <= END_LAST && CanRun(machine, s, op) { EndNeverFinishes(machine, data, respond, op, s); }
    }
  }

  lemma EndNeverFinishes(machine: seq<byte>, data: seq<byte>, respond: seq<Call> -> int, op: byte, s: State)
    requires InBounds(data, s) && CanRun(machine, s, op) && END_SEQ <= op <= END_LAST
    ensures !End(machine, data, respond, op, s).Finished?
  {
  }

  /** A jump goes where the instruction says, with the element behind its header at the cursor. */
  lemma JumpGoes(machine: seq<byte>, data: seq<byte>, respond: seq<Call> -> int, s: State, t: State)
    requires StepsTo(machine, data, respond, s, t) && AtMatch(machine, data, s) && MatchJump(machine[s.pc]) && t.dp != s.dp
    ensures s.pc + 2 < |machine| && t.pc == machine[s.pc + 2] && t.calls == s.calls && t.jsp == s.jsp + 1
  {
  }

  // ----- actions -----

  /** An instruction has called an action, which has not refused. */
  predicate CalledOne(respond: seq<Call> -> int, s: State, t: State) {
    |t.calls| == |s.calls| + 1 && t.calls[..|s.calls|] == s.calls && respond(t.calls) >= 0
  }

  lemma ActCalls(respond: seq<Call> -> int, c: Call, s: State)
    ensures var o := Act(respond, c, s); o.Next? ==> CalledOne(respond, s, o.s)
  {
    assert (s.calls + [c])[..|s.calls|] == s.calls;
  }

  lemma TakeLeafCalls(data: seq<byte>, respond: seq<Call> -> int, op: byte, s: State)
    requires s.dp <= s.datalen <= |data|
    ensures var o := TakeLeaf(data, respond, op, s);
            o.Next? ==> if MatchAct(op) then CalledOne(respond, s, o.s) else o.s.calls == s.calls
  {
    var size := if !s.flags.cons && s.flags.indefinite then ContentsSize(data[..s.datalen][s.dp..]) else Some(s.len);
    if size.Some? {
      var t := s.(len := size.value);
      ActCalls(respond, OnMatch(t.hdr, t.tag, t.dp, size.value), t);
    }
  }

  /** The other places from which an action is called. */
  predicate CallsThere(op: byte, s: State, t: State) {
    || op == ACT || (op == MAYBE_ACT && s.flags.lastMatched)
    || (END_SEQ <= op <= END_LAST && EndAct(op) && t.stack.csp < s.stack.csp)
  }

  lemma CloseCalls(respond: seq<Call> -> int, op: byte, t: State, dp: nat, datalen: nat, len: int)
    requires t.stack.csp > 0
    ensures var o := Close(respond, op, t, dp, datalen, len);
            o.Next? ==> o.s.stack.csp < t.stack.csp && if EndAct(op) then CalledOne(respond, t, o.s) else o.s.calls == t.calls
  {
    var size: nat := len % SIZE_T;
    var u := t.(dp := dp, datalen := datalen, len := size, stack := t.stack.(csp := t.stack.csp - 1));
    ActCalls(respond, OnEnd(t.hdr, t.tdp, size), u);
  }

  lemma EndCalls(machine: seq<byte>, data: seq<byte>, respond: seq<Call> -> int, op: byte, s: State)
    requires InBounds(data, s) && CanRun(machine, s, op) && END_SEQ <= op <= END_LAST
    ensures var o := End(machine, data, respond, op, s);
            o.Next? ==> if CallsThere(op, s, o.s) then CalledOne(respond, s, o.s) else o.s.calls == s.calls
  {
    if s.stack.csp > 0 {
      var k := s.stack.csp - 1;
      var start, end := s.stack.dps[k], s.datalen;
      var t := s.(tdp := start, hdr := s.stack.hdrs[k], len := end);
      var from: int := start;
      CloseCalls(respond, op, t, s.dp + 2, end, s.dp - from);
      CloseCalls(respond, op, t, s.dp, s.stack.ends[k], end - from);
    }
  }

  lemma ReadHeaderCalls(data: seq<byte>, s: State)
    requires InBounds(data, s) && s.dp < s.datalen
    ensures var m := ReadHeader(data, s); m.Taken? ==> m.s.calls == s.calls && m.s.dp > s.dp
  {
  }

  lemma MatchTagCalls(machine: seq<byte>, data: seq<byte>, op: byte, s: State)
    requires InBounds(data, s) && CanRun(machine, s, op) && op <= LAST_MATCH
    ensures var m := MatchTag(machine, data, op, s);
            && (m.Taken? ==> m.s.calls == s.calls && m.s.dp > s.dp)
            && (m.Skipped? ==> m.s.calls == s.calls && m.s.dp == s.dp)
  {
    if !((MatchCond(op) && s.flags.matched) || (MatchSkip(op) && s.dp == s.datalen)) && s.datalen - s.dp >= 2 {
      var cons := !MatchAny(op) && Constructed(machine[s.pc + 1]);
      ReadHeaderCalls(data, s.(tag := data[s.dp], hdr := 2, flags := Flags(false, true, false, cons), dp := s.dp + 1));
    }
  }

  lemma TakingCalls(machine: seq<byte>, data: seq<byte>, respond: seq<Call> -> int, op: byte, s: State)
    requires InBounds(data, s) && CanRun(machine, s, op) && op <= LAST_MATCH
    ensures var o := Taking(machine, data, respond, op, s);
            o.Next? ==> o.s.dp >= s.dp && if MatchAct(op) then CalledOne(respond, s, o.s) else o.s.calls == s.calls
  {
    TakeLeafCalls(data, respond, op, s);
  }

  lemma MatchCalls(machine: seq<byte>, data: seq<byte>, respond: seq<Call> -> int, s: State)
    requires InBounds(data, s) && s.pc < |machine| && machine[s.pc] <= LAST_MATCH && CanRun(machine, s, machine[s.pc])
    ensures var o := Step(machine, data, respond, s);
            o.Next? ==> if o.s.dp > s.dp && MatchAct(machine[s.pc]) then CalledOne(respond, s, o.s) else o.s.calls == s.calls
  {
    var op := machine[s.pc];
    var m := MatchTag(machine, data, op, s);
    MatchTagCalls(machine, data, op, s);
    if m.Taken? { TakingCalls(machine, data, respond, op, m.s); }
  }

  /** An instruction calls an action, one and not refused, if it is told to and has taken or closed an
      element, unconditionally, or after a match; otherwise none. */
  lemma CallsExact(machine: seq<byte>, data: seq<byte>, respond: seq<Call> -> int, s: State, t: State)
    requires StepsTo(machine, data, respond, s, t)
    ensures s.pc < |machine|
    ensures var op := machine[s.pc];
            if (op <= LAST_MATCH && MatchAct(op) && t.dp > s.dp) || (op > LAST_MATCH && CallsThere(op, s, t))
            then CalledOne(respond, s, t) else t.calls == s.calls
  {
    var op := machine[s.pc];
    if op <= LAST_MATCH {
      MatchCalls(machine, data, respond, s);
    } else if END_SEQ <= op <= END_LAST {
      EndCalls(machine, data, respond, op, s);
    } else {
      ActCalls(respond, Plain(s.hdr, s.tag, s.tdp, s.len), s);
    }
  }

  // ----- choices -----

  /** Alternatives one after the other, each with a tag: the first may be skipped, the others are passed once
      one has matched, and behind the last it is an error if none has. */
  predicate IsChoice(machine: seq<byte>, at: seq<nat>) {
    && |at| >= 2 && at[|at| - 1] < |machine| && machine[at[|at| - 1]] == COND_FAIL
    && forall i :: 0 <= i < |at| - 1 ==> IsAlternative(machine, at, i)
  }

  predicate IsAlternative(machine: seq<byte>, at: seq<nat>, i: nat)
    requires i + 1 < |at|
  {
    && at[i] + 1 < |machine| && machine[at[i]] <= LAST_MATCH
    && var op := machine[at[i]];
    && OpLength(op) > 0 && at[i + 1] == at[i] + OpLength(op) <= |machine|
    && MatchSkip(op) && !MatchAny(op) && !MatchJump(op) && (MatchCond(op) <==> i > 0)
  }

  /** The tag of an alternative matches the one at the cursor. */
  predicate Fits(machine: seq<byte>, data: seq<byte>, at: seq<nat>, i: nat, dp: nat)
    requires i + 1 < |at| && IsAlternative(machine, at, i) && dp < |data|
  {
    BitsMatch(machine[at[i] + 1] as bv8, data[dp] as bv8)
  }

  predicate Steps(machine: seq<byte>, data: seq<byte>, respond: seq<Call> -> int, trace: seq<State>) {
    forall i :: 0 <= i < |trace| - 1 ==> StepsTo(machine, data, respond, trace[i], trace[i + 1])
  }

  /** No alternative before `k` fits, and nothing has been taken. */
  predicate Untaken(machine: seq<byte>, data: seq<byte>, at: seq<nat>, k: nat, s0: State, s: State)
    requires IsChoice(machine, at) && k < |at| && s0.dp < |data|
  {
    && s.pc == at[k] && s.dp == s0.dp && s.datalen == s0.datalen && s.calls == s0.calls && (k > 0 ==> !s.flags.matched)
    && forall i :: 0 <= i < k ==> !Fits(machine, data, at, i, s0.dp)
  }

  lemma ChoiceTries(machine: seq<byte>, data: seq<byte>, respond: seq<Call> -> int, at: seq<nat>, k: nat,
                    s0: State, s: State, t: State)
    requires IsChoice(machine, at) && k + 1 < |at| && InBounds(data, s) && s0.datalen - s0.dp >= 2 && s0.dp < |data|
    requires !LongTag(data[s0.dp]) && Untaken(machine, data, at, k, s0, s) && StepsTo(machine, data, respond, s, t)
    ensures if Fits(machine, data, at, k, s0.dp) then t.dp >= s0.dp + 2 && t.flags.matched && t.pc == at[k + 1]
            else Untaken(machine, data, at, k + 1, s0, t)
  {
    assert IsAlternative(machine, at, k);
    assert Compares(machine, data, s);
    MatchExact(machine, data, respond, s);
  }

  lemma ChoicePasses(machine: seq<byte>, data: seq<byte>, respond: seq<Call> -> int, at: seq<nat>, k: nat, s: State, t: State)
    requires IsChoice(machine, at) && 0 < k < |at| && InBounds(data, s) && s.pc == at[k] && s.flags.matched
    requires StepsTo(machine, data, respond, s, t)
    ensures t.dp == s.dp && t.calls == s.calls && t.flags.matched
    ensures t.pc == if k + 1 < |at| then at[k + 1] else at[k] + 1
  {
    if k + 1 < |at| { assert IsAlternative(machine, at, k); }
  }

  predicate Reached(machine: seq<byte>, at: seq<nat>, n: nat, s: State)
    requires IsChoice(machine, at) && n <= |at|
  {
    s.pc == if n < |at| then at[n] else at[n - 1] + 1
  }

  /** What the step at alternative `k`, or behind the last, makes of a state. */
  predicate Moves(machine: seq<byte>, data: seq<byte>, at: seq<nat>, k: nat, s0: State, s: State, t: State)
    requires IsChoice(machine, at) && k < |at| && s0.dp < |data|
  {
    && (k + 1 < |at| && Untaken(machine, data, at, k, s0, s) ==>
          if Fits(machine, data, at, k, s0.dp) then t.dp >= s0.dp + 2 && t.flags.matched && t.pc == at[k + 1]
          else Untaken(machine, data, at, k + 1, s0, t))
    && (k > 0 && s.pc == at[k] && s.flags.matched ==>
          t.dp == s.dp && t.calls == s.calls && t.flags.matched && Reached(machine, at, k + 1, t))
    && (k + 1 == |at| && s.pc == at[k] ==> s.flags.matched)
  }

  lemma ChoiceMoves(machine: seq<byte>, data: seq<byte>, respond: seq<Call> -> int, at: seq<nat>, k: nat,
                    s0: State, s: State, t: State)
    requires IsChoice(machine, at) && k < |at| && s0.datalen - s0.dp >= 2 && s0.dp < |data| && !LongTag(data[s0.dp])
    requires StepsTo(machine, data, respond, s, t)
    ensures Moves(machine, data, at, k, s0, s, t)
  {
    if k + 1 < |at| && Untaken(machine, data, at, k, s0, s) { ChoiceTries(machine, data, respond, at, k, s0, s, t); }
    if k > 0 && s.pc == at[k] && s.flags.matched { ChoicePasses(machine, data, respond, at, k, s, t); }
    if k + 1 == |at| && s.pc == at[k] { ChoiceEnds(machine, data, respond, s, t); }
  }

  lemma ChoiceEnds(machine: seq<byte>, data: seq<byte>, respond: seq<Call> -> int, s: State, t: State)
    requires s.pc < |machine| && machine[s.pc] == COND_FAIL && StepsTo(machine, data, respond, s, t)
    ensures s.flags.matched
  {
  }

  /** The alternative that has been taken: the first that fits. */
  predicate TakenBy(machine: seq<byte>, data: seq<byte>, at: seq<nat>, trace: seq<State>, i: nat, n: nat)
    requires IsChoice(machine, at) && i < n < |trace| && n <= |at| && i + 1 < |at| && trace[0].dp < |data|
  {
    && Fits(machine, data, at, i, trace[0].dp) && (forall j :: 0 <= j < i ==> !Fits(machine, data, at, j, trace[0].dp))
    && trace[i].dp == trace[0].dp && trace[i + 1].dp >= trace[0].dp + 2
    && trace[n].dp == trace[i + 1].dp && trace[n].calls == trace[i + 1].calls && trace[n].flags.matched
  }

  lemma {:induction false} ChoiceGoes(machine: seq<byte>, data: seq<byte>, at: seq<nat>, trace: seq<State>, n: nat)
    returns (i: nat)
    requires IsChoice(machine, at) && n < |trace| && n <= |at| && trace[0].dp < |data| && trace[0].pc == at[0]
    requires forall k :: 0 <= k < n ==> Moves(machine, data, at, k, trace[0], trace[k], trace[k + 1])
    ensures Reached(machine, at, n, trace[n])
    ensures if i < n then i + 1 < |at| && TakenBy(machine, data, at, trace, i, n)
            else n < |at| && Untaken(machine, data, at, n, trace[0], trace[n])
  {
    if n == 0 {
      i := 0;
    } else {
      i := ChoiceGoes(machine, data, at, trace, n - 1);
      assert Moves(machine, data, at, n - 1, trace[0], trace[n - 1], trace[n]);
      if i >= n - 1 {
        i := if Fits(machine, data, at, n - 1, trace[0].dp) then n - 1 else n;
      }
    }
  }

  /** A stretch of a run that comes to a choice with an element at the cursor. */
  predicate Chooses(machine: seq<byte>, data: seq<byte>, respond: seq<Call> -> int, at: seq<nat>, trace: seq<State>) {
    && trace != [] && IsChoice(machine, at) && Steps(machine, data, respond, trace) && trace[0].pc == at[0]
    && trace[0].datalen - trace[0].dp >= 2 && trace[0].dp < |data| && !LongTag(data[trace[0].dp])
  }

  lemma AllMove(machine: seq<byte>, data: seq<byte>, respond: seq<Call> -> int, at: seq<nat>, trace: seq<State>, n: nat)
    requires Chooses(machine, data, respond, at, trace) && n < |trace| && n <= |at|
    ensures forall k :: 0 <= k < n ==> Moves(machine, data, at, k, trace[0], trace[k], trace[k + 1])
  {
    forall k | 0 <= k < n ensures Moves(machine, data, at, k, trace[0], trace[k], trace[k + 1]) {
      assert StepsTo(machine, data, respond, trace[k], trace[k + 1]);
      ChoiceMoves(machine, data, respond, at, k, trace[0], trace[k], trace[k + 1]);
    }
  }

  /** A run that comes to a choice and passes it has taken exactly one element there, by the first
      alternative whose tag fits. */
  lemma ChoiceTakesOne(machine: seq<byte>, data: seq<byte>, respond: seq<Call> -> int, at: seq<nat>, trace: seq<State>)
    returns (i: nat)
    requires Chooses(machine, data, respond, at, trace) && |trace| == |at| + 1
    ensures i + 1 < |at| && TakenBy(machine, data, at, trace, i, |at|) && trace[|at|].pc == at[|at| - 1] + 1
  {
    AllMove(machine, data, respond, at, trace, |at|);
    i := ChoiceGoes(machine, data, at, trace, |at|);
  }

  /** If none fits, it ends there with a mismatch. */
  lemma ChoiceFails(machine: seq<byte>, data: seq<byte>, respond: seq<Call> -> int, at: seq<nat>, trace: seq<State>)
    requires Chooses(machine, data, respond, at, trace) && |trace| == |at| && InBounds(data, trace[|trace| - 1])
    requires forall i :: 0 <= i < |at| - 1 ==> !Fits(machine, data, at, i, trace[0].dp)
    ensures Step(machine, data, respond, trace[|trace| - 1]) == Failed(TagMismatch)
  {
    AllMove(machine, data, respond, at, trace, |at| - 1);
    var _ := ChoiceGoes(machine, data, at, trace, |at| - 1);
  }
}
