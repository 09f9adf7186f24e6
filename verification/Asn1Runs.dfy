/** What every instruction of the decoder keeps, and so every run. */
module Asn1Runs {
  import opened Bytes
  import opened Asn1Grammar
  import opened Asn1Frames
  import opened Asn1Decoder
  import opened Wrappers

  /** The saved cursors and ends are those of the open elements; an end of 0 marks the indefinite
      form, because no definite element saves it. */
  predicate HoldsAt(c: ConsStack, k: nat, f: Frame)
    requires k < |c.dps| == |c.ends| == |c.hdrs|
  {
    && c.dps[k] == f.start && f.at <= f.start && c.hdrs[k] == f.start - f.at
    && f.outer > 0 && c.ends[k] == if f.definite then f.outer else 0
  }

  predicate Holds(c: ConsStack, frames: seq<Frame>) {
    && c.csp == |frames| <= STACK && |c.dps| == |c.ends| == |c.hdrs| == STACK
    && forall k :: 0 <= k < c.csp ==> HoldsAt(c, k, frames[k])
  }

  ghost predicate Stacks(data: seq<byte>, s: State, frames: seq<Frame>, clean: bool) {
    && |data| <= MAX_DATA && Holds(s.stack, frames)
    && |s.jumps| == STACK && s.jsp <= STACK
    && (clean ==> AllExact(data, s.calls))
  }

  /** The stacks are within their ten entries and hold the open elements; the elements are nested
      around the cursor; and in a clean run every action so far was given the contents of one
      element. */
  ghost predicate Valid(data: seq<byte>, s: State, frames: seq<Frame>, clean: bool) {
    Stacks(data, s, frames, clean) && Nested(data, frames, s.dp, s.datalen, clean)
  }

  /** The header of an element has just been read and the cursor is at its contents. */
  ghost predicate HeaderRead(data: seq<byte>, s: State, clean: bool) {
    && 2 <= s.hdr <= s.dp && s.hdr <= 4 && s.dp <= |data|
    && Header(data, s.dp - s.hdr, s.dp, !s.flags.indefinite, s.len) && s.tag == data[s.dp - s.hdr]
    && (clean ==> s.tag != 0)
    && if s.flags.indefinite then s.len == INDEFINITE else s.dp + s.len <= s.datalen
  }

  ghost predicate BeforeOpen(data: seq<byte>, s: State, frames: seq<Frame>, clean: bool) {
    && HeaderRead(data, s, clean) && Stacks(data, s, frames, clean)
    && s.dp <= s.datalen && Nested(data, frames, s.dp - s.hdr, s.datalen, clean)
  }

  lemma ValidInBounds(data: seq<byte>, s: State, frames: seq<Frame>, clean: bool)
    requires Valid(data, s, frames, clean)
    ensures InBounds(data, s)
  {
    NestedBounds(data, frames, s.dp, s.datalen, clean);
  }

  // ----- reading a header -----

  lemma ReadLengthIsHeader(data: seq<byte>, s: State)
    requires InBounds(data, s) && 1 <= s.dp < s.datalen && ReadLength(data, s).Taken?
    requires s.tag == data[s.dp - 1] && !LongTag(s.tag) && s.hdr == 2 && !s.flags.indefinite
    ensures var t := ReadLength(data, s).s;
            && s.dp <= t.dp <= s.datalen && t.hdr == t.dp - s.dp + 1
            && HeaderRead(data, t, s.tag != 0)
            && t == s.(dp := t.dp, len := t.len, hdr := t.hdr, flags := s.flags.(indefinite := t.flags.indefinite))
  {
    var t := ReadLength(data, s).s;
    if data[s.dp] > 0x80 {
      assert data[s.dp..t.dp][1..] == data[s.dp + 1..t.dp];
    }
  }

  function NewFrame(s: State): Frame
    requires s.hdr <= s.dp
  {
    Frame(s.dp - s.hdr, s.dp, if s.flags.indefinite then s.datalen else s.dp + s.len, s.datalen, !s.flags.indefinite)
  }

  lemma HoldsPush(c0: ConsStack, c: ConsStack, frames: seq<Frame>, f: Frame)
    requires Holds(c0, frames) && c0.csp < STACK && c.csp == c0.csp + 1
    requires |c.dps| == |c.ends| == |c.hdrs| == STACK && HoldsAt(c, c0.csp, f)
    requires c.dps[..c0.csp] == c0.dps[..c0.csp] && c.ends[..c0.csp] == c0.ends[..c0.csp]
    requires c.hdrs[..c0.csp] == c0.hdrs[..c0.csp]
    ensures Holds(c, frames + [f])
  {
    forall k | 0 <= k < c.csp ensures HoldsAt(c, k, (frames + [f])[k]) {
      if k < c0.csp {
        assert HoldsAt(c0, k, frames[k]);
        assert c.dps[k] == c.dps[..c0.csp][k] && c.ends[k] == c.ends[..c0.csp][k] && c.hdrs[k] == c.hdrs[..c0.csp][k];
      }
    }
  }

  lemma OpenStacks(data: seq<byte>, s: State, frames: seq<Frame>, clean: bool)
    requires BeforeOpen(data, s, frames, clean) && s.stack.csp < STACK
    ensures Stacks(data, Open(s), frames + [NewFrame(s)], clean)
  {
    NestedBounds(data, frames, s.dp - s.hdr, s.datalen, clean);
    HoldsPush(s.stack, Open(s).stack, frames, NewFrame(s));
  }

  lemma OpenKeeps(data: seq<byte>, s: State, frames: seq<Frame>, clean: bool)
    requires BeforeOpen(data, s, frames, clean) && s.stack.csp < STACK
    ensures Valid(data, Open(s), frames + [NewFrame(s)], clean)
  {
    OpenStacks(data, s, frames, clean);
    NestedBounds(data, frames, s.dp - s.hdr, s.datalen, clean);
    NestedPush(data, frames, NewFrame(s), clean);
  }

  /** The tag of an element has just been read. */
  ghost predicate Tagged(data: seq<byte>, s: State, frames: seq<Frame>, clean: bool) {
    && InBounds(data, s) && 1 <= s.dp < s.datalen && Stacks(data, s, frames, clean)
    && Nested(data, frames, s.dp - 1, s.datalen, clean)
    && s.tag == data[s.dp - 1] && !LongTag(s.tag) && (clean ==> s.tag != 0)
    && s.hdr == 2 && !s.flags.indefinite
  }

  lemma ReadHeaderBefore(data: seq<byte>, s: State, frames: seq<Frame>, clean: bool)
    requires Tagged(data, s, frames, clean) && ReadLength(data, s).Taken?
    ensures BeforeOpen(data, ReadLength(data, s).s, frames, clean)
  {
    ReadLengthIsHeader(data, s);
  }

  /** A leaf has its contents ahead. */
  lemma ReadHeaderLeaf(data: seq<byte>, s: State, frames: seq<Frame>, clean: bool)
    requires Tagged(data, s, frames, clean) && ReadHeader(data, s).Taken? && !s.flags.cons
    ensures BeforeOpen(data, ReadHeader(data, s).s, frames, clean)
  {
    ReadLengthIsHeader(data, s);
    ReadHeaderBefore(data, s, frames, clean);
  }

  /** A compound element is open. */
  lemma ReadHeaderOpen(data: seq<byte>, s: State, frames: seq<Frame>, clean: bool) returns (after: seq<Frame>)
    requires Tagged(data, s, frames, clean) && ReadHeader(data, s).Taken? && s.flags.cons
    ensures Valid(data, ReadHeader(data, s).s, after, clean)
  {
    ReadLengthIsHeader(data, s);
    ReadHeaderBefore(data, s, frames, clean);
    var t := ReadLength(data, s).s;
    OpenKeeps(data, t, frames, clean);
    after := frames + [NewFrame(t)];
  }

  /** And then what it was given is known. */
  lemma ReadHeaderRead(data: seq<byte>, s: State, frames: seq<Frame>, clean: bool)
    requires Tagged(data, s, frames, clean) && ReadHeader(data, s).Taken?
    ensures HeaderRead(data, ReadHeader(data, s).s, clean)
  {
    ReadLengthIsHeader(data, s);
  }

  // ----- taking a match -----

  predicate Takes(machine: seq<byte>, data: seq<byte>, s: State) {
    && InBounds(data, s) && s.pc < |machine| && machine[s.pc] <= LAST_MATCH
    && CanRun(machine, s, machine[s.pc]) && MatchTag(machine, data, machine[s.pc], s).Taken?
  }

  /** The next instruction takes an octet 0, the identifier of end-of-contents, for a tag, or jumps
      into an element it does not open. */
  predicate Irregular(machine: seq<byte>, data: seq<byte>, s: State) {
    && Takes(machine, data, s)
    && var t := MatchTag(machine, data, machine[s.pc], s).s;
    t.tag == 0 || (MatchJump(machine[s.pc]) && !t.flags.cons)
  }

  /** The state in which a match that takes its element reads the header. */
  function TagRead(machine: seq<byte>, data: seq<byte>, s: State): State
    requires Takes(machine, data, s)
  {
    var op := machine[s.pc];
    s.(tag := data[s.dp], hdr := 2, dp := s.dp + 1,
       flags := Flags(false, true, false, !MatchAny(op) && Constructed(machine[s.pc + 1])))
  }

  lemma TagReadTagged(machine: seq<byte>, data: seq<byte>, s: State, frames: seq<Frame>, clean: bool)
    requires Valid(data, s, frames, clean) && Takes(machine, data, s) && (clean ==> data[s.dp] != 0)
    ensures var t := TagRead(machine, data, s);
            && Tagged(data, t, frames, clean) && MatchTag(machine, data, machine[s.pc], s) == ReadHeader(data, t)
  {
  }

  /** Holds of `clean` and of the run being no longer clean alike. */
  lemma Soil(data: seq<byte>, s: State, frames: seq<Frame>, clean: bool)
    requires Valid(data, s, frames, clean)
    ensures Valid(data, s, frames, false)
  {
    NestedUnclean(data, frames, s.dp, s.datalen, clean);
  }

  lemma AllExactSnoc(data: seq<byte>, calls: seq<Call>, c: Call)
    requires AllExact(data, calls) && Exact(data, c)
    ensures AllExact(data, calls + [c])
  {
  }

  /** A state after an instruction that made at most one call. */
  lemma ValidAgain(data: seq<byte>, r: State, frames: seq<Frame>, clean: bool, calls: seq<Call>, c: Call)
    requires |data| <= MAX_DATA && Holds(r.stack, frames) && |r.jumps| == STACK && r.jsp <= STACK
    requires Nested(data, frames, r.dp, r.datalen, clean)
    requires clean ==> AllExact(data, calls) && Exact(data, c)
    requires r.calls == calls || r.calls == calls + [c]
    ensures Valid(data, r, frames, clean)
  {
    if clean { AllExactSnoc(data, calls, c); }
  }

  predicate SizeIs(data: seq<byte>, s: State, n: nat)
    requires s.dp <= s.datalen <= |data|
  {
    if s.flags.indefinite then ContentsSize(data[..s.datalen][s.dp..]) == Some(n) else n == s.len
  }

  lemma SizeFits(data: seq<byte>, s: State, clean: bool, n: nat)
    requires HeaderRead(data, s, clean) && s.dp <= s.datalen <= |data| && SizeIs(data, s, n)
    ensures s.dp + n <= s.datalen
  {
  }

  lemma LeafGiven(data: seq<byte>, s: State, n: nat)
    requires HeaderRead(data, s, true) && s.dp <= s.datalen <= |data| && SizeIs(data, s, n)
    ensures Exact(data, OnMatch(s.hdr, s.tag, s.dp, n))
  {
    LeafExact(data, s.dp - s.hdr, s.dp, s.datalen, !s.flags.indefinite, n);
  }

  lemma LeafGivenIf(data: seq<byte>, s: State, clean: bool, n: nat)
    requires HeaderRead(data, s, clean) && s.dp <= s.datalen <= |data| && SizeIs(data, s, n)
    ensures clean ==> Exact(data, OnMatch(s.hdr, s.tag, s.dp, n))
  {
    if clean { LeafGiven(data, s, n); }
  }

  lemma TakeLeafResult(data: seq<byte>, respond: seq<Call> -> int, op: byte, s: State, n: nat)
    requires s.dp <= s.datalen <= |data| && TakeLeaf(data, respond, op, s).Next?
    requires if s.flags.cons then n == s.len else SizeIs(data, s, n)
    ensures var r := TakeLeaf(data, respond, op, s).s;
            && r.stack == s.stack && r.jsp == s.jsp && r.jumps == s.jumps && r.datalen == s.datalen
            && r.dp == (if s.flags.cons then s.dp else s.dp + n)
            && (r.calls == s.calls || r.calls == s.calls + [OnMatch(s.hdr, s.tag, s.dp, n)])
  {
  }

  lemma LeafPassed(data: seq<byte>, s: State, frames: seq<Frame>, clean: bool, n: nat)
    requires HeaderRead(data, s, clean) && s.dp <= s.datalen <= |data| && SizeIs(data, s, n)
    requires Nested(data, frames, s.dp - s.hdr, s.datalen, clean)
    ensures Nested(data, frames, s.dp + n, s.datalen, clean)
  {
    SizeFits(data, s, clean, n);
    LeafAdvance(data, frames, s.dp - s.hdr, s.dp, s.datalen, clean, !s.flags.indefinite, n);
  }

  /** A leaf is passed, its contents given to the action if there is one. */
  lemma TakeLeafKeeps(data: seq<byte>, respond: seq<Call> -> int, op: byte, s: State, frames: seq<Frame>, clean: bool)
    requires BeforeOpen(data, s, frames, clean) && !s.flags.cons && s.datalen <= |data|
    requires TakeLeaf(data, respond, op, s).Next?
    ensures Valid(data, TakeLeaf(data, respond, op, s).s, frames, clean)
  {
    var n := TakenSize(data, respond, op, s);
    LeafPassed(data, s, frames, clean, n);
    LeafGivenIf(data, s, clean, n);
    ValidAgain(data, TakeLeaf(data, respond, op, s).s, frames, clean, s.calls, OnMatch(s.hdr, s.tag, s.dp, n));
  }

  lemma TakenSize(data: seq<byte>, respond: seq<Call> -> int, op: byte, s: State) returns (n: nat)
    requires s.dp <= s.datalen <= |data| && TakeLeaf(data, respond, op, s).Next? && !s.flags.cons
    ensures SizeIs(data, s, n)
    ensures var r := TakeLeaf(data, respond, op, s).s;
            && r.stack == s.stack && r.jsp == s.jsp && r.jumps == s.jumps && r.datalen == s.datalen && r.dp == s.dp + n
            && (r.calls == s.calls || r.calls == s.calls + [OnMatch(s.hdr, s.tag, s.dp, n)])
  {
    n := if s.flags.indefinite then ContentsSize(data[..s.datalen][s.dp..]).value else s.len;
    TakeLeafResult(data, respond, op, s, n);
  }

  lemma OpenedExact(data: seq<byte>, s: State)
    requires HeaderRead(data, s, true) && s.datalen <= |data|
    ensures Exact(data, OnMatch(s.hdr, s.tag, s.dp, s.len))
  {
    if !s.flags.indefinite {
      LeafExact(data, s.dp - s.hdr, s.dp, s.datalen, true, s.len);
    }
  }

  /** A compound element has been opened, and the action is given what its length says. */
  lemma TakeOpenKeeps(data: seq<byte>, respond: seq<Call> -> int, op: byte, s: State, frames: seq<Frame>, clean: bool)
    requires Valid(data, s, frames, clean) && HeaderRead(data, s, clean) && s.flags.cons && s.dp <= s.datalen <= |data|
    requires TakeLeaf(data, respond, op, s).Next?
    ensures Valid(data, TakeLeaf(data, respond, op, s).s, frames, clean)
  {
    TakeLeafResult(data, respond, op, s, s.len);
    if clean {
      OpenedExact(data, s);
      AllExactSnoc(data, s.calls, OnMatch(s.hdr, s.tag, s.dp, s.len));
    }
  }

  // ----- ending an element -----

  lemma HoldsPop(c: ConsStack, frames: seq<Frame>)
    requires Holds(c, frames) && c.csp > 0
    ensures Holds(c.(csp := c.csp - 1), frames[..c.csp - 1]) && HoldsAt(c, c.csp - 1, frames[c.csp - 1])
  {
    var d, below := c.(csp := c.csp - 1), frames[..c.csp - 1];
    forall k | 0 <= k < d.csp ensures HoldsAt(d, k, below[k]) {
      assert HoldsAt(c, k, frames[k]);
    }
  }

  lemma CloseResult(respond: seq<Call> -> int, op: byte, s: State, dp: nat, datalen: nat, len: nat)
    requires s.stack.csp > 0 && len < SIZE_T && Close(respond, op, s, dp, datalen, len).Next?
    ensures var r := Close(respond, op, s, dp, datalen, len).s;
            && r.stack == s.stack.(csp := s.stack.csp - 1) && r.jsp == s.jsp && r.jumps == s.jumps
            && r.dp == dp && r.datalen == datalen
            && (r.calls == s.calls || r.calls == s.calls + [OnEnd(s.hdr, s.tdp, len)])
  {
    assert len % SIZE_T == len;
  }

  function ClosedAt(s: State, f: Frame): nat { if f.definite then s.dp else s.dp + 2 }

  lemma EndExact(data: seq<byte>, f: Frame, t: Tlv, dp: nat)
    requires f.at <= f.start <= dp && IsElement(t) && Occurs(data, f.at, t) && ContentsAre(t, f.start - f.at, dp - f.start)
    ensures Exact(data, OnEnd(f.start - f.at, f.start, dp - f.start))
  {
    assert IsContents(data, f.start, t, f.start - f.at, dp - f.start);
  }

  lemma ClosePassed(data: seq<byte>, s: State, frames: seq<Frame>, clean: bool)
    requires Nested(data, frames, s.dp, s.datalen, clean) && frames != [] && AtEnd(data, frames[|frames| - 1], s.dp)
    ensures var f := frames[|frames| - 1];
            Nested(data, frames[..|frames| - 1], ClosedAt(s, f), f.outer, clean)
  {
    var t := NestedPop(data, frames, s.dp, s.datalen, clean);
  }

  lemma CloseExact(data: seq<byte>, s: State, f: Frame)
    requires FrameIn(data, f, s.dp, s.datalen) && data[f.at] != 0 && Complete(data[f.start..s.dp])
    requires AtEnd(data, f, s.dp)
    ensures Exact(data, OnEnd(f.start - f.at, f.start, s.dp - f.start))
  {
    var t := FrameIsElement(data, f, s.dp, s.datalen);
    EndExact(data, f, t, s.dp);
  }

  function Closed(respond: seq<Call> -> int, op: byte, s: State, f: Frame): Outcome
    requires s.stack.csp > 0
  {
    Close(respond, op, s, ClosedAt(s, f), f.outer, s.dp - f.start)
  }

  /** The innermost element is closed, and the action is given exactly its contents. */
  lemma CloseKeeps(data: seq<byte>, respond: seq<Call> -> int, op: byte, s: State, frames: seq<Frame>, clean: bool, f: Frame)
    requires Valid(data, s, frames, clean) && frames != [] && f == frames[|frames| - 1] && AtEnd(data, f, s.dp)
    requires f.at <= f.start <= s.dp <= |data| && s.tdp == f.start && s.hdr == f.start - f.at
    requires Closed(respond, op, s, f).Next?
    ensures Valid(data, Closed(respond, op, s, f).s, frames[..|frames| - 1], clean)
  {
    ClosePassed(data, s, frames, clean);
    if clean { CloseExact(data, s, f); }
    CloseResult(respond, op, s, ClosedAt(s, f), f.outer, s.dp - f.start);
    HoldsPop(s.stack, frames);
    ValidAgain(data, Closed(respond, op, s, f).s, frames[..|frames| - 1], clean, s.calls,
               OnEnd(s.hdr, s.tdp, s.dp - f.start));
  }

  // ----- an end instruction -----

  lemma TopFrame(data: seq<byte>, s: State, frames: seq<Frame>, clean: bool) returns (f: Frame)
    requires Valid(data, s, frames, clean) && s.stack.csp > 0
    ensures frames != [] && f == frames[|frames| - 1] && HoldsAt(s.stack, s.stack.csp - 1, f)
    ensures f.start <= s.dp <= f.end == s.datalen <= f.outer <= |data| && (!f.definite ==> f.end == f.outer)
  {
    f := frames[|frames| - 1];
  }

  /** Going round a repeated element again changes only what the next instruction is given. */
  lemma RoundKeeps(data: seq<byte>, s: State, frames: seq<Frame>, clean: bool, pc: nat, tdp: nat, len: nat, hdr: nat)
    requires Valid(data, s, frames, clean)
    ensures Valid(data, s.(tdp := tdp, hdr := hdr, len := len, pc := pc), frames, clean)
  {
  }

  /** What an end instruction finds out about the innermost element. */
  function AtFrame(s: State, f: Frame): State
    requires f.at <= f.start
  {
    s.(tdp := f.start, hdr := f.start - f.at, len := s.datalen)
  }

  /** At its end the element is closed, elsewhere the instruction goes round again. */
  lemma EndCloses(machine: seq<byte>, data: seq<byte>, respond: seq<Call> -> int, op: byte, s: State, f: Frame)
    requires InBounds(data, s) && CanRun(machine, s, op) && END_SEQ <= op <= END_LAST
    requires End(machine, data, respond, op, s).Next? && s.stack.csp > 0
    requires HoldsAt(s.stack, s.stack.csp - 1, f) && f.start <= s.dp <= s.datalen
    requires f.end == s.datalen && (!f.definite ==> f.outer == s.datalen)
    ensures if AtEnd(data, f, s.dp)
            then End(machine, data, respond, op, s) == Closed(respond, op, AtFrame(s, f), f)
            else EndOf(op) && End(machine, data, respond, op, s) == Next(AtFrame(s, f).(pc := machine[s.pc + 1]))
  {
  }

  lemma EndKeeps(machine: seq<byte>, data: seq<byte>, respond: seq<Call> -> int, op: byte, s: State,
                 frames: seq<Frame>, clean: bool) returns (after: seq<Frame>)
    requires Valid(data, s, frames, clean) && InBounds(data, s) && CanRun(machine, s, op) && END_SEQ <= op <= END_LAST
    requires End(machine, data, respond, op, s).Next?
    ensures Valid(data, End(machine, data, respond, op, s).s, after, clean)
  {
    var f := TopFrame(data, s, frames, clean);
    EndCloses(machine, data, respond, op, s, f);
    var t := AtFrame(s, f);
    if AtEnd(data, f, s.dp) {
      RoundKeeps(data, s, frames, clean, t.pc, t.tdp, t.len, t.hdr);
      CloseKeeps(data, respond, op, t, frames, clean, f);
      after := frames[..|frames| - 1];
    } else {
      RoundKeeps(data, s, frames, clean, machine[s.pc + 1], t.tdp, t.len, t.hdr);
      after := frames;
    }
  }

  // ----- one instruction -----

  lemma JumpKeeps(machine: seq<byte>, data: seq<byte>, op: byte, s: State, frames: seq<Frame>, clean: bool)
    requires Valid(data, s, frames, clean) && CanRun(machine, s, op) && op <= LAST_MATCH
    requires MatchJump(op) && !MatchAny(op) && TakeJump(machine, op, s).Next?
    ensures Valid(data, TakeJump(machine, op, s).s, frames, clean)
  {
  }

  lemma SkipKeeps(machine: seq<byte>, data: seq<byte>, op: byte, s: State, frames: seq<Frame>, clean: bool)
    requires Valid(data, s, frames, clean) && InBounds(data, s) && CanRun(machine, s, op) && op <= LAST_MATCH
    requires MatchTag(machine, data, op, s).Skipped?
    ensures Valid(data, MatchTag(machine, data, op, s).s, frames, clean)
  {
  }

  /** A jump into an element that was not opened. */
  lemma StrayKeeps(data: seq<byte>, s: State, frames: seq<Frame>)
    requires BeforeOpen(data, s, frames, false)
    ensures Valid(data, s, frames, false)
  {
    NestedBounds(data, frames, s.dp - s.hdr, s.datalen, false);
    NestedAdvance(data, frames, s.dp - s.hdr, s.datalen, false, s.dp, Indefinite([], []));
  }

  lemma TakingOpenKeeps(machine: seq<byte>, data: seq<byte>, respond: seq<Call> -> int, op: byte, u: State,
                        frames: seq<Frame>, clean: bool)
    requires Valid(data, u, frames, clean) && HeaderRead(data, u, clean) && u.flags.cons && InBounds(data, u)
    requires CanRun(machine, u, op) && op <= LAST_MATCH && Taking(machine, data, respond, op, u).Next?
    ensures Valid(data, Taking(machine, data, respond, op, u).s, frames, clean)
  {
    if MatchJump(op) {
      JumpKeeps(machine, data, op, u, frames, clean);
    } else {
      TakeOpenKeeps(data, respond, op, u, frames, clean);
    }
  }

  lemma TakeCompoundKeeps(machine: seq<byte>, data: seq<byte>, respond: seq<Call> -> int, op: byte, t: State,
                          frames: seq<Frame>, clean: bool) returns (after: seq<Frame>)
    requires Tagged(data, t, frames, clean) && ReadHeader(data, t).Taken? && t.flags.cons
    requires CanRun(machine, t, op) && op <= LAST_MATCH
    requires Taking(machine, data, respond, op, ReadHeader(data, t).s).Next?
    ensures Valid(data, Taking(machine, data, respond, op, ReadHeader(data, t).s).s, after, clean)
  {
    ReadHeaderRead(data, t, frames, clean);
    after := ReadHeaderOpen(data, t, frames, clean);
    TakingOpenKeeps(machine, data, respond, op, ReadHeader(data, t).s, after, clean);
  }

  lemma TakeOtherKeeps(machine: seq<byte>, data: seq<byte>, respond: seq<Call> -> int, op: byte, t: State,
                       frames: seq<Frame>, clean: bool)
    requires Tagged(data, t, frames, clean) && ReadHeader(data, t).Taken? && !t.flags.cons
    requires CanRun(machine, t, op) && op <= LAST_MATCH && (clean ==> !MatchJump(op))
    requires Taking(machine, data, respond, op, ReadHeader(data, t).s).Next?
    ensures Valid(data, Taking(machine, data, respond, op, ReadHeader(data, t).s).s, frames, clean)
  {
    var u := ReadHeader(data, t).s;
    ReadHeaderLeaf(data, t, frames, clean);
    if MatchJump(op) {
      StrayKeeps(data, u, frames);
      JumpKeeps(machine, data, op, u, frames, clean);
    } else {
      TakeLeafKeeps(data, respond, op, u, frames, clean);
    }
  }

  lemma TakeKeeps(machine: seq<byte>, data: seq<byte>, respond: seq<Call> -> int, s: State,
                  frames: seq<Frame>, clean: bool) returns (after: seq<Frame>)
    requires Valid(data, s, frames, clean) && Takes(machine, data, s) && (clean ==> !Irregular(machine, data, s))
    requires Step(machine, data, respond, s).Next?
    ensures Valid(data, Step(machine, data, respond, s).s, after, clean)
  {
    var op := machine[s.pc];
    var t := TagRead(machine, data, s);
    assert ReadHeader(data, t).s.tag == data[s.dp] && ReadHeader(data, t).s.flags.cons == t.flags.cons;
    TagReadTagged(machine, data, s, frames, clean);
    if t.flags.cons {
      after := TakeCompoundKeeps(machine, data, respond, op, t, frames, clean);
    } else {
      TakeOtherKeeps(machine, data, respond, op, t, frames, clean);
      after := frames;
    }
  }

  lemma PlainKeeps(machine: seq<byte>, data: seq<byte>, respond: seq<Call> -> int, s: State,
                   frames: seq<Frame>, clean: bool)
    requires Valid(data, s, frames, clean) && InBounds(data, s) && Step(machine, data, respond, s).Next?
    requires machine[s.pc] > LAST_MATCH && !(END_SEQ <= machine[s.pc] <= END_LAST)
    ensures Valid(data, Step(machine, data, respond, s).s, frames, clean)
  {
    if clean { AllExactSnoc(data, s.calls, Plain(s.hdr, s.tag, s.tdp, s.len)); }
  }

  /** Every instruction keeps the invariant, and a regular one keeps a clean run clean. */
  lemma StepKeeps(machine: seq<byte>, data: seq<byte>, respond: seq<Call> -> int, s: State,
                  frames: seq<Frame>, clean: bool) returns (after: seq<Frame>)
    requires Valid(data, s, frames, clean) && InBounds(data, s) && Step(machine, data, respond, s).Next?
    ensures Valid(data, Step(machine, data, respond, s).s, after, clean && !Irregular(machine, data, s))
  {
    var op := machine[s.pc];
    var still := clean && !Irregular(machine, data, s);
    if !still { Soil(data, s, frames, clean); }
    if op <= LAST_MATCH {
      if MatchTag(machine, data, op, s).Skipped? {
        SkipKeeps(machine, data, op, s, frames, still);
        after := frames;
      } else {
        after := TakeKeeps(machine, data, respond, s, frames, still);
      }
    } else if END_SEQ <= op <= END_LAST {
      after := EndKeeps(machine, data, respond, op, s, frames, still);
    } else {
      PlainKeeps(machine, data, respond, s, frames, still);
      after := frames;
    }
  }
}
