/** The decoder: a bytecode machine with a stack of open elements and a stack of return addresses,
    both ten deep. */
module Asn1Decoder {
  import opened Bytes
  import opened Asn1Grammar
  import opened Asn1Frames
  import opened Wrappers

  const MAX_DATA: nat := 65535
  const STACK: nat := 10
  const SIZE_T: nat := 0x1_0000_0000_0000_0000

  // ----- opcodes -----

  const LAST_MATCH: byte := 0x1b
  const COND_FAIL: byte := 0x1c
  const COMPLETE: byte := 0x1d
  const ACT: byte := 0x1e
  const MAYBE_ACT: byte := 0x1f
  const END_SEQ: byte := 0x20
  const END_LAST: byte := 0x27
  const RETURN: byte := 0x28

  predicate MatchSkip(op: byte) { op % 2 == 1 }
  predicate MatchAct(op: byte) { op / 2 % 2 == 1 }
  predicate MatchJump(op: byte) { op / 4 % 2 == 1 }
  predicate MatchAny(op: byte) { op / 8 % 2 == 1 }
  predicate MatchCond(op: byte) { op / 16 % 2 == 1 }
  predicate EndSet(op: byte) { op % 2 == 1 }
  predicate EndOf(op: byte) { op / 2 % 2 == 1 }
  predicate EndAct(op: byte) { op / 4 % 2 == 1 }

  /** The length of an instruction, 0 for the opcodes the table leaves out. */
  function OpLength(op: byte): nat {
    if op <= LAST_MATCH then
      if op in {0x06, 0x07, 0x0c, 0x0d, 0x0e, 0x0f, 0x10, 0x12, 0x14, 0x16, 0x17} then 0
      else 1 + (if MatchAny(op) then 0 else 1) + (if MatchJump(op) then 1 else 0) + (if MatchAct(op) then 1 else 0)
    else if op == ACT || op == MAYBE_ACT then 2
    else if END_SEQ <= op <= END_LAST then 1 + (if EndOf(op) then 1 else 0) + (if EndAct(op) then 1 else 0)
    else if op in {COND_FAIL, COMPLETE, RETURN} then 1
    else 0
  }

  /** The tags differ in no bit but the constructed one, and in that one only when the instruction
      has it. */
  predicate TagMatches(optag: byte, tag: byte) {
    tag == optag || (Constructed(optag) && tag == optag - 32)
  }

  // ----- what the actions are given -----

  datatype Call =
    | OnMatch(hdr: nat, tag: byte, from: nat, len: nat)
    | OnEnd(hdr: nat, from: nat, len: nat)
    | Plain(hdr: nat, tag: byte, from: nat, len: nat)

  ghost predicate IsContents(data: seq<byte>, from: nat, t: Tlv, hdr: nat, len: nat) {
    hdr <= from && IsElement(t) && Occurs(data, from - hdr, t) && ContentsAre(t, hdr, len)
  }

  /** An indefinite element taken whole: the action is given its end-of-contents octets too. */
  ghost predicate IsLeaf(data: seq<byte>, from: nat, t: Tlv, hdr: nat, len: nat) {
    hdr <= from && IsElement(t) && Occurs(data, from - hdr, t) &&
    t.Indefinite? && hdr == |t.tag| + 1 && len == |EncodeAll(t.items)|
  }

  /** The octets handed over are the contents of one complete element that is in the data where
      its header says. An action on an indefinite element opened by a match comes before its end is
      known: it is given the length octet itself. */
  ghost predicate Exact(data: seq<byte>, c: Call) {
    match c
    case OnEnd(hdr, from, len) => exists t :: IsContents(data, from, t, hdr, len)
    case OnMatch(hdr, tag, from, len) =>
      || (exists t: Tlv :: t.tag == [tag] && IsContents(data, from, t, hdr, len))
      || (exists t: Tlv :: t.tag == [tag] && IsLeaf(data, from, t, hdr, len))
      || (hdr <= from && Header(data, from - hdr, from, false, 0) && tag == data[from - hdr] && len == INDEFINITE)
    case Plain(_, _, _, _) => true
  }

  ghost predicate AllExact(data: seq<byte>, calls: seq<Call>) { forall i :: 0 <= i < |calls| ==> Exact(data, calls[i]) }

  /** The element a match takes whole. */
  lemma LeafExact(data: seq<byte>, at: nat, start: nat, datalen: nat, definite: bool, n: nat)
    requires start + n <= datalen <= |data| && Header(data, at, start, definite, n) && data[at] != 0
    requires !definite ==> ContentsSize(data[..datalen][start..]) == Some(n)
    ensures Exact(data, OnMatch(start - at, data[at], start, n))
  {
    var t := LeafOccurs(data, at, start, datalen, definite, n);
    if definite {
      assert IsContents(data, start, t, start - at, n);
    } else {
      assert IsLeaf(data, start, t, start - at, n);
    }
  }

  // ----- the machine -----

  datatype Failure =
    | DataOverrun | MachineOverrun | JumpUnderflow | JumpOverflow | ConsUnderflow | ConsOverflow | ConsLength
    | MissingEoc | InvalidEoc | LengthTooLong | IndefinitePrimitive | IndefiniteContents
    | TagMismatch | LongTagNotSupported | ReservedOpcode | StacksNotEmpty | TooMuchData

  datatype Flags = Flags(indefinite: bool, matched: bool, lastMatched: bool, cons: bool)

  /** The three arrays that hold the open elements' contents, ends to go back to and header sizes. */
  datatype ConsStack = ConsStack(csp: nat, dps: seq<nat>, ends: seq<nat>, hdrs: seq<nat>)

  /** The local variables of the decoder, and the action calls made so far. */
  datatype State = State(pc: nat, dp: nat, tdp: nat, len: nat, datalen: nat, tag: byte, hdr: nat,
                         flags: Flags, stack: ConsStack, jsp: nat, jumps: seq<nat>, calls: seq<Call>)

  datatype Matching = Skipped(s: State) | Taken(s: State) | Mismatched(why: Failure)

  datatype Outcome = Next(s: State) | Finished(s: State) | Failed(why: Failure) | Refused(code: int)

  predicate InBounds(data: seq<byte>, s: State) {
    && s.dp <= s.datalen <= |data| <= MAX_DATA
    && s.stack.csp <= STACK && |s.stack.dps| == |s.stack.ends| == |s.stack.hdrs| == STACK
    && s.jsp <= STACK && |s.jumps| == STACK
  }

  /** The length octets at the cursor: at most two after the first, and what they cover must be
      there. The indefinite form leaves the length at the octet itself. */
  function ReadLength(data: seq<byte>, s: State): (m: Matching)
    requires s.dp < s.datalen <= |data|
    ensures !m.Skipped?
  {
    var first, dp := data[s.dp], s.dp + 1;
    if first == INDEFINITE then
      if !Constructed(s.tag) then Mismatched(IndefinitePrimitive)
      else if s.datalen - dp < 2 then Mismatched(DataOverrun)
      else Taken(s.(dp := dp, len := first, flags := s.flags.(indefinite := true)))
    else
      var n := if first > 0x7f then first - 0x80 else 0;
      if n > 2 then Mismatched(LengthTooLong)
      else if n > s.datalen - dp then Mismatched(DataOverrun)
      else
        var len := if n == 0 then first else BigEndian(data[dp..dp + n]);
        if len > s.datalen - dp - n then Mismatched(DataOverrun)
        else Taken(s.(dp := dp + n, len := len, hdr := s.hdr + n))
  }

  /** Stacks the positions of a compound element. */
  function Open(s: State): State
    requires s.stack.csp < STACK && |s.stack.dps| == |s.stack.ends| == |s.stack.hdrs| == STACK
  {
    var c := s.stack;
    var k := c.csp;
    var end := if s.flags.indefinite then 0 else s.datalen % 0x1_0000;
    s.(stack := ConsStack(k + 1, c.dps[k := s.dp % 0x1_0000], c.ends[k := end], c.hdrs[k := s.hdr % 0x100]),
       datalen := if s.flags.indefinite then s.datalen else s.dp + s.len)
  }

  /** Reads the rest of the header behind the tag. */
  function ReadHeader(data: seq<byte>, s: State): (m: Matching)
    requires InBounds(data, s) && s.dp < s.datalen
    ensures !m.Skipped? && (m.Taken? ==> InBounds(data, m.s) && m.s.pc == s.pc)
  {
    match ReadLength(data, s)
    case Mismatched(why) => Mismatched(why)
    case Skipped(_) => Mismatched(DataOverrun)
    case Taken(t) =>
      if !t.flags.cons then Taken(t.(tdp := t.dp))
      else if t.stack.csp >= STACK then Mismatched(ConsOverflow)
      else Taken(Open(t).(tdp := t.dp))
  }

  predicate CanRun(machine: seq<byte>, s: State, op: byte) {
    s.pc < |machine| && machine[s.pc] == op && OpLength(op) > 0 && s.pc + OpLength(op) <= |machine|
  }

  /** Compares the tag at the cursor with the instruction, and reads the header if they match. */
  function MatchTag(machine: seq<byte>, data: seq<byte>, op: byte, s: State): (m: Matching)
    requires InBounds(data, s) && CanRun(machine, s, op) && op <= LAST_MATCH
    ensures m.Taken? ==> InBounds(data, m.s) && m.s.pc == s.pc
  {
    if (MatchCond(op) && s.flags.matched) || (MatchSkip(op) && s.dp == s.datalen) then
      Skipped(s.(flags := s.flags.(lastMatched := false), pc := s.pc + OpLength(op)))
    else if s.datalen - s.dp < 2 then Mismatched(DataOverrun)
    else
      var tag := data[s.dp];
      var cons := !MatchAny(op) && Constructed(machine[s.pc + 1]);
      if LongTag(tag) then Mismatched(LongTagNotSupported)
      else if !MatchAny(op) && !TagMatches(machine[s.pc + 1], tag) then
        if MatchSkip(op)
        then Skipped(s.(tag := tag, hdr := 2, flags := Flags(false, false, false, cons), pc := s.pc + OpLength(op)))
        else Mismatched(TagMismatch)
      else ReadHeader(data, s.(tag := tag, hdr := 2, flags := Flags(false, true, false, cons), dp := s.dp + 1))
  }

  /** Calls an action, and goes on unless it refuses. */
  function Act(respond: seq<Call> -> int, c: Call, s: State): Outcome {
    var calls := s.calls + [c];
    if respond(calls) < 0 then Refused(respond(calls)) else Next(s.(calls := calls))
  }

  function Advance(o: Outcome, skip: nat, op: byte): Outcome {
    match o
    case Next(s) => Next(s.(dp := s.dp + skip, pc := s.pc + OpLength(op)))
    case _ => o
  }

  /** A match that takes its element: a leaf whole, a compound one only opened. */
  function TakeLeaf(data: seq<byte>, respond: seq<Call> -> int, op: byte, s: State): Outcome
    requires s.dp <= s.datalen <= |data|
  {
    var size := if !s.flags.cons && s.flags.indefinite then ContentsSize(data[..s.datalen][s.dp..]) else Some(s.len);
    match size
    case None => Failed(IndefiniteContents)
    case Some(len) =>
      var t := s.(len := len);
      Advance(if MatchAct(op) then Act(respond, OnMatch(t.hdr, t.tag, t.dp, len), t) else Next(t),
              if s.flags.cons then 0 else len, op)
  }

  /** A match that calls another part of the program. */
  function TakeJump(machine: seq<byte>, op: byte, s: State): Outcome
    requires CanRun(machine, s, op) && op <= LAST_MATCH && MatchJump(op) && !MatchAny(op) && |s.jumps| == STACK
  {
    if s.jsp >= STACK then Failed(JumpOverflow)
    else Next(s.(jumps := s.jumps[s.jsp := (s.pc + OpLength(op)) % 0x100], jsp := s.jsp + 1, pc := machine[s.pc + 2]))
  }

  function Taking(machine: seq<byte>, data: seq<byte>, respond: seq<Call> -> int, op: byte, s: State): Outcome
    requires InBounds(data, s) && CanRun(machine, s, op) && op <= LAST_MATCH
  {
    if MatchJump(op) then TakeJump(machine, op, s) else TakeLeaf(data, respond, op, s)
  }

  /** The end of a compound element, or of one round of a repeated one. */
  function End(machine: seq<byte>, data: seq<byte>, respond: seq<Call> -> int, op: byte, s: State): Outcome
    requires InBounds(data, s) && CanRun(machine, s, op) && END_SEQ <= op <= END_LAST
  {
    if EndSet(op) && !EndOf(op) && !s.flags.matched then Failed(TagMismatch)
    else if s.stack.csp == 0 then Failed(ConsUnderflow)
    else
      var k := s.stack.csp - 1;
      var start, end := s.stack.dps[k], s.datalen;
      var t := s.(tdp := start, hdr := s.stack.hdrs[k], len := end);
      if s.stack.ends[k] == 0 then
        if end - s.dp < 2 then Failed(DataOverrun)
        else if data[s.dp] != 0 then
          if EndOf(op) then Next(t.(pc := machine[s.pc + 1])) else Failed(MissingEoc)
        else if data[s.dp + 1] != 0 then Failed(InvalidEoc)
        else Close(respond, op, t, s.dp + 2, end, s.dp - start)
      else if s.dp < end && EndOf(op) then Next(t.(pc := machine[s.pc + 1]))
      else if s.dp != end then Failed(ConsLength)
      else Close(respond, op, t, s.dp, s.stack.ends[k], end - start)
  }

  function Close(respond: seq<Call> -> int, op: byte, t: State, dp: nat, datalen: nat, len: int): Outcome
    requires t.stack.csp > 0
  {
    var size: nat := len % SIZE_T;
    var u := t.(dp := dp, datalen := datalen, len := size, stack := t.stack.(csp := t.stack.csp - 1));
    Advance(if EndAct(op) then Act(respond, OnEnd(t.hdr, t.tdp, size), u) else Next(u), 0, op)
  }

  /** One instruction. */
  function Step(machine: seq<byte>, data: seq<byte>, respond: seq<Call> -> int, s: State): Outcome
    requires InBounds(data, s)
  {
    if s.pc >= |machine| then Failed(MachineOverrun)
    else
      var op := machine[s.pc];
      if OpLength(op) == 0 then Failed(ReservedOpcode)
      else if s.pc + OpLength(op) > |machine| then Failed(MachineOverrun)
      else if op <= LAST_MATCH then
        match MatchTag(machine, data, op, s)
        case Skipped(t) => Next(t)
        case Mismatched(why) => Failed(why)
        case Taken(t) => Taking(machine, data, respond, op, t)
      else if op == COND_FAIL then
        if s.flags.matched then Next(s.(pc := s.pc + 1)) else Failed(TagMismatch)
      else if op == COMPLETE then
        if s.jsp != 0 || s.stack.csp != 0 then Failed(StacksNotEmpty) else Finished(s)
      else if END_SEQ <= op <= END_LAST then End(machine, data, respond, op, s)
      else if op == RETURN then
        if s.jsp == 0 then Failed(JumpUnderflow)
        else Next(s.(pc := s.jumps[s.jsp - 1], jsp := s.jsp - 1,
                     flags := s.flags.(matched := true, lastMatched := true)))
      else if op == MAYBE_ACT && !s.flags.lastMatched then Next(s.(pc := s.pc + 2))
      else Advance(Act(respond, Plain(s.hdr, s.tag, s.tdp, s.len), s), 0, op)
  }

  /** Nothing read, nothing open. */
  function Start(data: seq<byte>): State {
    var zeros := seq(STACK, i => 0);
    State(0, 0, 0, 0, |data|, 0, 0, Flags(false, false, false, false),
          ConsStack(0, zeros, zeros, zeros), 0, zeros, [])
  }
}
