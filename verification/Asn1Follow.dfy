/** What an octet 0 taken for a tag does to the rest of a run: the machine is followed by the scanner
    that counts open elements, which then has one open element less. */
module Asn1Follow {
  import opened Bytes
  import opened Sequences
  import opened Asn1Grammar
  import opened Asn1Frames
  import opened Asn1Decoder
  import opened Asn1Runs
  import opened Asn1Decode
  import opened Asn1Exact
  import opened Wrappers
  import Scanner = Asn1Indefinite

  /** The lowest definite element open from `low` on, or behind the last. */
  function FirstDefinite(c: ConsStack, low: nat): (m: nat)
    requires low <= c.csp <= |c.ends|
    ensures low <= m <= c.csp && (m < c.csp ==> c.ends[m] != 0)
    ensures forall k :: low <= k < m ==> c.ends[k] == 0
    decreases c.csp - low
  {
    if low == c.csp || c.ends[low] != 0 then low else FirstDefinite(c, low + 1)
  }

  predicate OnTop(c: ConsStack, low: nat) { low <= c.csp <= |c.dps| == |c.ends| == |c.hdrs| }

  function HeaderAt(c: ConsStack, k: nat): int
    requires k < |c.dps| == |c.hdrs|
  {
    var start: int := c.dps[k];
    start - c.hdrs[k]
  }

  predicate ZeroAt(data: seq<byte>, at: int) { 0 <= at < |data| && data[at] == 0 }

  /** How far the scanner can follow, where `m` is the lowest definite element: that is passed when it
      is closed, and a 0 at once. */
  function PositionAt(data: seq<byte>, s: State, m: nat): int
    requires m <= s.stack.csp && OnTop(s.stack, m)
  {
    var c := s.stack;
    if m == c.csp then s.dp else if ZeroAt(data, HeaderAt(c, m)) then c.dps[m] else HeaderAt(c, m)
  }

  /** From `start` the scanner comes to `at` with `open` further elements open; or it does not get
      beyond `dp`. `all` are the octets it scans. */
  predicate Follows(all: seq<byte>, start: nat, at: int, dp: nat, open: Option<nat>) {
    && start <= at <= dp <= |all|
    && match open
       case Some(n) => Scanner.NestedEnd(all, start, 1) == Scanner.NestedEnd(all, at, n + 1)
       case None => var r := Scanner.NestedEnd(all, start, 1); r.Some? ==> r.value <= dp
  }

  predicate FollowsAt(all: seq<byte>, data: seq<byte>, start: nat, low: nat, m: nat, s: State, open: Option<nat>)
    requires low <= m <= s.stack.csp && OnTop(s.stack, low)
  {
    && Follows(all, start, PositionAt(data, s, m), s.dp, open)
    && (open.Some? ==> open.value <= m - low)
    && (m < s.stack.csp && ZeroAt(data, HeaderAt(s.stack, m)) && open.Some? ==>
          ZeroAt(data, HeaderAt(s.stack, m) + 1))
  }

  predicate FollowsState(all: seq<byte>, data: seq<byte>, start: nat, low: nat, s: State, open: Option<nat>) {
    OnTop(s.stack, low) && FollowsAt(all, data, start, low, FirstDefinite(s.stack, low), s, open)
  }

  /** The scanner has another number of elements open than the machine. */
  predicate Lost(s: State, low: nat, open: Option<nat>)
    requires OnTop(s.stack, low)
  {
    open != Some(FirstDefinite(s.stack, low) - low)
  }

  /** The next instruction takes an octet 0 for a tag, with no definite element open from `low` on. */
  predicate TakesZero(machine: seq<byte>, data: seq<byte>, s: State, low: nat)
    requires OnTop(s.stack, low)
  {
    Takes(machine, data, s) && data[s.dp] == 0 && FirstDefinite(s.stack, low) == s.stack.csp
  }

  /** The next instruction jumps only into an element that it opens. */
  predicate Straight(machine: seq<byte>, data: seq<byte>, s: State) {
    Takes(machine, data, s) && MatchJump(machine[s.pc]) ==> TagRead(machine, data, s).flags.cons
  }

  // ----- the scanner -----

  lemma SizeThere(all: seq<byte>, at: nat, n: nat, t: Tlv)
    requires at + n <= |all| && IsElement(t) && Encode(t) == all[at..at + n]
    ensures at + 2 <= |all| && all[at] != 0 && ElementSize(all[at..]) == Some(n)
  {
    SplitAt(all[at..], n);
    SliceOfDrop(all, at, n);
    ElementComplete(t, all[at..][n..]);
  }

  lemma PassElement(all: seq<byte>, at: nat, to: nat, level: nat, t: Tlv)
    requires at <= to <= |all| && level >= 1 && IsElement(t) && Encode(t) == all[at..to]
    ensures Scanner.NestedEnd(all, at, level) == Scanner.NestedEnd(all, to, level)
  {
    var n: nat := to - at;
    SizeThere(all, at, n, t);
    Scanner.PassElement(all, at, level, n);
    assert at + n == to;
  }

  lemma PassOpening(all: seq<byte>, at: nat, level: nat)
    requires level >= 1 && at + 2 <= |all| && Header(all, at, at + 2, false, 0)
    ensures Scanner.NestedEnd(all, at, level) == Scanner.NestedEnd(all, at + 2, level + 1)
  {
    assert all[at..][0] == all[at];
    Scanner.PassOpening(all, at, level, 1);
  }

  lemma PassEnd(all: seq<byte>, at: nat, level: nat)
    requires level >= 1 && at + 2 <= |all| && all[at] == 0
    ensures Scanner.NestedEnd(all, at, level)
            == if all[at + 1] == 0 then Scanner.NestedEnd(all, at + 2, level - 1) else None
  {
    assert all[at..][0] == all[at] && all[at..][1] == all[at + 1];
  }

  /** A 0 closes an element for the scanner, or stops it. */
  function AfterZero(next: byte, open: Option<nat>): Option<nat> {
    if open.None? || open.value == 0 || next != 0 then None else Some(open.value - 1)
  }

  lemma FollowZero(all: seq<byte>, start: nat, at: nat, dp: nat, open: Option<nat>)
    requires Follows(all, start, at, at, open) && at + 2 <= dp <= |all| && all[at] == 0
    ensures Follows(all, start, at + 2, dp, AfterZero(all[at + 1], open))
  {
    if open.Some? { PassEnd(all, at, open.value + 1); }
  }

  lemma FollowElement(all: seq<byte>, start: nat, at: nat, to: nat, open: Option<nat>, t: Tlv)
    requires start <= at <= to <= |all| && Follows(all, start, at, to, open)
    requires IsElement(t) && Encode(t) == all[at..to]
    ensures Follows(all, start, to, to, open)
  {
    if open.Some? { PassElement(all, at, to, open.value + 1, t); }
  }

  // ----- what an instruction does to the cursor and the stack -----

  predicate Agrees(all: seq<byte>, data: seq<byte>, dp: nat) {
    dp <= |all| && dp <= |data| && all[..dp] == data[..dp]
  }

  lemma AgreeAt(all: seq<byte>, data: seq<byte>, dp: nat, k: nat)
    requires Agrees(all, data, dp) && k < dp
    ensures all[k] == data[k]
  {
    assert all[..dp][k] == data[..dp][k];
  }

  lemma AgreeSlice(all: seq<byte>, data: seq<byte>, dp: nat, i: nat, j: nat)
    requires Agrees(all, data, dp) && i <= j <= dp
    ensures all[i..j] == data[i..j]
  {
    assert all[..dp][i..j] == all[i..j] && data[..dp][i..j] == data[i..j];
  }

  /** The octets of an element with another tag than 0, or a 0 and what its length octet covers. */
  ghost predicate Passed(data: seq<byte>, at: nat, to: nat) {
    && at + 2 <= to <= |data|
    && (data[at] != 0 ==> exists t :: IsElement(t) && Encode(t) == data[at..to])
    && (data[at] == data[at + 1] == 0 ==> to == at + 2)
  }

  lemma DefinitePassed(data: seq<byte>, at: nat, start: nat, to: nat)
    requires start <= to <= |data| && Header(data, at, start, true, to - start)
    ensures Passed(data, at, to)
  {
    if data[at] != 0 {
      var t := DefiniteOccurs(data, at, start, to - start);
    }
  }

  lemma LeafIsPassed(data: seq<byte>, u: State, n: nat)
    requires HeaderRead(data, u, false) && u.dp <= u.datalen <= |data| && SizeIs(data, u, n)
    ensures Passed(data, u.dp - u.hdr, u.dp + n)
  {
    SizeFits(data, u, false, n);
    if u.flags.indefinite {
      var e := LeafOccurs(data, u.dp - u.hdr, u.dp, u.datalen, false, n);
    } else {
      DefinitePassed(data, u.dp - u.hdr, u.dp, u.dp + n);
    }
  }

  lemma LeafMoves(machine: seq<byte>, data: seq<byte>, respond: seq<Call> -> int, s: State, t: State, frames: seq<Frame>)
    requires Valid(data, s, frames, false) && StepsTo(machine, data, respond, s, t) && Takes(machine, data, s)
    requires !TagRead(machine, data, s).flags.cons && !MatchJump(machine[s.pc])
    ensures t.stack == s.stack && Passed(data, s.dp, t.dp)
  {
    var u := TakenHeader(machine, data, s, frames);
    var v := ReadHeader(data, TagRead(machine, data, s)).s;
    var n := TakenSize(data, respond, machine[s.pc], v);
    LeafIsPassed(data, u, n);
  }

  /** The element a match has opened. */
  predicate Opens(data: seq<byte>, s: State, t: State) {
    && s.stack.csp < t.stack.csp == s.stack.csp + 1 <= |t.stack.dps| == |t.stack.ends| == |t.stack.hdrs|
    && |s.stack.dps| == |s.stack.ends| == |s.stack.hdrs| == |t.stack.dps|
    && (forall k :: 0 <= k < s.stack.csp ==>
          t.stack.dps[k] == s.stack.dps[k] && t.stack.ends[k] == s.stack.ends[k] && t.stack.hdrs[k] == s.stack.hdrs[k])
    && var k := s.stack.csp;
       s.dp + 2 <= t.dp <= |data| && t.stack.dps[k] == t.dp && t.stack.hdrs[k] == t.dp - s.dp
       && (t.stack.ends[k] == 0 ==> Header(data, s.dp, t.dp, false, 0))
       && (data[s.dp] == data[s.dp + 1] == 0 ==> t.dp == s.dp + 2)
  }

  lemma OpenStack(data: seq<byte>, s: State, u: State, t: State)
    requires InBounds(data, s) && s.dp + 2 <= |data| && s.stack.csp < STACK
    requires HeaderRead(data, u, data[s.dp] != 0) && s.dp == u.dp - u.hdr && u.dp <= u.datalen == s.datalen
    requires u.stack == s.stack && t.stack == Open(u).stack && t.dp == u.dp
    ensures Opens(data, s, t)
  {
  }

  lemma OpenMoves(machine: seq<byte>, data: seq<byte>, respond: seq<Call> -> int, s: State, t: State, frames: seq<Frame>)
    requires Valid(data, s, frames, false) && StepsTo(machine, data, respond, s, t) && Takes(machine, data, s)
    requires TagRead(machine, data, s).flags.cons
    ensures Opens(data, s, t)
  {
    var u := TakenHeader(machine, data, s, frames);
    var v := ReadHeader(data, TagRead(machine, data, s)).s;
    assert v == Open(u).(tdp := u.dp);
    if !MatchJump(machine[s.pc]) { TakeLeafResult(data, respond, machine[s.pc], v, v.len); }
    OpenStack(data, s, u, t);
  }

  /** The element an end instruction has closed. */
  ghost predicate Closes(data: seq<byte>, s: State, t: State) {
    && 0 < s.stack.csp <= |s.stack.dps| == |s.stack.ends| == |s.stack.hdrs| && t.stack == s.stack.(csp := s.stack.csp - 1)
    && var k := s.stack.csp - 1;
       var at := HeaderAt(s.stack, k);
       if s.stack.ends[k] == 0 then t.dp == s.dp + 2 <= |data| && data[s.dp] == data[s.dp + 1] == 0
       else t.dp == s.dp && 0 <= at && at + 2 <= s.stack.dps[k] <= s.dp && Passed(data, at, s.dp)
  }

  lemma CloseStack(data: seq<byte>, respond: seq<Call> -> int, op: byte, s: State, t: State, f: Frame)
    requires 0 < s.stack.csp <= STACK == |s.stack.dps| == |s.stack.ends| == |s.stack.hdrs|
    requires HoldsAt(s.stack, s.stack.csp - 1, f) && FrameIn(data, f, s.dp, s.datalen) && AtEnd(data, f, s.dp)
    requires Closed(respond, op, AtFrame(s, f), f) == Next(t)
    ensures Closes(data, s, t)
  {
    if f.definite { DefinitePassed(data, f.at, f.start, s.dp); }
  }

  lemma CloseMoves(machine: seq<byte>, data: seq<byte>, respond: seq<Call> -> int, s: State, t: State, frames: seq<Frame>)
    requires Valid(data, s, frames, false) && StepsTo(machine, data, respond, s, t) && t.stack.csp < s.stack.csp
    ensures Closes(data, s, t)
  {
    var f := EndFrame(machine, data, respond, s, t, frames);
    CloseStack(data, respond, machine[s.pc], s, t, f);
  }

  lemma Stays(machine: seq<byte>, data: seq<byte>, respond: seq<Call> -> int, s: State, t: State)
    requires StepsTo(machine, data, respond, s, t) && !Takes(machine, data, s) && t.stack.csp >= s.stack.csp
    ensures t.stack == s.stack && t.dp == s.dp
  {
  }

  // ----- one instruction followed -----

  /** The lowest definite element depends only on what is stacked. */
  lemma FirstIs(c: ConsStack, low: nat, m: nat)
    requires low <= m <= c.csp <= |c.ends| && (m < c.csp ==> c.ends[m] != 0)
    requires forall k :: low <= k < m ==> c.ends[k] == 0
    ensures FirstDefinite(c, low) == m
  {
  }

  lemma FollowPassed(all: seq<byte>, data: seq<byte>, start: nat, at: nat, to: nat, open: Option<nat>)
    requires Follows(all, start, at, to, open) && Agrees(all, data, to) && Passed(data, at, to) && data[at] != 0
    ensures Follows(all, start, to, to, open)
  {
    var t :| IsElement(t) && Encode(t) == data[at..to];
    AgreeSlice(all, data, to, at, to);
    FollowElement(all, start, at, to, open, t);
  }

  lemma StateFollows(all: seq<byte>, data: seq<byte>, start: nat, low: nat, m: nat, s: State, open: Option<nat>)
    requires OnTop(s.stack, low) && low <= m <= s.stack.csp && (m < s.stack.csp ==> s.stack.ends[m] != 0)
    requires forall k :: low <= k < m ==> s.stack.ends[k] == 0
    requires FollowsAt(all, data, start, low, m, s, open)
    ensures FollowsState(all, data, start, low, s, open)
    ensures Lost(s, low, open) <==> open != Some(m - low)
  {
    FirstIs(s.stack, low, m);
  }

  lemma LeafZero(all: seq<byte>, data: seq<byte>, start: nat, low: nat, s: State, t: State, open: Option<nat>)
    requires OnTop(s.stack, low) && FollowsAt(all, data, start, low, s.stack.csp, s, open) && Agrees(all, data, t.dp)
    requires t.stack == s.stack && Passed(data, s.dp, t.dp) && data[s.dp] == 0
    ensures FollowsAt(all, data, start, low, t.stack.csp, t, AfterZero(data[s.dp + 1], open))
  {
    AgreeAt(all, data, t.dp, s.dp);
    AgreeAt(all, data, t.dp, s.dp + 1);
    FollowZero(all, start, s.dp, t.dp, open);
    if AfterZero(data[s.dp + 1], open).None? { assert Follows(all, start, t.dp, t.dp, None); }
  }

  lemma LeafElement(all: seq<byte>, data: seq<byte>, start: nat, low: nat, s: State, t: State, open: Option<nat>)
    requires OnTop(s.stack, low) && FollowsAt(all, data, start, low, s.stack.csp, s, open) && Agrees(all, data, t.dp)
    requires t.stack == s.stack && Passed(data, s.dp, t.dp) && data[s.dp] != 0
    ensures FollowsAt(all, data, start, low, t.stack.csp, t, open)
  {
    FollowPassed(all, data, start, s.dp, t.dp, open);
  }

  lemma FollowsLeaf(all: seq<byte>, data: seq<byte>, start: nat, low: nat, s: State, t: State, open: Option<nat>)
    returns (after: Option<nat>)
    requires FollowsState(all, data, start, low, s, open) && Agrees(all, data, t.dp)
    requires t.stack == s.stack && Passed(data, s.dp, t.dp)
    ensures FollowsState(all, data, start, low, t, after)
    ensures Lost(t, low, after) <==>
            Lost(s, low, open) || (data[s.dp] == 0 && FirstDefinite(s.stack, low) == s.stack.csp)
  {
    var m := FirstDefinite(s.stack, low);
    after := open;
    if m < s.stack.csp {
      FollowsInside(all, data, start, low, m, s, t, open);
    } else if data[s.dp] == 0 {
      LeafZero(all, data, start, low, s, t, open);
      after := AfterZero(data[s.dp + 1], open);
    } else {
      LeafElement(all, data, start, low, s, t, open);
    }
    StateFollows(all, data, start, low, m, t, after);
  }

  /** Inside a definite element, opening or closing further ones leaves the scanner where it is. */
  lemma FollowsInside(all: seq<byte>, data: seq<byte>, start: nat, low: nat, m: nat, s: State, t: State, open: Option<nat>)
    requires OnTop(s.stack, low) && OnTop(t.stack, low) && low <= m < s.stack.csp && m < t.stack.csp
    requires FollowsAt(all, data, start, low, m, s, open) && s.dp <= t.dp <= |all|
    requires t.stack.dps[m] == s.stack.dps[m] && t.stack.hdrs[m] == s.stack.hdrs[m]
    ensures FollowsAt(all, data, start, low, m, t, open)
  {
  }

  lemma OpensIndefinite(all: seq<byte>, data: seq<byte>, start: nat, low: nat, s: State, t: State, open: Option<nat>)
    returns (after: Option<nat>)
    requires OnTop(s.stack, low) && FollowsAt(all, data, start, low, s.stack.csp, s, open) && Agrees(all, data, t.dp)
    requires Opens(data, s, t) && t.stack.ends[s.stack.csp] == 0
    ensures FollowsAt(all, data, start, low, t.stack.csp, t, after)
    ensures after == if open.Some? then Some(open.value + 1) else None
  {
    HeaderAgrees(all, data, s.dp, t.dp);
    after := open;
    if open.Some? {
      PassOpening(all, s.dp, open.value + 1);
      after := Some(open.value + 1);
    }
  }

  lemma OpensDefinite(all: seq<byte>, data: seq<byte>, start: nat, low: nat, s: State, t: State, open: Option<nat>)
    returns (after: Option<nat>)
    requires OnTop(s.stack, low) && FollowsAt(all, data, start, low, s.stack.csp, s, open) && Agrees(all, data, t.dp)
    requires Opens(data, s, t) && t.stack.ends[s.stack.csp] != 0
    ensures FollowsAt(all, data, start, low, s.stack.csp, t, after)
    ensures after == if data[s.dp] == 0 then AfterZero(data[s.dp + 1], open) else open
  {
    after := open;
    assert HeaderAt(t.stack, s.stack.csp) == s.dp;
    if data[s.dp] == 0 {
      AgreeAt(all, data, t.dp, s.dp);
      AgreeAt(all, data, t.dp, s.dp + 1);
      FollowZero(all, start, s.dp, t.dp, open);
      after := AfterZero(data[s.dp + 1], open);
    }
  }

  lemma LostMore(open: Option<nat>, k: nat)
    ensures (if open.Some? then Some(open.value + 1) else None) != Some(k + 1) <==> open != Some(k)
  {
  }

  lemma LostByZero(next: byte, open: Option<nat>, k: nat)
    requires open.Some? ==> open.value <= k
    ensures AfterZero(next, open) != Some(k)
  {
  }

  lemma StaysInside(all: seq<byte>, data: seq<byte>, start: nat, low: nat, s: State, t: State, open: Option<nat>)
    requires FollowsState(all, data, start, low, s, open) && OnTop(t.stack, low) && s.dp <= t.dp <= |all|
    requires var m := FirstDefinite(s.stack, low);
             && m < s.stack.csp && m < t.stack.csp
             && (forall k :: low <= k <= m ==> t.stack.ends[k] == s.stack.ends[k])
             && t.stack.dps[m] == s.stack.dps[m] && t.stack.hdrs[m] == s.stack.hdrs[m]
    ensures FollowsState(all, data, start, low, t, open) && (Lost(t, low, open) <==> Lost(s, low, open))
  {
    var m := FirstDefinite(s.stack, low);
    FollowsInside(all, data, start, low, m, s, t, open);
    StateFollows(all, data, start, low, m, t, open);
  }

  lemma OpenedIndefinite(all: seq<byte>, data: seq<byte>, start: nat, low: nat, s: State, t: State, open: Option<nat>)
    returns (after: Option<nat>)
    requires FollowsState(all, data, start, low, s, open) && Agrees(all, data, t.dp) && Opens(data, s, t)
    requires FirstDefinite(s.stack, low) == s.stack.csp && t.stack.ends[s.stack.csp] == 0
    ensures FollowsState(all, data, start, low, t, after) && data[s.dp] != 0
    ensures Lost(t, low, after) <==> Lost(s, low, open)
  {
    HeaderAgrees(all, data, s.dp, t.dp);
    after := OpensIndefinite(all, data, start, low, s, t, open);
    LostMore(open, s.stack.csp - low);
    StateFollows(all, data, start, low, t.stack.csp, t, after);
  }

  lemma OpenedDefinite(all: seq<byte>, data: seq<byte>, start: nat, low: nat, s: State, t: State, open: Option<nat>)
    returns (after: Option<nat>)
    requires FollowsState(all, data, start, low, s, open) && Agrees(all, data, t.dp) && Opens(data, s, t)
    requires FirstDefinite(s.stack, low) == s.stack.csp && t.stack.ends[s.stack.csp] != 0
    ensures FollowsState(all, data, start, low, t, after)
    ensures Lost(t, low, after) <==> Lost(s, low, open) || data[s.dp] == 0
  {
    after := OpensDefinite(all, data, start, low, s, t, open);
    LostByZero(data[s.dp + 1], open, s.stack.csp - low);
    StateFollows(all, data, start, low, s.stack.csp, t, after);
  }

  lemma FollowsOpen(all: seq<byte>, data: seq<byte>, start: nat, low: nat, s: State, t: State, open: Option<nat>)
    returns (after: Option<nat>)
    requires FollowsState(all, data, start, low, s, open) && Agrees(all, data, t.dp) && Opens(data, s, t)
    ensures FollowsState(all, data, start, low, t, after)
    ensures Lost(t, low, after) <==>
            Lost(s, low, open) || (data[s.dp] == 0 && FirstDefinite(s.stack, low) == s.stack.csp)
  {
    if FirstDefinite(s.stack, low) < s.stack.csp {
      StaysInside(all, data, start, low, s, t, open);
      after := open;
    } else if t.stack.ends[s.stack.csp] == 0 {
      after := OpenedIndefinite(all, data, start, low, s, t, open);
    } else {
      after := OpenedDefinite(all, data, start, low, s, t, open);
    }
  }

  lemma HeaderAgrees(all: seq<byte>, data: seq<byte>, at: nat, start: nat)
    requires Agrees(all, data, start) && Header(data, at, start, false, 0)
    ensures Header(all, at, start, false, 0) && data[at] != 0
  {
    AgreeAt(all, data, start, at);
    AgreeAt(all, data, start, at + 1);
  }

  lemma ClosesDefinite(all: seq<byte>, data: seq<byte>, start: nat, low: nat, s: State, t: State, open: Option<nat>)
    requires OnTop(s.stack, low) && Closes(data, s, t) && low <= t.stack.csp && Agrees(all, data, t.dp)
    requires FollowsAt(all, data, start, low, t.stack.csp, s, open) && s.stack.ends[t.stack.csp] != 0
    ensures FollowsAt(all, data, start, low, t.stack.csp, t, open)
  {
    var at := HeaderAt(s.stack, t.stack.csp);
    if !ZeroAt(data, at) { FollowPassed(all, data, start, at, s.dp, open); }
  }

  lemma ClosesIndefinite(all: seq<byte>, data: seq<byte>, start: nat, low: nat, s: State, t: State, open: Option<nat>)
    requires OnTop(s.stack, low) && Closes(data, s, t) && low <= t.stack.csp && Agrees(all, data, t.dp)
    requires FollowsAt(all, data, start, low, s.stack.csp, s, open) && s.stack.ends[t.stack.csp] == 0
    ensures FollowsAt(all, data, start, low, t.stack.csp, t, AfterZero(0, open))
  {
    AgreeAt(all, data, t.dp, s.dp);
    AgreeAt(all, data, t.dp, s.dp + 1);
    FollowZero(all, start, s.dp, t.dp, open);
  }

  lemma ClosedDefinite(all: seq<byte>, data: seq<byte>, start: nat, low: nat, s: State, t: State, open: Option<nat>)
    requires FollowsState(all, data, start, low, s, open) && Agrees(all, data, t.dp) && Closes(data, s, t)
    requires low <= t.stack.csp == FirstDefinite(s.stack, low)
    ensures FollowsState(all, data, start, low, t, open)
    ensures Lost(t, low, open) <==> Lost(s, low, open)
  {
    ClosesDefinite(all, data, start, low, s, t, open);
    StateFollows(all, data, start, low, t.stack.csp, t, open);
  }

  lemma ClosedIndefinite(all: seq<byte>, data: seq<byte>, start: nat, low: nat, s: State, t: State, open: Option<nat>)
    requires FollowsState(all, data, start, low, s, open) && Agrees(all, data, t.dp) && Closes(data, s, t)
    requires low <= t.stack.csp && FirstDefinite(s.stack, low) == s.stack.csp
    ensures FollowsState(all, data, start, low, t, AfterZero(0, open))
    ensures Lost(t, low, AfterZero(0, open)) <==> Lost(s, low, open)
  {
    ClosesIndefinite(all, data, start, low, s, t, open);
    StateFollows(all, data, start, low, t.stack.csp, t, AfterZero(0, open));
  }

  lemma FollowsClose(all: seq<byte>, data: seq<byte>, start: nat, low: nat, s: State, t: State, open: Option<nat>)
    returns (after: Option<nat>)
    requires FollowsState(all, data, start, low, s, open) && Agrees(all, data, t.dp) && Closes(data, s, t)
    requires low <= t.stack.csp
    ensures FollowsState(all, data, start, low, t, after)
    ensures Lost(t, low, after) <==> Lost(s, low, open)
  {
    var m := FirstDefinite(s.stack, low);
    after := open;
    if m < t.stack.csp {
      StaysInside(all, data, start, low, s, t, open);
    } else if m == t.stack.csp {
      ClosedDefinite(all, data, start, low, s, t, open);
    } else {
      ClosedIndefinite(all, data, start, low, s, t, open);
      after := AfterZero(0, open);
    }
  }

  /** What one instruction does to the scanner: only a 0 taken for a tag lets it lose the machine. */
  lemma FollowsStep(machine: seq<byte>, data: seq<byte>, respond: seq<Call> -> int, all: seq<byte>, start: nat, low: nat,
                    s: State, t: State, frames: seq<Frame>, open: Option<nat>) returns (after: Option<nat>)
    requires Valid(data, s, frames, false) && StepsTo(machine, data, respond, s, t) && Straight(machine, data, s)
    requires FollowsState(all, data, start, low, s, open) && Agrees(all, data, t.dp) && low <= t.stack.csp
    ensures FollowsState(all, data, start, low, t, after)
    ensures Lost(t, low, after) <==> Lost(s, low, open) || TakesZero(machine, data, s, low)
  {
    if Takes(machine, data, s) {
      if TagRead(machine, data, s).flags.cons {
        OpenMoves(machine, data, respond, s, t, frames);
        after := FollowsOpen(all, data, start, low, s, t, open);
      } else {
        LeafMoves(machine, data, respond, s, t, frames);
        after := FollowsLeaf(all, data, start, low, s, t, open);
      }
    } else if t.stack.csp < s.stack.csp {
      CloseMoves(machine, data, respond, s, t, frames);
      after := FollowsClose(all, data, start, low, s, t, open);
    } else {
      Stays(machine, data, respond, s, t);
      after := open;
    }
  }

  lemma CursorGrows(machine: seq<byte>, data: seq<byte>, respond: seq<Call> -> int, s: State, t: State, frames: seq<Frame>)
    requires Valid(data, s, frames, false) && StepsTo(machine, data, respond, s, t) && Straight(machine, data, s)
    ensures s.dp <= t.dp
  {
    if Takes(machine, data, s) {
      if TagRead(machine, data, s).flags.cons {
        OpenMoves(machine, data, respond, s, t, frames);
      } else {
        LeafMoves(machine, data, respond, s, t, frames);
      }
    } else if t.stack.csp < s.stack.csp {
      CloseMoves(machine, data, respond, s, t, frames);
    } else {
      Stays(machine, data, respond, s, t);
    }
  }

  // ----- whole runs followed -----

  lemma FollowsStart(all: seq<byte>, data: seq<byte>, s: State)
    requires OnTop(s.stack, s.stack.csp) && Agrees(all, data, s.dp)
    ensures FollowsState(all, data, s.dp, s.stack.csp, s, Some(0)) && !Lost(s, s.stack.csp, Some(0))
  {
  }

  lemma AgreesBefore(all: seq<byte>, data: seq<byte>, dp: nat, less: nat)
    requires Agrees(all, data, dp) && less <= dp
    ensures Agrees(all, data, less)
  {
    AgreeSlice(all, data, dp, 0, less);
  }

  /** Wherever the scanner follows to `s`, it follows to `t`, and `zero` says whether that makes it lose
      the machine. */
  ghost predicate Keeps(all: seq<byte>, data: seq<byte>, start: nat, low: nat, s: State, t: State, zero: bool) {
    && OnTop(s.stack, low) && OnTop(t.stack, low)
    && forall open ::
         FollowsState(all, data, start, low, s, open) ==> KeepsFrom(all, data, start, low, t, zero || Lost(s, low, open))
  }

  ghost predicate KeepsFrom(all: seq<byte>, data: seq<byte>, start: nat, low: nat, t: State, lost: bool)
    requires OnTop(t.stack, low)
  {
    exists after :: FollowsState(all, data, start, low, t, after) && (Lost(t, low, after) <==> lost)
  }

  lemma {:induction false} KeepsAll(all: seq<byte>, data: seq<byte>, start: nat, low: nat, trace: seq<State>,
                                    i: nat, j: nat, zeros: set<nat>) returns (open: Option<nat>)
    requires i <= j < |trace| && OnTop(trace[i].stack, low)
    requires forall k: nat :: i <= k < j ==> Keeps(all, data, start, low, trace[k], trace[k + 1], k in zeros)
    requires FollowsState(all, data, start, low, trace[i], Some(0)) && !Lost(trace[i], low, Some(0))
    ensures FollowsState(all, data, start, low, trace[j], open)
    ensures Lost(trace[j], low, open) <==> exists k: nat :: i <= k < j && k in zeros
  {
    if i == j {
      open := Some(0);
    } else {
      var was := KeepsAll(all, data, start, low, trace, i, j - 1, zeros);
      assert Keeps(all, data, start, low, trace[j - 1], trace[j - 1 + 1], j - 1 in zeros);
      assert KeepsFrom(all, data, start, low, trace[j], j - 1 in zeros || Lost(trace[j - 1], low, was));
      open :| FollowsState(all, data, start, low, trace[j], open)
              && (Lost(trace[j], low, open) <==> j - 1 in zeros || Lost(trace[j - 1], low, was));
    }
  }

  lemma {:induction false} Grows(trace: seq<State>, i: nat, j: nat)
    requires i <= j < |trace| && forall k :: i <= k < j ==> trace[k].dp <= trace[k + 1].dp
    ensures trace[i].dp <= trace[j].dp
  {
    if i < j { Grows(trace, i, j - 1); }
  }

  /** One step of a run. */
  lemma FollowsNext(machine: seq<byte>, data: seq<byte>, respond: seq<Call> -> int, all: seq<byte>, start: nat, low: nat,
                    s: State, t: State, frames: seq<Frame>)
    requires Valid(data, s, frames, false) && StepsTo(machine, data, respond, s, t) && Straight(machine, data, s)
    requires OnTop(s.stack, low) && OnTop(t.stack, low) && Agrees(all, data, t.dp)
    ensures Keeps(all, data, start, low, s, t, TakesZero(machine, data, s, low))
  {
    forall open | FollowsState(all, data, start, low, s, open)
      ensures KeepsFrom(all, data, start, low, t, TakesZero(machine, data, s, low) || Lost(s, low, open))
    {
      var after := FollowsStep(machine, data, respond, all, start, low, s, t, frames, open);
    }
  }

  lemma CursorNext(machine: seq<byte>, data: seq<byte>, respond: seq<Call> -> int, trace: seq<State>, k: nat)
    requires |data| <= MAX_DATA && Reaches(machine, data, respond, trace) && k < |trace| - 1
    requires Straight(machine, data, trace[k])
    ensures trace[k].dp <= trace[k + 1].dp
  {
    var frames := RunValid(machine, data, respond, trace, k);
    assert StepsTo(machine, data, respond, trace[k], trace[k + 1]);
    CursorGrows(machine, data, respond, trace[k], trace[k + 1], frames);
  }

  lemma KeepsNext(machine: seq<byte>, data: seq<byte>, respond: seq<Call> -> int, all: seq<byte>, start: nat, low: nat,
                  trace: seq<State>, k: nat)
    requires |data| <= MAX_DATA && Reaches(machine, data, respond, trace) && k < |trace| - 1
    requires Straight(machine, data, trace[k])
    requires OnTop(trace[k].stack, low) && OnTop(trace[k + 1].stack, low) && Agrees(all, data, trace[k + 1].dp)
    ensures Keeps(all, data, start, low, trace[k], trace[k + 1], TakesZero(machine, data, trace[k], low))
  {
    var frames := RunValid(machine, data, respond, trace, k);
    assert StepsTo(machine, data, respond, trace[k], trace[k + 1]);
    FollowsNext(machine, data, respond, all, start, low, trace[k], trace[k + 1], frames);
  }

  /** From the state `i` on the run keeps `low` elements open and jumps only into what it opens. */
  predicate Within(machine: seq<byte>, data: seq<byte>, trace: seq<State>, i: nat, low: nat) {
    && (forall k :: i <= k < |trace| ==> OnTop(trace[k].stack, low))
    && (forall k :: i <= k < |trace| - 1 ==> Straight(machine, data, trace[k]))
  }

  /** The instructions from there on that take a 0 for a tag while all that is open from `low` on is
      indefinite. */
  function Zeros(machine: seq<byte>, data: seq<byte>, trace: seq<State>, i: nat, low: nat): set<nat>
    requires Within(machine, data, trace, i, low)
  {
    set k: nat | i <= k < |trace| - 1 && TakesZero(machine, data, trace[k], low)
  }

  lemma CursorsGrow(machine: seq<byte>, data: seq<byte>, respond: seq<Call> -> int, trace: seq<State>, i: nat, low: nat)
    requires |data| <= MAX_DATA && Reaches(machine, data, respond, trace)
    requires Within(machine, data, trace, i, low)
    ensures forall k :: i <= k < |trace| ==> trace[k].dp <= trace[|trace| - 1].dp
  {
    forall k: nat | i <= k < |trace| - 1 ensures trace[k].dp <= trace[k + 1].dp {
      CursorNext(machine, data, respond, trace, k);
    }
    forall k: nat | i <= k < |trace| ensures trace[k].dp <= trace[|trace| - 1].dp { Grows(trace, k, |trace| - 1); }
  }

  lemma FollowsRun(machine: seq<byte>, data: seq<byte>, respond: seq<Call> -> int, all: seq<byte>,
                   trace: seq<State>, i: nat, low: nat) returns (open: Option<nat>)
    requires |data| <= MAX_DATA && Reaches(machine, data, respond, trace) && i < |trace|
    requires Within(machine, data, trace, i, low) && trace[i].stack.csp == low
    requires Agrees(all, data, trace[|trace| - 1].dp)
    ensures trace[i].dp <= trace[|trace| - 1].dp
    ensures FollowsState(all, data, trace[i].dp, low, trace[|trace| - 1], open)
    ensures Lost(trace[|trace| - 1], low, open) <==> Zeros(machine, data, trace, i, low) != {}
  {
    var start, last := trace[i].dp, |trace| - 1;
    CursorsGrow(machine, data, respond, trace, i, low);
    AgreesBefore(all, data, trace[last].dp, start);
    FollowsStart(all, data, trace[i]);
    var zeros := Zeros(machine, data, trace, i, low);
    forall k: nat | i <= k < last ensures Keeps(all, data, start, low, trace[k], trace[k + 1], k in zeros) {
      AgreesBefore(all, data, trace[last].dp, trace[k + 1].dp);
      KeepsNext(machine, data, respond, all, start, low, trace, k);
    }
    open := KeepsAll(all, data, start, low, trace, i, last, zeros);
  }

  // ----- what a caller sees -----

  /** The scanner that has not lost the machine finds the same end. */
  lemma FollowedToEnd(all: seq<byte>, start: nat, at: nat, open: Option<nat>)
    requires Follows(all, start, at, at, open) && (open.Some? ==> open.value == 0)
    requires at + 2 <= |all| && all[at] == all[at + 1] == 0
    ensures ContentsSize(all[start..]) == Some(at + 2 - start) <==> open.Some?
  {
    PassEnd(all, at, 1);
    var size := ContentsSize(all[start..]);
    if size.Some? {
      assert Scanner.NestedEnd(all, start, 1) == Some(start + size.value);
    }
  }

  lemma AlwaysOnTop(machine: seq<byte>, data: seq<byte>, respond: seq<Call> -> int, trace: seq<State>, k: nat)
    requires |data| <= MAX_DATA && Reaches(machine, data, respond, trace) && k < |trace|
    ensures OnTop(trace[k].stack, 0) && InBounds(data, trace[k])
  {
    var frames := RunValid(machine, data, respond, trace, k);
  }

  /** All jumps of the run go into elements that they open. */
  predicate AllStraight(machine: seq<byte>, data: seq<byte>, trace: seq<State>) {
    forall k :: 0 <= k < |trace| - 1 ==> Straight(machine, data, trace[k])
  }

  lemma WithinAll(machine: seq<byte>, data: seq<byte>, respond: seq<Call> -> int, trace: seq<State>)
    requires |data| <= MAX_DATA && Reaches(machine, data, respond, trace) && AllStraight(machine, data, trace)
    ensures Within(machine, data, trace, 0, 0)
  {
    forall k | 0 <= k < |trace| ensures OnTop(trace[k].stack, 0) { AlwaysOnTop(machine, data, respond, trace, k); }
  }

  lemma EndUnlessLost(all: seq<byte>, data: seq<byte>, start: nat, s: State, open: Option<nat>)
    requires FollowsState(all, data, start, s.stack.csp, s, open)
    requires s.dp + 2 <= |all| && all[s.dp] == all[s.dp + 1] == 0
    ensures start <= s.dp && (ContentsSize(all[start..]) == Some(s.dp + 2 - start) <==> !Lost(s, s.stack.csp, open))
  {
    FollowedToEnd(all, start, s.dp, open);
  }

  lemma FinishesEmpty(machine: seq<byte>, data: seq<byte>, respond: seq<Call> -> int, s: State)
    requires InBounds(data, s) && Step(machine, data, respond, s).Finished?
    ensures s.stack.csp == 0
  {
  }

  /** A run that completes has read a whole number of complete elements if and only if none of its
      instructions took an octet 0 for a tag while nothing definite was open. */
  lemma FinishedExact(machine: seq<byte>, data: seq<byte>, respond: seq<Call> -> int, trace: seq<State>)
    requires |data| <= MAX_DATA && Reaches(machine, data, respond, trace) && AllStraight(machine, data, trace)
    requires InBounds(data, trace[|trace| - 1]) && Step(machine, data, respond, trace[|trace| - 1]).Finished?
    ensures Within(machine, data, trace, 0, 0)
    ensures Complete(data[..trace[|trace| - 1].dp]) <==> Zeros(machine, data, trace, 0, 0) == {}
  {
    var s := trace[|trace| - 1];
    WithinAll(machine, data, respond, trace);
    FinishesEmpty(machine, data, respond, s);
    var all := data[..s.dp] + EOC;
    DropPrefix(data[..s.dp], EOC);
    var open := FollowsRun(machine, data, respond, all, trace, 0, 0);
    EndUnlessLost(all, data, 0, s, open);
    assert all[0..] == all;
    CompleteSize(data[..s.dp]);
  }

  /** What is saved for an element stays as long as that is open. */
  predicate SavedAlike(c: ConsStack, d: ConsStack, k: nat) {
    && k < |c.dps| == |c.ends| == |c.hdrs| && k < |d.dps| == |d.ends| == |d.hdrs|
    && c.dps[k] == d.dps[k] && c.ends[k] == d.ends[k] && c.hdrs[k] == d.hdrs[k]
  }

  lemma SavedStays(machine: seq<byte>, data: seq<byte>, respond: seq<Call> -> int, s: State, t: State, frames: seq<Frame>, k: nat)
    requires Valid(data, s, frames, false) && StepsTo(machine, data, respond, s, t) && Straight(machine, data, s)
    requires k < s.stack.csp && k < t.stack.csp
    ensures SavedAlike(s.stack, t.stack, k)
  {
    if Takes(machine, data, s) {
      if TagRead(machine, data, s).flags.cons {
        OpenMoves(machine, data, respond, s, t, frames);
      } else {
        LeafMoves(machine, data, respond, s, t, frames);
      }
    } else if t.stack.csp < s.stack.csp {
      CloseMoves(machine, data, respond, s, t, frames);
    } else {
      Stays(machine, data, respond, s, t);
    }
  }

  lemma SavedNext(machine: seq<byte>, data: seq<byte>, respond: seq<Call> -> int, trace: seq<State>, j: nat, k: nat)
    requires |data| <= MAX_DATA && Reaches(machine, data, respond, trace) && j < |trace| - 1
    requires Straight(machine, data, trace[j]) && OnTop(trace[j].stack, k + 1) && OnTop(trace[j + 1].stack, k + 1)
    ensures SavedAlike(trace[j].stack, trace[j + 1].stack, k)
  {
    var frames := RunValid(machine, data, respond, trace, j);
    assert StepsTo(machine, data, respond, trace[j], trace[j + 1]);
    SavedStays(machine, data, respond, trace[j], trace[j + 1], frames, k);
  }

  lemma {:induction false} SavedAll(trace: seq<State>, i: nat, j: nat, k: nat)
    requires i <= j < |trace| && OnTop(trace[i].stack, k + 1)
    requires forall n :: i <= n < j ==> SavedAlike(trace[n].stack, trace[n + 1].stack, k)
    ensures SavedAlike(trace[i].stack, trace[j].stack, k)
  {
    if i < j {
      SavedAll(trace, i, j - 1, k);
      assert SavedAlike(trace[j - 1].stack, trace[j - 1 + 1].stack, k);
    }
  }

  lemma SavedRun(machine: seq<byte>, data: seq<byte>, respond: seq<Call> -> int, trace: seq<State>, i: nat, k: nat)
    requires |data| <= MAX_DATA && Reaches(machine, data, respond, trace) && i < |trace|
    requires Within(machine, data, trace, i, k + 1)
    ensures SavedAlike(trace[i].stack, trace[|trace| - 1].stack, k)
  {
    forall n: nat | i <= n < |trace| - 1
      ensures SavedAlike(trace[n].stack, trace[n + 1].stack, k)
    {
      SavedNext(machine, data, respond, trace, n, k);
    }
    SavedAll(trace, i, |trace| - 1, k);
  }

  lemma FrameExact(data: seq<byte>, s: State, f: Frame)
    requires 0 < s.stack.csp <= |s.stack.dps| == |s.stack.ends| == |s.stack.hdrs|
    requires HoldsAt(s.stack, s.stack.csp - 1, f) && FrameIn(data, f, s.dp, s.datalen) && AtEnd(data, f, s.dp)
    requires !f.definite
    ensures Exact(data, EndCall(s)) <==> ContentsSize(data[f.start..]) == Some(s.dp + 2 - f.start)
  {
    FrameGiven(data, s, f);
    IndefiniteEnd(data, EndCall(s));
  }

  /** An element of indefinite length that the next instruction closes. */
  lemma IndefiniteCloses(machine: seq<byte>, data: seq<byte>, respond: seq<Call> -> int, s: State, t: State, frames: seq<Frame>)
    requires Valid(data, s, frames, false) && StepsTo(machine, data, respond, s, t) && t.stack.csp < s.stack.csp
    requires s.stack.ends[s.stack.csp - 1] == 0
    ensures var start := s.stack.dps[s.stack.csp - 1];
            && start <= s.dp && s.dp + 2 <= |data| && data[s.dp] == data[s.dp + 1] == 0
            && (Exact(data, EndCall(s)) <==> ContentsSize(data[start..]) == Some(s.dp + 2 - start))
  {
    var f := EndFrame(machine, data, respond, s, t, frames);
    FrameExact(data, s, f);
  }

  lemma ParserByZeros(machine: seq<byte>, data: seq<byte>, respond: seq<Call> -> int, trace: seq<State>, i: nat, low: nat)
    requires |data| <= MAX_DATA && Reaches(machine, data, respond, trace) && i < |trace|
    requires Within(machine, data, trace, i, low) && trace[i].stack.csp == low
    requires var s := trace[|trace| - 1];
             s.stack.csp == low && s.dp + 2 <= |data| && data[s.dp] == data[s.dp + 1] == 0
    ensures var start, dp := trace[i].dp, trace[|trace| - 1].dp;
            start <= dp && (ContentsSize(data[start..]) == Some(dp + 2 - start) <==> Zeros(machine, data, trace, i, low) == {})
  {
    var open := FollowsRun(machine, data, respond, data, trace, i, low);
    EndUnlessLost(data, data, trace[i].dp, trace[|trace| - 1], open);
  }

  lemma ClosesOne(machine: seq<byte>, data: seq<byte>, respond: seq<Call> -> int, s: State, t: State)
    requires StepsTo(machine, data, respond, s, t)
    ensures t.stack.csp + 1 >= s.stack.csp
  {
    if t.stack.csp < s.stack.csp { EndRuns(machine, data, respond, s, t); }
  }

  lemma RunSaved(machine: seq<byte>, data: seq<byte>, respond: seq<Call> -> int, trace: seq<State>, i: nat, low: nat)
    returns (frames: seq<Frame>)
    requires |data| <= MAX_DATA && Reaches(machine, data, respond, trace) && i < |trace|
    requires 0 < low && Within(machine, data, trace, i, low)
    ensures Valid(data, trace[|trace| - 1], frames, false)
    ensures OnTop(trace[|trace| - 1].stack, low) && SavedAlike(trace[i].stack, trace[|trace| - 1].stack, low - 1)
  {
    frames := RunValid(machine, data, respond, trace, |trace| - 1);
    SavedRun(machine, data, respond, trace, i, low - 1);
  }

  /** What the parser must find for the octets given to be the contents. */
  lemma EndByParser(machine: seq<byte>, data: seq<byte>, respond: seq<Call> -> int, first: State, s: State, t: State,
                    frames: seq<Frame>, low: nat)
    requires Valid(data, s, frames, false) && StepsTo(machine, data, respond, s, t) && t.stack.csp < low
    requires 0 < low && OnTop(s.stack, low) && SavedAlike(first.stack, s.stack, low - 1)
    requires first.stack.dps[low - 1] == first.dp && first.stack.ends[low - 1] == 0
    ensures s.stack.csp == low && first.dp <= s.dp && s.dp + 2 <= |data| && data[s.dp] == data[s.dp + 1] == 0
    ensures Exact(data, EndCall(s)) <==> ContentsSize(data[first.dp..]) == Some(s.dp + 2 - first.dp)
  {
    ClosesOne(machine, data, respond, s, t);
    IndefiniteCloses(machine, data, respond, s, t, frames);
  }

  /** The octets given at the end of an element of indefinite length are its contents if and only if,
      from its opening on, no instruction took an octet 0 for a tag in it or in elements of indefinite
      length directly within each other in it. */
  lemma IndefiniteEndExact(machine: seq<byte>, data: seq<byte>, respond: seq<Call> -> int, trace: seq<State>, i: nat, low: nat,
                           t: State)
    requires |data| <= MAX_DATA && Reaches(machine, data, respond, trace) && i < |trace|
    requires 0 < low && Within(machine, data, trace, i, low) && trace[i].stack.csp == low
    requires trace[i].stack.dps[low - 1] == trace[i].dp && trace[i].stack.ends[low - 1] == 0
    requires StepsTo(machine, data, respond, trace[|trace| - 1], t) && t.stack.csp < low
    ensures OnTop(trace[|trace| - 1].stack, low)
    ensures Exact(data, EndCall(trace[|trace| - 1])) <==> Zeros(machine, data, trace, i, low) == {}
  {
    var frames := RunSaved(machine, data, respond, trace, i, low);
    EndByParser(machine, data, respond, trace[i], trace[|trace| - 1], t, frames, low);
    ParserByZeros(machine, data, respond, trace, i, low);
  }
}
