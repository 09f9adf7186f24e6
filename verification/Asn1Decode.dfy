/** Whole runs of the decoder. */
module Asn1Decode {
  import opened Bytes
  import opened Asn1Frames
  import opened Asn1Decoder
  import opened Asn1Runs

  /** The states of a run that no instruction has ended yet. */
  predicate Reaches(machine: seq<byte>, data: seq<byte>, respond: seq<Call> -> int, trace: seq<State>) {
    && trace != [] && trace[0] == Start(data)
    && forall i :: 0 <= i < |trace| - 1 ==> StepsTo(machine, data, respond, trace[i], trace[i + 1])
  }

  predicate StepsTo(machine: seq<byte>, data: seq<byte>, respond: seq<Call> -> int, s: State, t: State) {
    InBounds(data, s) && Step(machine, data, respond, s) == Next(t)
  }

  /** No instruction of the run took an octet 0 for a tag or jumped into an unopened element. */
  predicate Regular(machine: seq<byte>, data: seq<byte>, trace: seq<State>) {
    forall i :: 0 <= i < |trace| - 1 ==> !Irregular(machine, data, trace[i])
  }

  lemma StartValid(data: seq<byte>)
    requires |data| <= MAX_DATA
    ensures Valid(data, Start(data), [], true)
  {
    NothingComplete();
    assert data[..0] == [];
  }

  /** Every state of every run is within bounds with its elements properly nested; and as long as the
      run is regular, every action was given exactly the contents of one element. */
  lemma {:induction false} EveryRunKeeps(machine: seq<byte>, data: seq<byte>, respond: seq<Call> -> int, trace: seq<State>)
    returns (frames: seq<Frame>)
    requires |data| <= MAX_DATA && Reaches(machine, data, respond, trace)
    ensures Valid(data, trace[|trace| - 1], frames, Regular(machine, data, trace))
    decreases |trace|
  {
    if |trace| == 1 {
      StartValid(data);
      frames := [];
    } else {
      var before := trace[..|trace| - 1];
      var s := before[|before| - 1];
      frames := EveryRunKeeps(machine, data, respond, before);
      assert StepsTo(machine, data, respond, trace[|trace| - 2], trace[|trace| - 1]);
      frames := StepKeeps(machine, data, respond, s, frames, Regular(machine, data, before));
      RegularSnoc(machine, data, trace);
    }
  }

  lemma RegularSnoc(machine: seq<byte>, data: seq<byte>, trace: seq<State>)
    requires |trace| >= 2
    ensures var before := trace[..|trace| - 1];
            Regular(machine, data, trace) <==>
            Regular(machine, data, before) && !Irregular(machine, data, before[|before| - 1])
  {
    var before := trace[..|trace| - 1];
    if Regular(machine, data, before) && !Irregular(machine, data, before[|before| - 1]) {
      forall i | 0 <= i < |trace| - 1 ensures !Irregular(machine, data, trace[i]) {
        assert trace[i] == before[i];
      }
    }
    if Regular(machine, data, trace) {
      forall i | 0 <= i < |before| - 1 ensures !Irregular(machine, data, before[i]) {
        assert trace[i] == before[i];
      }
      assert !Irregular(machine, data, trace[|trace| - 2]);
    }
  }

  // ----- what a caller sees -----

  /** The cursor never passes the end of the innermost element nor that end the data, and neither
      stack passes its ten entries. */
  lemma EveryRunInBounds(machine: seq<byte>, data: seq<byte>, respond: seq<Call> -> int, trace: seq<State>)
    requires |data| <= MAX_DATA && Reaches(machine, data, respond, trace)
    ensures InBounds(data, trace[|trace| - 1])
  {
    var frames := EveryRunKeeps(machine, data, respond, trace);
    ValidInBounds(data, trace[|trace| - 1], frames, Regular(machine, data, trace));
  }

  predicate HoldsAll(c: ConsStack, frames: seq<Frame>) {
    && |frames| <= |c.dps| == |c.ends| == |c.hdrs|
    && forall k :: 0 <= k < |frames| ==> HoldsAt(c, k, frames[k])
  }

  lemma HoldsFewer(c: ConsStack, frames: seq<Frame>, n: nat)
    requires HoldsAll(c, frames) && n <= |frames|
    ensures HoldsAll(c, frames[..n])
  {
    forall k | 0 <= k < n ensures HoldsAt(c, k, frames[..n][k]) {
      assert HoldsAt(c, k, frames[k]);
    }
  }

  lemma {:induction false} SavedOutside(data: seq<byte>, c: ConsStack, frames: seq<Frame>, dp: nat, datalen: nat, i: nat)
    requires HoldsAll(c, frames) && Nested(data, frames, dp, datalen, false) && i < |frames|
    ensures c.dps[i] <= dp && (c.ends[i] != 0 ==> datalen <= c.ends[i] <= |data|)
    decreases |frames|
  {
    var top := |frames| - 1;
    assert HoldsAt(c, top, frames[top]);
    if i < top {
      HoldsFewer(c, frames, top);
      SavedOutside(data, c, frames[..top], frames[top].at, frames[top].outer, i);
    }
  }

  lemma {:induction false} SavedNest(data: seq<byte>, c: ConsStack, frames: seq<Frame>, dp: nat, datalen: nat, i: nat, j: nat)
    requires HoldsAll(c, frames) && Nested(data, frames, dp, datalen, false) && i < j < |frames|
    ensures c.dps[i] <= c.dps[j] && (c.ends[i] != 0 && c.ends[j] != 0 ==> c.ends[j] <= c.ends[i])
    decreases |frames|
  {
    var top := |frames| - 1;
    assert HoldsAt(c, top, frames[top]);
    HoldsFewer(c, frames, top);
    if j == top {
      SavedOutside(data, c, frames[..top], frames[top].at, frames[top].outer, i);
    } else {
      SavedNest(data, c, frames[..top], frames[top].at, frames[top].outer, i, j);
    }
  }

  /** What is saved nests in every run: contents start further on, and definite ends come no later,
      the deeper they are stacked. */
  lemma EveryRunNests(machine: seq<byte>, data: seq<byte>, respond: seq<Call> -> int, trace: seq<State>, i: nat, j: nat)
    requires |data| <= MAX_DATA && Reaches(machine, data, respond, trace)
    requires i < j < trace[|trace| - 1].stack.csp
    ensures InBounds(data, trace[|trace| - 1])
    ensures var c := trace[|trace| - 1].stack;
            c.dps[i] <= c.dps[j] && (c.ends[i] != 0 && c.ends[j] != 0 ==> c.ends[j] <= c.ends[i])
  {
    var s := trace[|trace| - 1];
    var frames := EveryRunKeeps(machine, data, respond, trace);
    EveryRunInBounds(machine, data, respond, trace);
    Soil(data, s, frames, Regular(machine, data, trace));
    SavedNest(data, s.stack, frames, s.dp, s.datalen, i, j);
  }

  /** In a regular run every action so far was given the contents of one element of the data. */
  lemma ActionsGetContents(machine: seq<byte>, data: seq<byte>, respond: seq<Call> -> int, trace: seq<State>, i: nat)
    requires |data| <= MAX_DATA && Reaches(machine, data, respond, trace) && Regular(machine, data, trace)
    requires i < |trace[|trace| - 1].calls|
    ensures Exact(data, trace[|trace| - 1].calls[i])
  {
    var frames := EveryRunKeeps(machine, data, respond, trace);
  }

  /** A regular run that completes has read a whole number of complete elements. */
  lemma FinishedIsComplete(machine: seq<byte>, data: seq<byte>, respond: seq<Call> -> int, trace: seq<State>)
    requires |data| <= MAX_DATA && Reaches(machine, data, respond, trace) && Regular(machine, data, trace)
    requires InBounds(data, trace[|trace| - 1]) && Step(machine, data, respond, trace[|trace| - 1]).Finished?
    ensures Complete(data[..trace[|trace| - 1].dp])
  {
    var frames := EveryRunKeeps(machine, data, respond, trace);
  }

  // ----- calls and returns -----

  /** An instruction changes the stack of return addresses only at its top. */
  lemma StepKeepsReturns(machine: seq<byte>, data: seq<byte>, respond: seq<Call> -> int, s: State, t: State, k: nat)
    requires StepsTo(machine, data, respond, s, t) && k < s.jsp
    ensures |t.jumps| == STACK && k < STACK && t.jumps[k] == s.jumps[k]
    ensures t.jsp <= s.jsp + 1 && s.jsp <= t.jsp + 1
  {
  }

  lemma {:induction false} CallKeepsReturn(machine: seq<byte>, data: seq<byte>, respond: seq<Call> -> int, trace: seq<State>, k: nat)
    requires trace != [] && k < STACK && |trace[0].jumps| == STACK
    requires forall i :: 0 <= i < |trace| - 1 ==> StepsTo(machine, data, respond, trace[i], trace[i + 1])
    requires forall i :: 0 <= i < |trace| ==> k < trace[i].jsp
    ensures |trace[|trace| - 1].jumps| == STACK && trace[|trace| - 1].jumps[k] == trace[0].jumps[k]
    decreases |trace|
  {
    if |trace| > 1 {
      var before := trace[..|trace| - 1];
      CallKeepsReturn(machine, data, respond, before, k);
      assert StepsTo(machine, data, respond, trace[|trace| - 2], trace[|trace| - 1]);
      StepKeepsReturns(machine, data, respond, before[|before| - 1], trace[|trace| - 1], k);
    }
  }

  /** The return that ends what a jump began goes on behind the jump, if that fits into the 8 bits of
      a return address, and with the element counted as matched. */
  lemma ReturnsBehindJump(machine: seq<byte>, data: seq<byte>, respond: seq<Call> -> int, caller: State,
                          trace: seq<State>, back: State)
    requires trace != [] && StepsTo(machine, data, respond, caller, trace[0])
    requires Takes(machine, data, caller) && MatchJump(machine[caller.pc])
    requires forall i :: 0 <= i < |trace| - 1 ==> StepsTo(machine, data, respond, trace[i], trace[i + 1])
    requires forall i :: 0 <= i < |trace| ==> caller.jsp < trace[i].jsp
    requires StepsTo(machine, data, respond, trace[|trace| - 1], back) && back.jsp == caller.jsp
    ensures back.pc == (caller.pc + OpLength(machine[caller.pc])) % 0x100
    ensures back.flags.matched && back.flags.lastMatched
  {
    CallKeepsReturn(machine, data, respond, trace, caller.jsp);
    JumpPushes(machine, data, respond, caller, trace[0]);
    ReturnPops(machine, data, respond, trace[|trace| - 1], back);
  }

  lemma JumpPushes(machine: seq<byte>, data: seq<byte>, respond: seq<Call> -> int, s: State, t: State)
    requires StepsTo(machine, data, respond, s, t) && Takes(machine, data, s) && MatchJump(machine[s.pc])
    ensures |t.jumps| == STACK && s.jsp < STACK && t.jsp == s.jsp + 1
    ensures t.jumps[s.jsp] == (s.pc + OpLength(machine[s.pc])) % 0x100
  {
  }

  /** Only a return takes from that stack. */
  lemma ReturnPops(machine: seq<byte>, data: seq<byte>, respond: seq<Call> -> int, s: State, t: State)
    requires StepsTo(machine, data, respond, s, t) && t.jsp < s.jsp
    ensures t.jsp == s.jsp - 1 && t.jsp < |s.jumps| && t.pc == s.jumps[t.jsp]
    ensures t.flags.matched && t.flags.lastMatched
  {
  }

  // ----- the loop -----

  /** Runs at most `fuel` instructions. */
  method Decode(machine: seq<byte>, data: seq<byte>, respond: seq<Call> -> int, fuel: nat)
    returns (o: Outcome, ghost trace: seq<State>)
    ensures |data| > MAX_DATA ==> o == Failed(TooMuchData)
    ensures |data| <= MAX_DATA ==> Reaches(machine, data, respond, trace) && InBounds(data, trace[|trace| - 1])
    ensures |data| <= MAX_DATA && !o.Next? ==> o == Step(machine, data, respond, trace[|trace| - 1])
    ensures o.Next? ==> |trace| == fuel + 1 && o.s == trace[fuel]
  {
    trace := [];
    if |data| > MAX_DATA { return Failed(TooMuchData), trace; }
    var s, n := Start(data), 0;
    trace := [s];
    while n < fuel
      invariant n <= fuel && |trace| == n + 1 && trace[n] == s
      invariant Reaches(machine, data, respond, trace)
    {
      EveryRunInBounds(machine, data, respond, trace);
      o := Step(machine, data, respond, s);
      if !o.Next? { return o, trace; }
      s := o.s;
      trace := trace + [s];
      n := n + 1;
    }
    EveryRunInBounds(machine, data, respond, trace);
    o := Next(s);
  }
}
