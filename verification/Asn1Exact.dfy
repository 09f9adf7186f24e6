/** Exactly when the decoder's actions get the contents of an element: an octet 0, the identifier of
    end-of-contents, must not be taken for a tag. */
module Asn1Exact {
  import opened Bytes
  import opened Sequences
  import opened Asn1Grammar
  import opened Asn1Frames
  import opened Asn1Decoder
  import opened Asn1Runs
  import opened Asn1Decode
  import opened Wrappers

  // ----- what every action is given, in any run -----

  /** Behind a header: as many octets as it says; or, in the indefinite form, the length octet or what
      the scanner measures. At the end of an element: the octets between its start and the cursor. */
  ghost predicate Given(data: seq<byte>, c: Call) {
    match c
    case OnMatch(hdr, tag, from, len) =>
      && 2 <= hdr <= from <= |data| && tag == data[from - hdr]
      && ((Header(data, from - hdr, from, true, len) && from + len <= |data|)
          || (Header(data, from - hdr, from, false, 0) && (len == INDEFINITE || Measured(data, from, len))))
    case OnEnd(hdr, from, len) =>
      && 2 <= hdr <= from && from + len <= |data|
      && (Header(data, from - hdr, from, true, len)
          || (Header(data, from - hdr, from, false, 0) && from + len + 2 <= |data|
              && data[from + len] == data[from + len + 1] == 0))
    case Plain(_, _, _, _) => true
  }

  ghost predicate Measured(data: seq<byte>, from: nat, len: nat) {
    exists e: nat :: from <= e <= |data| && ContentsSize(data[..e][from..]) == Some(len)
  }

  /** What must be checked: the identifier, and that the grammar finds the contents as long as that. */
  predicate RightCall(data: seq<byte>, c: Call)
    requires c.OnEnd? ==> 2 <= c.hdr <= c.from <= |data|
  {
    match c
    case OnMatch(_, tag, _, _) => tag != 0
    case OnEnd(hdr, from, len) =>
      data[from - hdr] != 0 && (data[from - hdr + 1] == INDEFINITE ==> ContentsSize(data[from..]) == Some(len + 2))
    case Plain(_, _, _, _) => true
  }

  /** The tag of an element that stands in the data is there. */
  lemma OccursTag(data: seq<byte>, at: nat, t: Tlv)
    requires IsElement(t) && Occurs(data, at, t) && at < |data|
    ensures data[at] == t.tag[0] != 0
    ensures !LongTag(data[at]) ==> |t.tag| == 1
  {
    var e := Encode(t);
    assert e[0] == t.tag[0] && e <= data[at..];
    assert data[at..][0] == data[at];
  }

  lemma MatchExact(data: seq<byte>, c: Call)
    requires c.OnMatch? && Given(data, c)
    ensures Exact(data, c) <==> c.tag != 0
  {
    var at := c.from - c.hdr;
    if c.tag == 0 {
      forall t: Tlv | t.tag == [c.tag] ensures !IsElement(t) { assert t.tag[0] == 0; }
    } else if Header(data, at, c.from, true, c.len) {
      LeafExact(data, at, c.from, |data|, true, c.len);
    } else if c.len != INDEFINITE {
      var e: nat :| c.from <= e <= |data| && ContentsSize(data[..e][c.from..]) == Some(c.len);
      LeafExact(data, at, c.from, e, false, c.len);
    }
  }

  lemma DefiniteEnd(data: seq<byte>, c: Call)
    requires c.OnEnd? && Given(data, c) && Header(data, c.from - c.hdr, c.from, true, c.len)
    ensures Exact(data, c) <==> data[c.from - c.hdr] != 0
  {
    var at := c.from - c.hdr;
    if data[at] != 0 {
      var t := DefiniteOccurs(data, at, c.from, c.len);
      assert IsContents(data, c.from, t, c.hdr, c.len);
    } else {
      forall t | IsContents(data, c.from, t, c.hdr, c.len) ensures false { OccursTag(data, at, t); }
    }
  }

  /** An element at an indefinite header is an indefinite one, and its items follow. */
  lemma IndefiniteAt(data: seq<byte>, at: nat, start: nat, t: Tlv)
    requires Header(data, at, start, false, 0) && IsElement(t) && Occurs(data, at, t)
    ensures t.Indefinite? && |t.tag| == 1 && EncodeAll(t.items) <= data[start..]
  {
    OccursTag(data, at, t);
    assert Encode(t)[1] == data[at..][1] == INDEFINITE;
    if t.Indefinite? {
      AfterTag(t.tag, EncodeAll(t.items));
      assert Encode(t) == data[at..][..|Encode(t)|];
      SliceOfDrop(data, at, |Encode(t)|);
      SliceOfDrop(data, start, |Encode(t)| - 2);
      assert Encode(t)[2..] == data[start..][..|Encode(t)| - 2];
    }
  }

  lemma ItemsFound(data: seq<byte>, start: nat, len: nat, items: seq<Tlv>)
    requires start <= |data| && AreElements(items) && EncodeAll(items) <= data[start..] && len == |Elements(items)|
    ensures ContentsSize(data[start..]) == Some(len + 2)
  {
    ElementsClosed(items);
    ContentsFound(data[start..], len + 2, items);
  }

  lemma IndefiniteEndFound(data: seq<byte>, c: Call)
    requires c.OnEnd? && Given(data, c) && Header(data, c.from - c.hdr, c.from, false, 0)
    requires ContentsSize(data[c.from..]) == Some(c.len + 2)
    ensures Exact(data, c)
  {
    assert data[..|data|] == data;
    var items := IndefiniteItems(data, c.from, |data|, c.len + 2);
    var t := IndefiniteOccurs(data, c.from - c.hdr, c.from, c.len + 2, items);
    ElementsClosed(items);
    assert IsContents(data, c.from, t, c.hdr, c.len);
  }

  lemma IndefiniteEnd(data: seq<byte>, c: Call)
    requires c.OnEnd? && Given(data, c) && Header(data, c.from - c.hdr, c.from, false, 0)
    ensures Exact(data, c) <==> ContentsSize(data[c.from..]) == Some(c.len + 2)
  {
    if ContentsSize(data[c.from..]) == Some(c.len + 2) { IndefiniteEndFound(data, c); }
    if Exact(data, c) {
      var t :| IsContents(data, c.from, t, c.hdr, c.len);
      IndefiniteAt(data, c.from - c.hdr, c.from, t);
      ItemsFound(data, c.from, c.len, t.items);
    }
  }

  /** An action gets exactly the contents of one element if and only if that is so. */
  lemma GivenExact(data: seq<byte>, c: Call)
    requires Given(data, c)
    ensures Exact(data, c) <==> RightCall(data, c)
  {
    if c.OnMatch? {
      MatchExact(data, c);
    } else if c.OnEnd? {
      if Header(data, c.from - c.hdr, c.from, true, c.len) {
        DefiniteEnd(data, c);
      } else {
        IndefiniteEnd(data, c);
      }
    }
  }

  /** The header a match has read, whatever the tag. */
  lemma TakenHeader(machine: seq<byte>, data: seq<byte>, s: State, frames: seq<Frame>) returns (u: State)
    requires Valid(data, s, frames, false) && Takes(machine, data, s)
    ensures var t := TagRead(machine, data, s);
            && InBounds(data, t) && t.dp < t.datalen && ReadLength(data, t) == Taken(u)
            && MatchTag(machine, data, machine[s.pc], s) == ReadHeader(data, t)
    ensures HeaderRead(data, u, data[s.dp] != 0) && s.dp == u.dp - u.hdr && u.tag == data[s.dp]
    ensures u.dp <= u.datalen == s.datalen && u.flags.cons == TagRead(machine, data, s).flags.cons
    ensures u.stack == s.stack && u.calls == s.calls && u.pc == s.pc && u.jsp == s.jsp && u.jumps == s.jumps
  {
    var t := TagRead(machine, data, s);
    TagReadTagged(machine, data, s, frames, false);
    ReadLengthIsHeader(data, t);
    u := ReadLength(data, t).s;
  }

  lemma MatchGiven(data: seq<byte>, u: State, n: nat)
    requires HeaderRead(data, u, false) && u.dp <= u.datalen <= |data|
    requires n == u.len || SizeIs(data, u, n)
    ensures Given(data, OnMatch(u.hdr, u.tag, u.dp, n))
  {
    if u.flags.indefinite && n != u.len { assert Measured(data, u.dp, n); }
  }

  lemma TakeGiven(machine: seq<byte>, data: seq<byte>, respond: seq<Call> -> int, s: State, t: State, frames: seq<Frame>)
    returns (c: Call)
    requires Valid(data, s, frames, false) && Takes(machine, data, s) && StepsTo(machine, data, respond, s, t)
    ensures Given(data, c) && (t.calls == s.calls || t.calls == s.calls + [c])
  {
    var u := TakenHeader(machine, data, s, frames);
    var op := machine[s.pc];
    var v := ReadHeader(data, TagRead(machine, data, s)).s;
    c := Plain(0, 0, 0, 0);
    if !MatchJump(op) {
      var n: nat := u.len;
      if v.flags.cons {
        TakeLeafResult(data, respond, op, v, n);
      } else {
        n := TakenSize(data, respond, op, v);
      }
      MatchGiven(data, u, n);
      c := OnMatch(u.hdr, u.tag, u.dp, n);
    }
  }

  /** An end action is given the octets between the saved start and the cursor. */
  function EndCall(s: State): Call
    requires 0 < s.stack.csp <= |s.stack.dps| == |s.stack.hdrs|
  {
    var k := s.stack.csp - 1;
    OnEnd(s.stack.hdrs[k], s.stack.dps[k], if s.stack.dps[k] <= s.dp then s.dp - s.stack.dps[k] else 0)
  }

  /** Only an end instruction takes an element off the stack. */
  lemma EndRuns(machine: seq<byte>, data: seq<byte>, respond: seq<Call> -> int, s: State, t: State)
    requires StepsTo(machine, data, respond, s, t) && t.stack.csp < s.stack.csp
    ensures s.pc < |machine| && END_SEQ <= machine[s.pc] <= END_LAST && CanRun(machine, s, machine[s.pc])
    ensures End(machine, data, respond, machine[s.pc], s) == Next(t)
  {
  }

  lemma EndFrame(machine: seq<byte>, data: seq<byte>, respond: seq<Call> -> int, s: State, t: State, frames: seq<Frame>)
    returns (f: Frame)
    requires Valid(data, s, frames, false) && StepsTo(machine, data, respond, s, t) && t.stack.csp < s.stack.csp
    ensures s.pc < |machine| && s.stack.csp <= STACK == |s.stack.dps| == |s.stack.ends| == |s.stack.hdrs|
    ensures HoldsAt(s.stack, s.stack.csp - 1, f) && FrameIn(data, f, s.dp, s.datalen) && AtEnd(data, f, s.dp)
    ensures Closed(respond, machine[s.pc], AtFrame(s, f), f) == Next(t)
  {
    f := TopFrame(data, s, frames, false);
    EndRuns(machine, data, respond, s, t);
    EndCloses(machine, data, respond, machine[s.pc], s, f);
  }

  lemma FrameGiven(data: seq<byte>, s: State, f: Frame)
    requires 0 < s.stack.csp <= |s.stack.dps| == |s.stack.ends| == |s.stack.hdrs|
    requires HoldsAt(s.stack, s.stack.csp - 1, f) && FrameIn(data, f, s.dp, s.datalen) && AtEnd(data, f, s.dp)
    ensures s.stack.dps[s.stack.csp - 1] <= s.dp && Given(data, EndCall(s))
  {
  }

  lemma EndGiven(machine: seq<byte>, data: seq<byte>, respond: seq<Call> -> int, s: State, t: State, frames: seq<Frame>)
    requires Valid(data, s, frames, false) && StepsTo(machine, data, respond, s, t) && t.stack.csp < s.stack.csp
    ensures s.stack.dps[s.stack.csp - 1] <= s.dp && Given(data, EndCall(s))
    ensures t.calls == s.calls || t.calls == s.calls + [EndCall(s)]
  {
    var f := EndFrame(machine, data, respond, s, t, frames);
    FrameGiven(data, s, f);
    CloseResult(respond, machine[s.pc], AtFrame(s, f), ClosedAt(s, f), f.outer, s.dp - f.start);
  }

  /** Only an end instruction closes an element, and only matches, ends and plain actions call. */
  lemma StepGiven(machine: seq<byte>, data: seq<byte>, respond: seq<Call> -> int, s: State, t: State, frames: seq<Frame>)
    returns (c: Call)
    requires Valid(data, s, frames, false) && StepsTo(machine, data, respond, s, t)
    ensures Given(data, c) && (t.calls == s.calls || t.calls == s.calls + [c])
  {
    if Takes(machine, data, s) {
      c := TakeGiven(machine, data, respond, s, t, frames);
    } else if t.stack.csp < s.stack.csp {
      EndGiven(machine, data, respond, s, t, frames);
      c := EndCall(s);
    } else {
      c := Plain(s.hdr, s.tag, s.tdp, s.len);
    }
  }

  lemma RunValid(machine: seq<byte>, data: seq<byte>, respond: seq<Call> -> int, trace: seq<State>, i: nat)
    returns (frames: seq<Frame>)
    requires |data| <= MAX_DATA && Reaches(machine, data, respond, trace) && i < |trace|
    ensures Valid(data, trace[i], frames, false) && InBounds(data, trace[i])
  {
    var part := trace[..i + 1];
    assert forall k :: 0 <= k < |part| - 1 ==> StepsTo(machine, data, respond, trace[k], trace[k + 1]);
    frames := EveryRunKeeps(machine, data, respond, part);
    Soil(data, trace[i], frames, Regular(machine, data, part));
    ValidInBounds(data, trace[i], frames, false);
  }

  lemma {:induction false} CallsGiven(machine: seq<byte>, data: seq<byte>, respond: seq<Call> -> int, trace: seq<State>, i: nat)
    requires |data| <= MAX_DATA && Reaches(machine, data, respond, trace) && i < |trace[|trace| - 1].calls|
    ensures Given(data, trace[|trace| - 1].calls[i])
    decreases |trace|
  {
    if |trace| > 1 {
      var before, n := trace[..|trace| - 1], |trace| - 2;
      var frames := RunValid(machine, data, respond, trace, n);
      assert StepsTo(machine, data, respond, trace[n], trace[n + 1]);
      var c := StepGiven(machine, data, respond, trace[n], trace[n + 1], frames);
      if i < |trace[n].calls| { CallsGiven(machine, data, respond, before, i); }
    }
  }

  /** In every run, whatever the bytecode: a matching action was given the contents of one complete
      element exactly if the tag matched was not 0, and an ending action exactly if that of its
      element was not and, in the indefinite form, the grammar finds the contents to end there. */
  lemma EveryCallExact(machine: seq<byte>, data: seq<byte>, respond: seq<Call> -> int, trace: seq<State>, i: nat)
    requires |data| <= MAX_DATA && Reaches(machine, data, respond, trace) && i < |trace[|trace| - 1].calls|
    ensures var c := trace[|trace| - 1].calls[i];
            Given(data, c) && (Exact(data, c) <==> RightCall(data, c))
  {
    CallsGiven(machine, data, respond, trace, i);
    GivenExact(data, trace[|trace| - 1].calls[i]);
  }

  /** In every run, an end instruction that closes an element gives its action the octets between
      the saved start and the cursor. */
  lemma EndGetsContents(machine: seq<byte>, data: seq<byte>, respond: seq<Call> -> int, trace: seq<State>, t: State)
    requires |data| <= MAX_DATA && Reaches(machine, data, respond, trace)
    requires StepsTo(machine, data, respond, trace[|trace| - 1], t) && t.stack.csp < trace[|trace| - 1].stack.csp
    ensures var s := trace[|trace| - 1];
            var k := s.stack.csp - 1;
            && s.stack.dps[k] <= s.dp
            && (t.calls == s.calls || t.calls == s.calls + [OnEnd(s.stack.hdrs[k], s.stack.dps[k], s.dp - s.stack.dps[k])])
  {
    var frames := RunValid(machine, data, respond, trace, |trace| - 1);
    EndGiven(machine, data, respond, trace[|trace| - 1], t, frames);
  }

  // ----- a run that goes wrong -----

  /** Opens an element with the tag 0x30, takes whatever comes next in it, closes it and ends. */
  const ANY_IN_SEQUENCE: seq<byte> := [0x00, 0x30, 0x0a, 0x00, 0x24, 0x00, 0x1d]

  /** An empty element of indefinite length, and two more zeros. */
  const ZEROS: seq<byte> := [0x30, 0x80, 0x00, 0x00, 0x00, 0x00]

  /** A number of complete elements, by the parser. */
  lemma CompleteSize(s: seq<byte>)
    ensures Complete(s) <==> ContentsSize(s + EOC) == Some(|s| + 2)
  {
    if Complete(s) {
      var items :| AreElements(items) && s == Elements(items);
      ElementsClosed(items);
      assert (s + EOC)[..|s| + 2] == s + EOC;
      ContentsFound(s + EOC, |s| + 2, items);
    }
    if ContentsSize(s + EOC) == Some(|s| + 2) {
      var items := ContentsSound(s + EOC);
      assert (s + EOC)[..|s| + 2] == s + EOC;
      ElementsClosed(items);
      DropPrefix(s, EOC);
      DropPrefix(Elements(items), EOC);
    }
  }

  lemma ZerosWrong()
    ensures !Exact(ZEROS, OnMatch(2, 0, 4, 0)) && !Exact(ZEROS, OnEnd(2, 2, 2)) && !Complete(ZEROS[..6])
  {
    MatchExact(ZEROS, OnMatch(2, 0, 4, 0));
    assert ZEROS[2..] == [0x00, 0x00, 0x00, 0x00];
    IndefiniteEnd(ZEROS, OnEnd(2, 2, 2));
    var s := [0x30, 0x80, 0x00, 0x00, 0x00, 0x00, 0x00, 0x00];
    assert ZEROS[..6] + EOC == s && s[2..] == [0x00, 0x00, 0x00, 0x00, 0x00, 0x00] && s[4..] == [0x00, 0x00, 0x00, 0x00];
    assert ElementSize(s) == Some(4);
    CompleteSize(ZEROS[..6]);
  }

  function Blank(): seq<nat> { seq(STACK, i => 0) }

  /** The states of that run: the element opened, its end taken for an element, its end found. */
  function Opened(): State {
    State(2, 2, 2, 128, 6, 0x30, 2, Flags(true, true, false, true), ConsStack(1, Blank()[0 := 2], Blank(), Blank()[0 := 2]),
          0, Blank(), [])
  }

  function Mistaken(): State {
    State(4, 4, 4, 0, 6, 0, 2, Flags(false, true, false, false), Opened().stack, 0, Blank(), [OnMatch(2, 0, 4, 0)])
  }

  function Shut(): State {
    State(6, 6, 2, 2, 6, 0, 2, Flags(false, true, false, false), Opened().stack.(csp := 0),
          0, Blank(), [OnMatch(2, 0, 4, 0), OnEnd(2, 2, 2)])
  }

  lemma FirstOpens(respond: seq<Call> -> int)
    ensures StepsTo(ANY_IN_SEQUENCE, ZEROS, respond, Start(ZEROS), Opened())
  {
    assert Opened().stack.ends == Blank()[0 := 0];
  }

  lemma SecondMistakes(respond: seq<Call> -> int)
    requires forall calls :: respond(calls) >= 0
    ensures StepsTo(ANY_IN_SEQUENCE, ZEROS, respond, Opened(), Mistaken())
  {
  }

  lemma ThirdShuts(respond: seq<Call> -> int)
    requires forall calls :: respond(calls) >= 0
    ensures StepsTo(ANY_IN_SEQUENCE, ZEROS, respond, Mistaken(), Shut())
  {
  }

  /** The end-of-contents octets are taken for an element with the tag 0: neither action gets the
      contents of an element, and what the run has read is not a number of complete elements. */
  lemma ZeroForTag(respond: seq<Call> -> int) returns (trace: seq<State>)
    requires forall calls :: respond(calls) >= 0
    ensures Reaches(ANY_IN_SEQUENCE, ZEROS, respond, trace)
    ensures var s := trace[|trace| - 1];
            && s.calls == [OnMatch(2, 0, 4, 0), OnEnd(2, 2, 2)] && s.dp == 6
            && InBounds(ZEROS, s) && Step(ANY_IN_SEQUENCE, ZEROS, respond, s) == Finished(s)
    ensures !Exact(ZEROS, OnMatch(2, 0, 4, 0)) && !Exact(ZEROS, OnEnd(2, 2, 2)) && !Complete(ZEROS[..6])
  {
    ZerosWrong();
    FirstOpens(respond);
    SecondMistakes(respond);
    ThirdShuts(respond);
    trace := [Start(ZEROS), Opened(), Mistaken(), Shut()];
  }
}
