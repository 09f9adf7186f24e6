/** A whole program: what the compiler makes of `SEQUENCE OF` takes every encoding of such a list. */
module Asn1Accept {
  import opened Bytes
  import opened Asn1Grammar
  import opened Asn1Frames
  import opened Asn1Decoder
  import opened Asn1Decode
  import opened Asn1Match
  import opened Sequences
  import opened Wrappers

  // ----- instructions on well-formed data -----

  /** Length octets of at most three at the cursor, and what they cover. */
  predicate LengthThere(data: seq<byte>, at: nat, datalen: nat, l: seq<byte>, n: nat) {
    && |l| <= 3 && LengthValue(l) == Some(n) && at + |l| + n <= datalen <= |data| && data[at..at + |l|] == l
  }

  lemma FirstOctet(data: seq<byte>, at: nat, l: seq<byte>)
    requires l != [] && at + |l| <= |data| && data[at..at + |l|] == l
    ensures data[at] == l[0] && data[at + 1..at + |l|] == l[1..]
  {
    assert data[at] == data[at..at + |l|][0];
    assert data[at + 1..at + |l|] == data[at..at + |l|][1..];
  }

  lemma LengthRead(data: seq<byte>, s: State, l: seq<byte>, n: nat)
    requires LengthThere(data, s.dp, s.datalen, l, n)
    ensures s.dp < s.datalen
    ensures ReadLength(data, s) == Taken(s.(dp := s.dp + |l|, len := n, hdr := s.hdr + |l| - 1))
  {
    FirstOctet(data, s.dp, l);
  }

  /** A definite element with the tag `tag` at the cursor. */
  predicate ElementThere(data: seq<byte>, s: State, tag: byte, l: seq<byte>, n: nat) {
    s.dp < |data| && data[s.dp] == tag && !LongTag(tag) && LengthThere(data, s.dp + 1, s.datalen, l, n)
  }

  /** A match instruction without a jump, for that tag. */
  predicate Asks(machine: seq<byte>, data: seq<byte>, s: State, tag: byte) {
    AtMatch(machine, data, s) && !MatchAny(machine[s.pc]) && !MatchJump(machine[s.pc]) && TagMatches(machine[s.pc + 1], tag)
  }

  function Behind(s: State, tag: byte, l: seq<byte>, n: nat, cons: bool): State
    requires l != []
  {
    s.(tag := tag, hdr := 1 + |l|, flags := Flags(false, true, false, cons), dp := s.dp + 1 + |l|, len := n)
  }

  lemma HeaderTaken(machine: seq<byte>, data: seq<byte>, s: State, tag: byte, l: seq<byte>, n: nat)
    requires Asks(machine, data, s, tag) && ElementThere(data, s, tag, l, n)
    ensures l != []
    ensures var cons := Constructed(machine[s.pc + 1]);
            MatchTag(machine, data, machine[s.pc], s) ==
            ReadHeader(data, s.(tag := tag, hdr := 2, flags := Flags(false, true, false, cons), dp := s.dp + 1))
  {
  }

  lemma LeafTaken(machine: seq<byte>, data: seq<byte>, respond: seq<Call> -> int, s: State, tag: byte, l: seq<byte>, n: nat)
    requires Asks(machine, data, s, tag) && ElementThere(data, s, tag, l, n) && !Constructed(machine[s.pc + 1])
    requires MatchAct(machine[s.pc]) && respond(s.calls + [OnMatch(1 + |l|, tag, s.dp + 1 + |l|, n)]) >= 0
    ensures l != []
    ensures var t, op := Behind(s, tag, l, n, false), machine[s.pc];
            Step(machine, data, respond, s) ==
            Next(t.(tdp := t.dp, dp := t.dp + n, pc := s.pc + OpLength(op),
                    calls := s.calls + [OnMatch(1 + |l|, tag, t.dp, n)]))
  {
    HeaderTaken(machine, data, s, tag, l, n);
    LengthRead(data, s.(tag := tag, hdr := 2, flags := Flags(false, true, false, false), dp := s.dp + 1), l, n);
  }

  lemma CompoundOpened(machine: seq<byte>, data: seq<byte>, respond: seq<Call> -> int, s: State, tag: byte, l: seq<byte>,
                       n: nat)
    requires Asks(machine, data, s, tag) && ElementThere(data, s, tag, l, n) && Constructed(machine[s.pc + 1])
    requires !MatchAct(machine[s.pc]) && s.stack.csp < STACK
    ensures l != []
    ensures var t, op := Behind(s, tag, l, n, true), machine[s.pc];
            Step(machine, data, respond, s) == Next(Open(t).(tdp := t.dp, pc := s.pc + OpLength(op)))
  {
    HeaderTaken(machine, data, s, tag, l, n);
    LengthRead(data, s.(tag := tag, hdr := 2, flags := Flags(false, true, false, true), dp := s.dp + 1), l, n);
  }

  // ----- the program -----

  /** Match the list's tag; match and call an action for an element's tag, or skip; back for a further one until the
      list ends; complete. */
  function ListProgram(o: byte, t: byte, act: byte): seq<byte> { [0x00, o, 0x03, t, act, 0x22, 2, 0x1d] }

  /** An element with the tag `t` whose length has at most three octets. */
  predicate IsItem(t: byte, e: Tlv) { e.Definite? && e.tag == [t] && IsElement(e) && |e.length| <= 3 }

  predicate AreItems(t: byte, items: seq<Tlv>) { forall i :: 0 <= i < |items| ==> IsItem(t, items[i]) }

  /** One call for each element, with its contents. */
  function ItemCalls(t: byte, items: seq<Tlv>, at: nat): seq<Call>
    requires AreItems(t, items)
  {
    if items == [] then []
    else
      var e := items[0];
      assert IsItem(t, e);
      [OnMatch(1 + |e.length|, t, at + 1 + |e.length|, |e.body|)] + ItemCalls(t, items[1..], at + |Encode(e)|)
  }

  /** The list has been opened, and the elements up to the cursor have been given to the action. */
  predicate InList(data: seq<byte>, start: nat, s: State) {
    && InBounds(data, s) && s.datalen == |data| && s.jsp == 0 && 0 < |data|
    && s.stack.csp == 1 && s.stack.ends[0] == |data| && s.stack.dps[0] == start && start <= s.dp
  }

  lemma ItemThere(data: seq<byte>, pre: seq<byte>, t: byte, e: Tlv, rest: seq<byte>)
    requires IsItem(t, e) && data == pre + (Encode(e) + rest)
    ensures |pre| < |data| && data[|pre|] == t
    ensures LengthThere(data, |pre| + 1, |data|, e.length, |e.body|)
    ensures |Encode(e)| == 1 + |e.length| + |e.body|
  {
  }

  /** Whether the list goes on or ends. */
  lemma EndOfRound(o: byte, t: byte, act: byte, data: seq<byte>, respond: seq<Call> -> int, start: nat, s: State)
    requires InList(data, start, s) && s.pc == 5 && |data| <= MAX_DATA
    ensures var r := Step(ListProgram(o, t, act), data, respond, s);
            && r.Next? && r.s.dp == s.dp && r.s.calls == s.calls && r.s.jsp == 0 && InBounds(data, r.s)
            && if s.dp < |data| then r.s.pc == 2 && InList(data, start, r.s)
               else r.s.pc == 7 && r.s.stack.csp == 0
  {
  }

  lemma SkippedAtEnd(o: byte, t: byte, act: byte, data: seq<byte>, respond: seq<Call> -> int, start: nat, s: State)
    requires InList(data, start, s) && s.pc == 2 && s.dp == |data|
    ensures var r := Step(ListProgram(o, t, act), data, respond, s);
            r.Next? && r.s.pc == 5 && r.s.dp == s.dp && r.s.calls == s.calls && InList(data, start, r.s)
  {
  }

  lemma ItemStep(o: byte, t: byte, act: byte, data: seq<byte>, respond: seq<Call> -> int, start: nat, s: State,
                 l: seq<byte>, n: nat)
    requires InList(data, start, s) && s.pc == 2 && s.dp < |data| && data[s.dp] == t && !Constructed(t) && !LongTag(t)
    requires LengthThere(data, s.dp + 1, |data|, l, n) && respond(s.calls + [OnMatch(1 + |l|, t, s.dp + 1 + |l|, n)]) >= 0
    ensures var r := Step(ListProgram(o, t, act), data, respond, s);
            && r.Next? && r.s.pc == 5 && r.s.dp == s.dp + 1 + |l| + n && InList(data, start, r.s)
            && r.s.calls == s.calls + [OnMatch(1 + |l|, t, s.dp + 1 + |l|, n)]
  {
    assert Asks(ListProgram(o, t, act), data, s, t);
    LeafTaken(ListProgram(o, t, act), data, respond, s, t, l, n);
  }

  lemma ItemTaken(o: byte, t: byte, act: byte, data: seq<byte>, respond: seq<Call> -> int, start: nat, s: State, e: Tlv,
                  pre: seq<byte>, rest: seq<byte>)
    requires InList(data, start, s) && s.pc == 2 && s.dp == |pre| && data == pre + (Encode(e) + rest)
    requires !Constructed(t) && !LongTag(t) && IsItem(t, e) && forall calls :: respond(calls) >= 0
    ensures var r := Step(ListProgram(o, t, act), data, respond, s);
            && r.Next? && r.s.pc == 5 && r.s.dp == |pre| + |Encode(e)| && InList(data, start, r.s)
            && r.s.calls == s.calls + [OnMatch(1 + |e.length|, t, |pre| + 1 + |e.length|, |e.body|)]
  {
    ItemThere(data, pre, t, e, rest);
    ItemStep(o, t, act, data, respond, start, s, e.length, |e.body|);
  }

  predicate Goes(machine: seq<byte>, data: seq<byte>, respond: seq<Call> -> int, trace: seq<State>) {
    trace != [] && Steps(machine, data, respond, trace)
  }

  lemma GoesOn(machine: seq<byte>, data: seq<byte>, respond: seq<Call> -> int, trace: seq<State>, t: State)
    requires Goes(machine, data, respond, trace) && StepsTo(machine, data, respond, trace[|trace| - 1], t)
    ensures Goes(machine, data, respond, trace + [t]) && (trace + [t])[0] == trace[0]
  {
    var more := trace + [t];
    forall i | 0 <= i < |more| - 1 ensures StepsTo(machine, data, respond, more[i], more[i + 1]) {
      if i + 1 < |trace| { assert more[i] == trace[i] && more[i + 1] == trace[i + 1]; }
    }
  }

  /** Behind the list, with nothing open. */
  predicate AfterList(data: seq<byte>, s: State) {
    s.pc == 7 && s.dp == |data| && s.jsp == 0 && s.stack.csp == 0 && InBounds(data, s)
  }

  /** What a round comes to: the next element, or the end of the list. */
  predicate NextRound(data: seq<byte>, start: nat, s: State) {
    if s.dp < |data| then s.pc == 2 && InList(data, start, s) else AfterList(data, s)
  }

  /** The last step of a round, when it has come to the instruction that ends it. */
  lemma RoundEnds(o: byte, t: byte, act: byte, data: seq<byte>, respond: seq<Call> -> int, start: nat, trace: seq<State>,
                  s1: State) returns (more: seq<State>)
    requires Goes(ListProgram(o, t, act), data, respond, trace) && |data| <= MAX_DATA
    requires StepsTo(ListProgram(o, t, act), data, respond, trace[|trace| - 1], s1) && InList(data, start, s1) && s1.pc == 5
    ensures Goes(ListProgram(o, t, act), data, respond, more) && more[0] == trace[0]
    ensures var r := more[|more| - 1]; NextRound(data, start, r) && r.dp == s1.dp && r.calls == s1.calls
  {
    var machine := ListProgram(o, t, act);
    GoesOn(machine, data, respond, trace, s1);
    EndOfRound(o, t, act, data, respond, start, s1);
    var s2 := Step(machine, data, respond, s1).s;
    GoesOn(machine, data, respond, trace + [s1], s2);
    more := trace + [s1] + [s2];
  }

  lemma ItemRound(o: byte, t: byte, act: byte, data: seq<byte>, respond: seq<Call> -> int, start: nat, trace: seq<State>,
                  pre: seq<byte>, e: Tlv, rest: seq<byte>) returns (more: seq<State>)
    requires Goes(ListProgram(o, t, act), data, respond, trace) && |data| <= MAX_DATA
    requires var s := trace[|trace| - 1]; InList(data, start, s) && s.pc == 2 && s.dp == |pre|
    requires data == pre + (Encode(e) + rest) && !Constructed(t) && !LongTag(t) && IsItem(t, e)
    requires forall calls :: respond(calls) >= 0
    ensures Goes(ListProgram(o, t, act), data, respond, more) && more[0] == trace[0]
    ensures var r := more[|more| - 1];
            && NextRound(data, start, r) && r.dp == |pre| + |Encode(e)|
            && r.calls == trace[|trace| - 1].calls + [OnMatch(1 + |e.length|, t, |pre| + 1 + |e.length|, |e.body|)]
  {
    var s := trace[|trace| - 1];
    ItemTaken(o, t, act, data, respond, start, s, e, pre, rest);
    more := RoundEnds(o, t, act, data, respond, start, trace, Step(ListProgram(o, t, act), data, respond, s).s);
  }

  lemma LastRound(o: byte, t: byte, act: byte, data: seq<byte>, respond: seq<Call> -> int, start: nat, trace: seq<State>)
    returns (more: seq<State>)
    requires Goes(ListProgram(o, t, act), data, respond, trace) && |data| <= MAX_DATA
    requires var s := trace[|trace| - 1]; InList(data, start, s) && s.pc == 2 && s.dp == |data|
    ensures Goes(ListProgram(o, t, act), data, respond, more) && more[0] == trace[0]
    ensures var r := more[|more| - 1]; AfterList(data, r) && r.calls == trace[|trace| - 1].calls
  {
    var s := trace[|trace| - 1];
    SkippedAtEnd(o, t, act, data, respond, start, s);
    more := RoundEnds(o, t, act, data, respond, start, trace, Step(ListProgram(o, t, act), data, respond, s).s);
  }

  /** The elements that are left, one after the other. */
  lemma {:induction false} RestTaken(o: byte, t: byte, act: byte, data: seq<byte>, respond: seq<Call> -> int, start: nat,
                                     trace: seq<State>, pre: seq<byte>, items: seq<Tlv>) returns (more: seq<State>)
    requires Goes(ListProgram(o, t, act), data, respond, trace) && |data| <= MAX_DATA
    requires var s := trace[|trace| - 1]; InList(data, start, s) && s.pc == 2 && s.dp == |pre|
    requires data == pre + Elements(items) && AreItems(t, items)
    requires !Constructed(t) && !LongTag(t) && forall calls :: respond(calls) >= 0
    ensures Goes(ListProgram(o, t, act), data, respond, more) && more[0] == trace[0]
    ensures var r := more[|more| - 1];
            AfterList(data, r) && r.calls == trace[|trace| - 1].calls + ItemCalls(t, items, |pre|)
    decreases |items|
  {
    var before := trace[|trace| - 1].calls;
    if items == [] {
      more := LastRound(o, t, act, data, respond, start, trace);
      Empty(before);
    } else {
      var e, rest := items[0], items[1..];
      assert IsItem(t, e);
      more := ItemRound(o, t, act, data, respond, start, trace, pre, e, Elements(rest));
      var next := pre + Encode(e);
      Assoc(pre, Encode(e), Elements(rest));
      CallsOneMore(t, items, |pre|, before);
      if |next| < |data| {
        more := RestTaken(o, t, act, data, respond, start, more, next, rest);
      } else {
        assert Elements(rest) == [];
        NothingLeft(t, rest);
      }
    }
  }

  lemma NothingLeft(t: byte, items: seq<Tlv>)
    requires AreItems(t, items) && Elements(items) == []
    ensures items == []
  {
  }

  lemma CallsOneMore(t: byte, items: seq<Tlv>, at: nat, before: seq<Call>)
    requires AreItems(t, items) && items != []
    ensures IsItem(t, items[0]) && AreItems(t, items[1..])
    ensures var e := items[0];
            (before + [OnMatch(1 + |e.length|, t, at + 1 + |e.length|, |e.body|)])
              + ItemCalls(t, items[1..], at + |Encode(e)|)
            == before + ItemCalls(t, items, at)
  {
    var e := items[0];
    assert IsItem(t, e);
    forall i | 0 <= i < |items[1..]| ensures IsItem(t, items[1..][i]) { assert items[1..][i] == items[i + 1]; }
    Assoc(before, [OnMatch(1 + |e.length|, t, at + 1 + |e.length|, |e.body|)], ItemCalls(t, items[1..], at + |Encode(e)|));
  }

  lemma OpenStep(o: byte, t: byte, act: byte, data: seq<byte>, respond: seq<Call> -> int, l: seq<byte>, n: nat)
    requires Constructed(o) && ElementThere(data, Start(data), o, l, n) && 1 + |l| + n == |data| <= MAX_DATA
    ensures var r := Step(ListProgram(o, t, act), data, respond, Start(data));
            r.Next? && r.s.pc == 2 && r.s.dp == 1 + |l| && r.s.calls == [] && InList(data, 1 + |l|, r.s)
  {
    assert Asks(ListProgram(o, t, act), data, Start(data), o);
    CompoundOpened(ListProgram(o, t, act), data, respond, Start(data), o, l, n);
  }

  lemma ListOpened(o: byte, t: byte, act: byte, l: seq<byte>, items: seq<Tlv>, data: seq<byte>, respond: seq<Call> -> int)
    requires Constructed(o) && !LongTag(o) && LengthValue(l) == Some(|Elements(items)|) && |l| <= 3
    requires data == [o] + (l + Elements(items)) && |data| <= MAX_DATA
    ensures var r := Step(ListProgram(o, t, act), data, respond, Start(data));
            r.Next? && r.s.pc == 2 && r.s.dp == 1 + |l| && r.s.calls == [] && InList(data, 1 + |l|, r.s)
  {
    ListThere(o, l, items);
    OpenStep(o, t, act, data, respond, l, |Elements(items)|);
  }

  lemma Completes(o: byte, t: byte, act: byte, data: seq<byte>, respond: seq<Call> -> int, s: State)
    requires AfterList(data, s)
    ensures Step(ListProgram(o, t, act), data, respond, s) == Finished(s)
  {
  }

  /** For any list tag and any element tag the program takes every encoding of a list of such elements, with
      definite lengths of at most three octets: it completes at the end of the data, having called the
      action once for each element, in order, with its contents. */
  lemma ListAccepted(o: byte, t: byte, act: byte, l: seq<byte>, items: seq<Tlv>, respond: seq<Call> -> int)
    returns (trace: seq<State>)
    requires Constructed(o) && !LongTag(o) && !Constructed(t) && !LongTag(t) && AreItems(t, items)
    requires LengthValue(l) == Some(|Elements(items)|) && |l| <= 3
    requires 1 + |l| + |Elements(items)| <= MAX_DATA && forall calls :: respond(calls) >= 0
    ensures var data, machine := [o] + (l + Elements(items)), ListProgram(o, t, act);
            && Reaches(machine, data, respond, trace) && InBounds(data, trace[|trace| - 1])
            && var s := trace[|trace| - 1];
            Step(machine, data, respond, s) == Finished(s) && s.dp == |data| && s.calls == ItemCalls(t, items, 1 + |l|)
  {
    var data, machine := [o] + (l + Elements(items)), ListProgram(o, t, act);
    var s0 := Start(data);
    ListOpened(o, t, act, l, items, data, respond);
    Assoc([o], l, Elements(items));
    GoesOn(machine, data, respond, [s0], Step(machine, data, respond, s0).s);
    trace := RestTaken(o, t, act, data, respond, 1 + |l|, [s0] + [Step(machine, data, respond, s0).s], [o] + l, items);
    Completes(o, t, act, data, respond, trace[|trace| - 1]);
    Empty(ItemCalls(t, items, 1 + |l|));
  }

  lemma ListThere(o: byte, l: seq<byte>, items: seq<Tlv>)
    requires LengthValue(l) == Some(|Elements(items)|) && |l| <= 3 && !LongTag(o)
    ensures var data := [o] + (l + Elements(items)); ElementThere(data, Start(data), o, l, |Elements(items)|)
  {
    var data := [o] + (l + Elements(items));
    assert data[1..1 + |l|] == l;
  }
}
