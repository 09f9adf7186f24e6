/** The iterative scanner for elements of indefinite length: one cursor and a count of the elements
    still open, in place of the recursion of the grammar. `data` is the buffer up to the end of the
    innermost containing element. */
module Asn1Indefinite {
  import opened Bytes
  import opened Asn1Grammar
  import opened Wrappers

  datatype Message = LengthTooLong | IndefinitePrimitive | InvalidEoc | DataOverrun | MissingEoc

  /** Where the cursor is left, with the length found or the error message. */
  datatype Scan = Found(dp: nat, len: nat) | Failed(dp: nat, message: Message)

  /** One element passed whole, or only opened, or one closed, or the octets found broken. */
  datatype Step = Whole(dp: nat) | Opened(dp: nat) | Closed(dp: nat) | Broken(dp: nat, message: Message)

  /** Where the contents of `level` open elements end. */
  function NestedEnd(data: seq<byte>, dp: nat, level: nat): (r: Option<nat>)
    requires dp <= |data|
    ensures r.Some? ==> dp <= r.value <= |data|
    decreases level
  {
    if level == 0 then Some(dp)
    else
      match ContentsSize(data[dp..])
      case None => None
      case Some(n) => NestedEnd(data, dp + n, level - 1)
  }

  /** What is still to come after a step taken with `level` elements open. */
  function AfterStep(data: seq<byte>, level: nat, step: Step): Option<nat>
    requires step.dp <= |data| && level >= 1
  {
    match step
    case Broken(_, _) => None
    case Whole(dp) => NestedEnd(data, dp, level)
    case Opened(dp) => NestedEnd(data, dp, level + 1)
    case Closed(dp) => NestedEnd(data, dp, level - 1)
  }

  lemma DropTwice(s: seq<byte>, n: nat, m: nat)
    requires n + m <= |s|
    ensures s[n..][m..] == s[n + m..]
  {
  }

  /** A complete element ahead leaves as many elements open behind it. */
  lemma PassElement(data: seq<byte>, dp: nat, level: nat, n: nat)
    requires level >= 1 && dp + 2 <= |data| && data[dp] != 0
    requires ElementSize(data[dp..]) == Some(n)
    ensures dp + n <= |data| && NestedEnd(data, dp, level) == NestedEnd(data, dp + n, level)
  {
    DropTwice(data, dp, n);
  }

  /** Where no element and no end-of-contents octets start, nothing can be closed. */
  lemma Stuck(data: seq<byte>, dp: nat, level: nat)
    requires level >= 1 && dp <= |data|
    requires dp + 2 > |data| || (if data[dp] == 0 then data[dp + 1] != 0 else ElementSize(data[dp..]).None?)
    ensures NestedEnd(data, dp, level) == None
  {
  }

  /** The start of an indefinite element leaves one more element open. */
  lemma PassOpening(data: seq<byte>, dp: nat, level: nat, t: nat)
    requires level >= 1 && dp + 2 <= |data| && data[dp] != 0
    requires TagSize(data[dp..]) == Some(t) && data[dp + t] == INDEFINITE && Constructed(data[dp])
    ensures NestedEnd(data, dp, level) == NestedEnd(data, dp + t + 1, level + 1)
  {
    DropTwice(data, dp, t + 1);
    IndefiniteSize(data[dp..], t);
    var c := ContentsSize(data[dp + t + 1..]);
    if c.Some? {
      PassElement(data, dp, level, t + 1 + c.value);
    } else {
      Stuck(data, dp, level);
    }
  }

  /** The later identifier octets of a long tag; the cursor stops where fewer than two are left. */
  method SkipLongTag(data: seq<byte>, start: nat) returns (ok: bool, dp: nat)
    requires start <= |data|
    ensures start <= dp <= |data|
    ensures MoreTag(data[start..]) == if ok then Some(dp - start) else None
    ensures ok ==> dp < |data|
  {
    dp := start;
    var tmp: byte := 128;
    while tmp >= 128
      invariant start <= dp <= |data|
      invariant if tmp >= 128
                then MoreTag(data[dp..]).Some? == MoreTag(data[start..]).Some? &&
                     (MoreTag(data[dp..]).Some? ==>
                        MoreTag(data[start..]).value == MoreTag(data[dp..]).value + dp - start)
                else dp < |data| && MoreTag(data[start..]) == Some(dp - start)
      decreases |data| - dp, tmp
    {
      if |data| - dp < 2 { return false, dp; }
      DropTwice(data, dp, 1);
      tmp := data[dp];
      dp := dp + 1;
    }
    ok := true;
  }

  /** The number spelled by the `n` octets at the cursor. */
  method ReadLength(data: seq<byte>, start: nat, n: nat) returns (len: nat, dp: nat)
    requires start + n <= |data|
    ensures dp == start + n && len == BigEndian(data[start..dp])
  {
    dp := start;
    len := 0;
    while dp < start + n
      invariant start <= dp <= start + n && len == BigEndian(data[start..dp])
    {
      assert data[start..dp + 1][..dp - start] == data[start..dp];
      len := len * 256 + data[dp];
      dp := dp + 1;
    }
  }

  /** The octets of a definite length and of what it covers. */
  method SkipDefinite(data: seq<byte>, start: nat) returns (r: Step)
    requires start < |data| && data[start] != INDEFINITE
    ensures start < r.dp <= |data| && (r.Whole? || r.Broken?)
    ensures DefiniteSize(data[start..]) == if r.Whole? then Some(r.dp - start) else None
  {
    var dp, len: nat := start + 1, data[start];
    if len > 127 {
      var n := len - 128;
      if n > MAX_LENGTH_OCTETS { return Broken(dp, LengthTooLong); }
      if n > |data| - dp { return Broken(dp, DataOverrun); }
      assert data[start..][1..1 + n] == data[dp..dp + n];
      len, dp := ReadLength(data, dp, n);
    }
    if len > |data| - dp { return Broken(dp, DataOverrun); }
    r := Whole(dp + len);
  }

  /** The identifier octets at the cursor. */
  method SkipTag(data: seq<byte>, start: nat) returns (ok: bool, dp: nat)
    requires start + 2 <= |data|
    ensures start < dp <= |data| && (ok ==> dp < |data|)
    ensures TagSize(data[start..]) == if ok then Some(dp - start) else None
  {
    ok, dp := true, start + 1;
    if LongTag(data[start]) {
      DropTwice(data, start, 1);
      ok, dp := SkipLongTag(data, dp);
    }
  }

  /** An element of definite length from its length octets on. */
  method SkipBody(data: seq<byte>, start: nat, dp: nat, ghost level: nat) returns (r: Step)
    requires start + 2 <= |data| && data[start] != 0 && level >= 1
    requires start < dp < |data| && TagSize(data[start..]) == Some(dp - start) && data[dp] != INDEFINITE
    ensures start < r.dp <= |data|
    ensures NestedEnd(data, start, level) == AfterStep(data, level, r)
  {
    DropTwice(data, start, dp - start);
    r := SkipDefinite(data, dp);
    if r.Whole? {
      PassElement(data, start, level, r.dp - start);
    } else {
      Stuck(data, start, level);
    }
  }

  /** One element from its identifier octets on: passed whole when its length is definite, and
      otherwise only opened. */
  method SkipElement(data: seq<byte>, start: nat, ghost level: nat) returns (r: Step)
    requires start + 2 <= |data| && data[start] != 0 && level >= 1
    ensures start < r.dp <= |data|
    ensures NestedEnd(data, start, level) == AfterStep(data, level, r)
  {
    var ok, dp := SkipTag(data, start);
    if !ok {
      Stuck(data, start, level);
      return Broken(dp, DataOverrun);
    }
    if data[dp] != INDEFINITE {
      r := SkipBody(data, start, dp, level);
    } else if !Constructed(data[start]) {
      Stuck(data, start, level);
      r := Broken(dp + 1, IndefinitePrimitive);
    } else {
      PassOpening(data, start, level, dp - start);
      r := Opened(dp + 1);
    }
  }

  /** One element passed or opened, or the end-of-contents octets of the innermost one. */
  method NextTag(data: seq<byte>, start: nat, ghost level: nat) returns (r: Step)
    requires start <= |data| && level >= 1
    ensures start <= r.dp <= |data| && (!r.Broken? ==> start < r.dp)
    ensures NestedEnd(data, start, level) == AfterStep(data, level, r)
  {
    if |data| - start < 2 {
      Stuck(data, start, level);
      return Broken(start, if |data| == start then MissingEoc else DataOverrun);
    }
    if data[start] == 0 {
      if data[start + 1] != 0 {
        Stuck(data, start, level);
        return Broken(start + 2, InvalidEoc);
      }
      return Closed(start + 2);
    }
    r := SkipElement(data, start, level);
  }

  /** Succeeds exactly when the octets from the cursor are complete elements closed by
      end-of-contents octets, and then returns their length, those octets included. */
  method FindIndefiniteLength(data: seq<byte>, start: nat) returns (r: Scan)
    requires start <= |data|
    ensures start <= r.dp <= |data|
    ensures ContentsSize(data[start..]) == if r.Found? then Some(r.len) else None
    ensures r.Found? ==> r.dp == start + r.len
  {
    var dp, level := start, 1;
    while level > 0
      invariant start <= dp <= |data|
      invariant NestedEnd(data, start, 1) == NestedEnd(data, dp, level)
      decreases |data| - dp
    {
      var step := NextTag(data, dp, level);
      match step {
        case Broken(_, message) => return Failed(step.dp, message);
        case Whole(_) =>
        case Opened(_) => level := level + 1;
        case Closed(_) => level := level - 1;
      }
      dp := step.dp;
    }
    r := Found(dp, dp - start);
  }
}
