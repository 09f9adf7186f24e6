/** What the decoder's stack of open elements means in the octets read so far. */
module Asn1Frames {
  import opened Bytes
  import opened Sequences
  import opened Asn1Grammar
  import opened Wrappers

  // ----- runs of complete elements -----

  function Elements(items: seq<Tlv>): seq<byte> {
    if items == [] then [] else Encode(items[0]) + Elements(items[1..])
  }

  ghost predicate Complete(s: seq<byte>) {
    exists items :: AreElements(items) && s == Elements(items)
  }

  lemma NothingComplete()
    ensures Complete([])
  {
    var none: seq<Tlv> := [];
    assert Elements(none) == [];
  }

  lemma {:induction false} ElementsSnoc(items: seq<Tlv>, t: Tlv)
    ensures Elements(items + [t]) == Elements(items) + Encode(t)
  {
    if items == [] {
      assert items + [t] == [t];
      Empty(Encode(t));
    } else {
      assert (items + [t])[1..] == items[1..] + [t];
      ElementsSnoc(items[1..], t);
      Assoc(Encode(items[0]), Elements(items[1..]), Encode(t));
    }
  }

  lemma CompleteSnoc(s: seq<byte>, t: Tlv)
    requires Complete(s) && IsElement(t)
    ensures Complete(s + Encode(t))
  {
    var items :| AreElements(items) && s == Elements(items);
    ElementsSnoc(items, t);
  }

  lemma {:induction false} ElementsClosed(items: seq<Tlv>)
    ensures EncodeAll(items) == Elements(items) + EOC
  {
    if items == [] {
      Empty(EOC);
    } else {
      ElementsClosed(items[1..]);
      Assoc(Encode(items[0]), Elements(items[1..]), EOC);
    }
  }

  // ----- elements found in the data -----

  /** The identifier and length octets from `at` to `start`; `size` counts for the definite form. */
  predicate Header(data: seq<byte>, at: nat, start: nat, definite: bool, size: nat) {
    && at + 2 <= start <= |data| && !LongTag(data[at])
    && if definite then LengthValue(data[at + 1..start]) == Some(size)
       else start == at + 2 && data[at + 1] == INDEFINITE && Constructed(data[at])
  }

  predicate Occurs(data: seq<byte>, at: nat, t: Tlv) {
    Encode(t) <= data[if at <= |data| then at else |data|..]
  }

  lemma DefiniteOccurs(data: seq<byte>, at: nat, start: nat, size: nat) returns (t: Tlv)
    requires Header(data, at, start, true, size) && start + size <= |data| && data[at] != 0
    ensures t.Definite? && IsElement(t) && Occurs(data, at, t) && Encode(t) == data[at..start + size]
    ensures t.tag == [data[at]] && |t.tag| + |t.length| == start - at && t.body == data[start..start + size]
  {
    t := Definite([data[at]], data[at + 1..start], data[start..start + size]);
    assert t.tag[0] == data[at];
    SliceOne(data, at);
    SplitSlice(data, at, at + 1, start + size);
    SplitSlice(data, at + 1, start, start + size);
    SliceOfDrop(data, at, start + size - at);
  }

  lemma IndefiniteOccurs(data: seq<byte>, at: nat, start: nat, n: nat, items: seq<Tlv>) returns (t: Tlv)
    requires Header(data, at, start, false, 0) && start + n <= |data| && data[at] != 0
    requires AreElements(items) && data[start..start + n] == EncodeAll(items)
    ensures t == Indefinite([data[at]], items) && IsElement(t)
    ensures Occurs(data, at, t) && Encode(t) == data[at..start + n]
  {
    t := Indefinite([data[at]], items);
    assert t.tag[0] == data[at];
    SliceOne(data, at);
    SliceOne(data, at + 1);
    SplitSlice(data, at, at + 1, start + n);
    SplitSlice(data, at + 1, start, start + n);
    SliceOfDrop(data, at, start + n - at);
  }

  /** The items of an indefinite element whose size is known. */
  lemma IndefiniteItems(data: seq<byte>, start: nat, datalen: nat, n: nat) returns (items: seq<Tlv>)
    requires start + n <= datalen <= |data| && ContentsSize(data[..datalen][start..]) == Some(n)
    ensures AreElements(items) && data[start..start + n] == EncodeAll(items)
  {
    items := ContentsSound(data[..datalen][start..]);
    SliceOfPart(data, datalen, start, n);
  }

  /** An element whose size is known, taken whole. */
  lemma LeafOccurs(data: seq<byte>, at: nat, start: nat, datalen: nat, definite: bool, n: nat) returns (t: Tlv)
    requires start + n <= datalen <= |data| && Header(data, at, start, definite, n) && data[at] != 0
    requires !definite ==> ContentsSize(data[..datalen][start..]) == Some(n)
    ensures IsElement(t) && t.tag == [data[at]] && Occurs(data, at, t) && Encode(t) == data[at..start + n]
    ensures if definite then ContentsAre(t, start - at, n)
            else t.Indefinite? && start - at == |t.tag| + 1 && n == |EncodeAll(t.items)|
  {
    if definite {
      t := DefiniteOccurs(data, at, start, n);
    } else {
      var items := IndefiniteItems(data, start, datalen, n);
      t := IndefiniteOccurs(data, at, start, n, items);
    }
  }

  // ----- the stack -----

  /** An open element: where it starts, where its contents start, where they must end, and where
      the element around it ends. */
  datatype Frame = Frame(at: nat, start: nat, end: nat, outer: nat, definite: bool)

  predicate FrameIn(data: seq<byte>, f: Frame, dp: nat, datalen: nat) {
    && f.start <= dp <= f.end == datalen <= f.outer <= |data|
    && Header(data, f.at, f.start, f.definite, f.end - f.start)
    && (!f.definite ==> f.end == f.outer)
  }

  /** The cursor is inside the innermost element, each element inside the one below; and unless an
      octet 0 was taken for an identifier, what each holds so far is a run of complete elements. */
  ghost predicate Nested(data: seq<byte>, frames: seq<Frame>, dp: nat, datalen: nat, clean: bool)
    decreases |frames|
  {
    if frames == [] then dp <= datalen == |data| && (clean ==> Complete(data[..dp]))
    else
      var f := frames[|frames| - 1];
      && FrameIn(data, f, dp, datalen)
      && (clean ==> data[f.at] != 0 && Complete(data[f.start..dp]))
      && Nested(data, frames[..|frames| - 1], f.at, f.outer, clean)
  }

  lemma NestedBounds(data: seq<byte>, frames: seq<Frame>, dp: nat, datalen: nat, clean: bool)
    requires Nested(data, frames, dp, datalen, clean)
    ensures dp <= datalen <= |data|
  {
  }

  lemma {:induction false} NestedUnclean(data: seq<byte>, frames: seq<Frame>, dp: nat, datalen: nat, clean: bool)
    requires Nested(data, frames, dp, datalen, clean)
    ensures Nested(data, frames, dp, datalen, false)
    decreases |frames|
  {
    if frames != [] {
      var f := frames[|frames| - 1];
      NestedUnclean(data, frames[..|frames| - 1], f.at, f.outer, clean);
    }
  }

  lemma Extend(data: seq<byte>, start: nat, dp: nat, to: nat, t: Tlv)
    requires start <= dp <= to <= |data| && Complete(data[start..dp])
    requires IsElement(t) && Encode(t) == data[dp..to]
    ensures Complete(data[start..to])
  {
    CompleteSnoc(data[start..dp], t);
    SplitSlice(data, start, dp, to);
  }

  /** Passing a whole element keeps the nesting. */
  lemma NestedAdvance(data: seq<byte>, frames: seq<Frame>, dp: nat, datalen: nat, clean: bool, to: nat, t: Tlv)
    requires Nested(data, frames, dp, datalen, clean) && dp <= to <= datalen
    requires clean ==> IsElement(t) && to <= |data| && Encode(t) == data[dp..to]
    ensures Nested(data, frames, to, datalen, clean)
  {
    NestedBounds(data, frames, dp, datalen, clean);
    if clean {
      var start := if frames == [] then 0 else frames[|frames| - 1].start;
      assert frames == [] ==> data[..dp] == data[start..dp] && data[..to] == data[start..to];
      Extend(data, start, dp, to, t);
    }
  }

  lemma LeafOccursIf(data: seq<byte>, at: nat, start: nat, datalen: nat, clean: bool, definite: bool, n: nat)
    returns (t: Tlv)
    requires start + n <= datalen <= |data| && Header(data, at, start, definite, n) && (clean ==> data[at] != 0)
    requires !definite ==> ContentsSize(data[..datalen][start..]) == Some(n)
    ensures clean ==> IsElement(t) && Encode(t) == data[at..start + n]
  {
    t := Indefinite([], []);
    if clean { t := LeafOccurs(data, at, start, datalen, definite, n); }
  }

  lemma LeafAdvance(data: seq<byte>, frames: seq<Frame>, at: nat, start: nat, datalen: nat, clean: bool,
                    definite: bool, n: nat)
    requires Nested(data, frames, at, datalen, clean) && (clean ==> at < |data| && data[at] != 0)
    requires start + n <= datalen <= |data| && Header(data, at, start, definite, n)
    requires !definite ==> ContentsSize(data[..datalen][start..]) == Some(n)
    ensures Nested(data, frames, start + n, datalen, clean)
  {
    var t := LeafOccursIf(data, at, start, datalen, clean, definite, n);
    NestedAdvance(data, frames, at, datalen, clean, start + n, t);
  }

  /** So does opening one. */
  lemma NestedPush(data: seq<byte>, frames: seq<Frame>, f: Frame, clean: bool)
    requires Nested(data, frames, f.at, f.outer, clean) && FrameIn(data, f, f.start, f.end)
    requires clean ==> data[f.at] != 0
    ensures Nested(data, frames + [f], f.start, f.end, clean)
  {
    assert (frames + [f])[..|frames|] == frames && data[f.start..f.start] == [];
    NothingComplete();
  }

  predicate AtEnd(data: seq<byte>, f: Frame, dp: nat) {
    if f.definite then dp == f.end else dp + 2 <= f.end <= |data| && data[dp] == data[dp + 1] == 0
  }

  /** The octets from `at` to `to` are the element of the frame, once it is at its end. */
  lemma FrameIsElement(data: seq<byte>, f: Frame, dp: nat, datalen: nat) returns (t: Tlv)
    requires FrameIn(data, f, dp, datalen) && data[f.at] != 0 && Complete(data[f.start..dp])
    requires AtEnd(data, f, dp)
    ensures IsElement(t) && Occurs(data, f.at, t) && ContentsAre(t, f.start - f.at, dp - f.start)
    ensures Encode(t) == data[f.at..if f.definite then dp else dp + 2]
  {
    if f.definite {
      t := DefiniteOccurs(data, f.at, f.start, f.end - f.start);
    } else {
      var items :| AreElements(items) && data[f.start..dp] == Elements(items);
      ElementsClosed(items);
      SplitSlice(data, f.start, dp, dp + 2);
      assert data[dp..dp + 2] == EOC;
      t := IndefiniteOccurs(data, f.at, f.start, dp + 2 - f.start, items);
    }
  }

  /** And closing one, at its end or behind its end-of-contents octets. */
  lemma NestedPop(data: seq<byte>, frames: seq<Frame>, dp: nat, datalen: nat, clean: bool) returns (t: Tlv)
    requires Nested(data, frames, dp, datalen, clean) && frames != []
    requires AtEnd(data, frames[|frames| - 1], dp)
    ensures var f := frames[|frames| - 1];
            var to := if f.definite then dp else dp + 2;
            && Nested(data, frames[..|frames| - 1], to, f.outer, clean)
            && (clean ==> IsElement(t) && Occurs(data, f.at, t) && ContentsAre(t, f.start - f.at, dp - f.start))
  {
    var f := frames[|frames| - 1];
    t := Indefinite([], []);
    if clean { t := FrameIsElement(data, f, dp, datalen); }
    NestedAdvance(data, frames[..|frames| - 1], f.at, f.outer, clean, if f.definite then dp else dp + 2, t);
  }

  /** An element of `hdr` identifier and length octets and `len` contents octets. */
  predicate ContentsAre(t: Tlv, hdr: nat, len: nat) {
    match t
    case Definite(tag, length, body) => hdr == |tag| + |length| && len == |body|
    case Indefinite(tag, items) => hdr == |tag| + 1 && len == |Elements(items)|
  }
}
