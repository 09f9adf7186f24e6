/** Writing attributes one behind the other, and reading them back. */
module NlaStream {
  import opened Bytes
  import opened NlaPolicy
  import opened NlaValidate
  import opened NlaParse
  import opened Sequences

  /** The type field and the payload of an attribute. */
  datatype Item = Item(field: nat, payload: seq<byte>)

  /** Field and length fit into 16 bits. */
  predicate Fits(i: Item) { i.field < 0x1_0000 && |i.payload| + HDRLEN < 0x1_0000 }

  predicate AllFit(items: seq<Item>) { forall k :: 0 <= k < |items| ==> Fits(items[k]) }

  function Padding(n: nat): (p: seq<byte>)
    ensures |p| < 4 && (n + |p|) % 4 == 0
  {
    seq((4 - n % 4) % 4, k => 0)
  }

  /** Header, payload and padding. */
  function Written(i: Item): seq<byte> {
    Spelled(|i.payload| + HDRLEN, 2) + Spelled(i.field, 2) + i.payload + Padding(|i.payload|)
  }

  function WriteAll(items: seq<Item>): seq<byte> {
    if items == [] then [] else Written(items[0]) + WriteAll(items[1..])
  }

  /** What the walk over a stream finds. */
  function ReadAll(data: seq<byte>, at: nat): seq<Item>
    decreases Left(data, at)
  {
    if !AttrOk(data, at) then []
    else [Item(AttrAt(data, at).field, AttrAt(data, at).payload)] + ReadAll(data, NextAt(data, at))
  }

  lemma SpelledTwo(x: nat)
    requires x < 0x1_0000
    ensures LittleEndian(Spelled(x, 2)) == x
  {
    assert Pow256(2) == 256 * Pow256(1) && Pow256(1) == 256 * Pow256(0);
    SpelledRight(x, 2);
  }

  /** The parts of an attribute within a stream. */
  lemma Parts(pre: seq<byte>, i: Item, post: seq<byte>)
    ensures var data, at, n := pre + (Written(i) + post), |pre|, |i.payload|;
            && |data| >= at + HDRLEN + n && |Written(i)| == (HDRLEN + n + 3) / 4 * 4
            && data[at..at + 2] == Spelled(n + HDRLEN, 2) && data[at + 2..at + 4] == Spelled(i.field, 2)
            && data[at + HDRLEN..at + HDRLEN + n] == i.payload
  {
  }

  lemma WrittenRead(pre: seq<byte>, i: Item, post: seq<byte>)
    requires Fits(i)
    ensures var data, at := pre + (Written(i) + post), |pre|;
            && AttrOk(data, at) && NextAt(data, at) == at + |Written(i)|
            && AttrAt(data, at).field == i.field && AttrAt(data, at).payload == i.payload
  {
    Parts(pre, i, post);
    SpelledTwo(|i.payload| + HDRLEN);
    SpelledTwo(i.field);
  }

  lemma {:induction false} WriteThenReadFrom(data: seq<byte>, pre: seq<byte>, items: seq<Item>)
    requires AllFit(items) && data == pre + WriteAll(items)
    ensures ReadAll(data, |pre|) == items && EndOf(data, |pre|) == |data|
    decreases |items|
  {
    if items != [] {
      var one, rest := Written(items[0]), WriteAll(items[1..]);
      WrittenRead(pre, items[0], rest);
      Assoc(pre, one, rest);
      WriteThenReadFrom(data, pre + one, items[1..]);
      HeadTail(items);
    }
  }

  /** Attributes written one behind the other are found again, each with its type and payload and in order,
      and nothing is left over behind the last. */
  lemma WriteThenRead(items: seq<Item>)
    requires AllFit(items)
    ensures ReadAll(WriteAll(items), 0) == items && EndOf(WriteAll(items), 0) == |WriteAll(items)|
  {
    Empty(WriteAll(items));
    WriteThenReadFrom(WriteAll(items), [], items);
  }

  /** What the walk finds is what the attributes at its offsets hold. */
  lemma {:induction false} ReadAtOffsets(data: seq<byte>, at: nat)
    ensures |ReadAll(data, at)| == |Offsets(data, at)|
    ensures forall k :: 0 <= k < |Offsets(data, at)| ==>
              && AttrOk(data, Offsets(data, at)[k])
              && var a := AttrAt(data, Offsets(data, at)[k]); ReadAll(data, at)[k] == Item(a.field, a.payload)
    decreases Left(data, at)
  {
    if AttrOk(data, at) { ReadAtOffsets(data, NextAt(data, at)); }
  }
}
