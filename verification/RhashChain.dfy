/** Bucket chains of `lib/rhashtable.c`: heads and `next` links, each chain ended by the
    marker of the bucket it belongs to. */
module RhashChain {

  /** A link: to an object, or the end marker that names a bucket of a table. */
  datatype Link = Node(obj: nat) | Nulls(table: nat, bucket: nat)

  type Slot = (nat, nat)

  /** What the memory holds. */
  datatype Heap = Heap(heads: map<Slot, Link>, nexts: map<nat, Link>) {
    function Head(k: Slot): Link { if k in heads then heads[k] else Nulls(k.0, k.1) }
    function Next(o: nat): Link { if o in nexts then nexts[o] else Nulls(0, 0) }
    function SetHead(k: Slot, p: Link): Heap { this.(heads := heads[k := p]) }
    function SetNext(o: nat, p: Link): Heap { this.(nexts := nexts[o := p]) }
  }

  /** From `p` the links run through the objects `xs` to `q`. */
  predicate Seg(m: Heap, p: Link, xs: seq<nat>, q: Link)
    decreases |xs|
  {
    if xs == [] then p == q else p == Node(xs[0]) && Seg(m, m.Next(xs[0]), xs[1..], q)
  }

  lemma {:induction false} SegFrame(m: Heap, m': Heap, p: Link, xs: seq<nat>, q: Link)
    requires Seg(m, p, xs, q) && forall i :: 0 <= i < |xs| ==> m'.Next(xs[i]) == m.Next(xs[i])
    ensures Seg(m', p, xs, q)
    decreases |xs|
  {
    if xs != [] {
      forall i | 0 <= i < |xs[1..]| ensures m'.Next(xs[1..][i]) == m.Next(xs[1..][i]) { assert xs[1..][i] == xs[i + 1]; }
      SegFrame(m, m', m.Next(xs[0]), xs[1..], q);
    }
  }

  /** The links out of a segment, one by one. */
  lemma {:induction false} SegAt(m: Heap, p: Link, xs: seq<nat>, q: Link, i: nat)
    requires Seg(m, p, xs, q) && i < |xs|
    ensures m.Next(xs[i]) == if i + 1 < |xs| then Node(xs[i + 1]) else q
    ensures p == Node(xs[0])
    decreases |xs|
  {
    if i > 0 { SegAt(m, m.Next(xs[0]), xs[1..], q, i - 1); }
  }

  lemma {:induction false} SegSnoc(m: Heap, p: Link, xs: seq<nat>, e: nat, q: Link)
    ensures Seg(m, p, xs + [e], q) <==> Seg(m, p, xs, Node(e)) && m.Next(e) == q
    decreases |xs|
  {
    if xs == [] {
      assert xs + [e] == [e] && [e][1..] == [];
    } else {
      assert (xs + [e])[0] == xs[0] && (xs + [e])[1..] == xs[1..] + [e];
      SegSnoc(m, m.Next(xs[0]), xs[1..], e, q);
    }
  }

  /** The end of a segment can be set by writing the link of its last object. */
  lemma SegNewEnd(m: Heap, m': Heap, p: Link, xs: seq<nat>, e: nat, q: Link, q': Link)
    requires Seg(m, p, xs + [e], q) && e !in xs && m'.Next(e) == q'
    requires forall o :: o != e ==> m'.Next(o) == m.Next(o)
    ensures Seg(m', p, xs + [e], q')
  {
    SegSnoc(m, p, xs, e, q);
    SegFrame(m, m', p, xs, Node(e));
    SegSnoc(m', p, xs, e, q');
  }

  /** Two segments from the same place to end markers are the same. */
  lemma {:induction false} SegUnique(m: Heap, p: Link, xs: seq<nat>, q: Link, ys: seq<nat>, r: Link)
    requires Seg(m, p, xs, q) && Seg(m, p, ys, r) && q.Nulls? && r.Nulls?
    ensures xs == ys && q == r
    decreases |xs|
  {
    if xs != [] && ys != [] { SegUnique(m, m.Next(xs[0]), xs[1..], q, ys[1..], r); }
  }
}
