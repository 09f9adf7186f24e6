/** Nested bucket tables: a tree of pages addressed by groups of hash bits. */
module RhashNested {
  import opened PowerOfTwo
  import opened Sequences
  import opened Wrappers

  /** Pages of `Pow2(shift)` entries, a table of `Pow2(bits)` buckets. */
  datatype Shape = Shape(shift: nat, bits: nat) {
    /** What `nested_bucket_table_alloc` accepts. */
    predicate Valid() { shift > 0 && bits >= shift + 1 }

    function Len(): (n: nat)
      ensures n >= 1
    {
      Pow2(shift)
    }

    /** `tbl->nest`, the hash bits that index the top page. */
    function Nest(): nat
      requires Valid()
    {
      Log2OfPow2(bits);
      (Log2(Pow2(bits)) - 1) % shift + 1
    }

    /** The levels of pages below the top one. */
    function Levels(): nat
      requires Valid()
    {
      (bits - 1) / shift
    }
  }

  /** `nest` leaves a whole number of levels, at least one, and fits its page. */
  lemma NestLeavesWholeLevels(sh: Shape)
    requires sh.Valid()
    ensures 1 <= sh.Nest() <= sh.shift && sh.Levels() >= 1
    ensures (sh.bits - sh.Nest()) % sh.shift == 0
  {
    Log2OfPow2(sh.bits);
    SplitWidth(sh.bits, sh.shift);
  }

  /** The table's size is the top index range times the span of the levels below. */
  lemma SizeSplits(sh: Shape)
    requires sh.Valid()
    ensures sh.Levels() >= 1 && Pow2(sh.bits) == Pow2(sh.Nest()) * Span(sh.shift, sh.Levels())
  {
    Log2OfPow2(sh.bits);
    SplitWidth(sh.bits, sh.shift);
    SpanIsPow2(sh.shift, sh.Levels());
    Pow2Add(sh.Nest(), sh.shift * sh.Levels());
  }

  // ----- from a hash to a slot and back -----

  /** The page indices for the remaining bits, `n` levels of them. */
  function Digits(sh: Shape, h: nat, n: nat): (d: seq<nat>)
    requires n >= 1
    ensures |d| == n
  {
    if n == 1 then [h] else [Low(h, sh.Len())] + Digits(sh, High(h, sh.Len()), n - 1)
  }

  function FromDigits(sh: Shape, d: seq<nat>): nat {
    if d == [] then 0 else d[0] + sh.Len() * FromDigits(sh, d[1..])
  }

  /** The way of a hash down the pages: the top index, then one index a level. */
  function Slot(sh: Shape, h: nat): seq<nat>
    requires sh.Valid() && sh.Levels() >= 1
  {
    [h % Pow2(sh.Nest())] + Digits(sh, h / Pow2(sh.Nest()), sh.Levels())
  }

  function HashOf(sh: Shape, slot: seq<nat>): nat
    requires sh.Valid() && |slot| > 0
  {
    slot[0] + Pow2(sh.Nest()) * FromDigits(sh, slot[1..])
  }

  predicate InPages(sh: Shape, d: seq<nat>) { forall i :: 0 <= i < |d| ==> d[i] < sh.Len() }

  /** A slot that exists: an entry of a leaf page. */
  predicate IsSlot(sh: Shape, slot: seq<nat>)
    requires sh.Valid()
  {
    |slot| == 1 + sh.Levels() && slot[0] < Pow2(sh.Nest()) && InPages(sh, slot[1..])
  }

  lemma FromDigitsCons(sh: Shape, low: nat, rest: seq<nat>)
    ensures FromDigits(sh, [low] + rest) == low + sh.Len() * FromDigits(sh, rest)
    ensures InPages(sh, [low] + rest) <==> low < sh.Len() && InPages(sh, rest)
  {
    Cons(low, rest);
    assert forall i :: 0 <= i < |rest| ==> ([low] + rest)[i + 1] == rest[i];
  }

  lemma {:induction false} DigitsRoundTrip(sh: Shape, h: nat, n: nat)
    requires n >= 1 && h < Span(sh.shift, n)
    ensures InPages(sh, Digits(sh, h, n)) && FromDigits(sh, Digits(sh, h, n)) == h
  {
    if n == 1 {
      assert Span(sh.shift, 0) == 1;
      FromDigitsCons(sh, h, []);
    } else {
      var m := sh.Len();
      DivMod(h, m);
      DivBound(h, m, Span(sh.shift, n - 1));
      DigitsRoundTrip(sh, High(h, m), n - 1);
      FromDigitsCons(sh, Low(h, m), Digits(sh, High(h, m), n - 1));
    }
  }

  lemma {:induction false} FromDigitsRoundTrip(sh: Shape, d: seq<nat>)
    requires |d| >= 1 && InPages(sh, d)
    ensures FromDigits(sh, d) < Span(sh.shift, |d|) && Digits(sh, FromDigits(sh, d), |d|) == d
    decreases |d|
  {
    HeadTail(d);
    if |d| == 1 {
      assert d[1..] == [] && Span(sh.shift, 0) == 1;
    } else {
      var rest := d[1..];
      assert forall i :: 0 <= i < |rest| ==> rest[i] == d[i + 1];
      FromDigitsRoundTrip(sh, rest);
      Recompose(d[0], FromDigits(sh, rest), sh.Len());
      ComposeBound(d[0], FromDigits(sh, rest), sh.Len(), Span(sh.shift, |d| - 1));
    }
  }

  /** Hashes and leaf slots correspond one to one: every hash of the table reaches a slot that
      exists, every slot that exists is reached by exactly one hash. */
  lemma SlotBijection(sh: Shape, h: nat, slot: seq<nat>)
    requires sh.Valid() && sh.Levels() >= 1
    ensures h < Pow2(sh.bits) ==> IsSlot(sh, Slot(sh, h)) && HashOf(sh, Slot(sh, h)) == h
    ensures IsSlot(sh, slot) ==> HashOf(sh, slot) < Pow2(sh.bits) && Slot(sh, HashOf(sh, slot)) == slot
  {
    SizeSplits(sh);
    var top, n := Pow2(sh.Nest()), sh.Levels();
    if h < Pow2(sh.bits) {
      DivBound(h, top, Span(sh.shift, n));
      DivMod(h, top);
      DigitsRoundTrip(sh, h / top, n);
      Cons(h % top, Digits(sh, h / top, n));
    }
    if IsSlot(sh, slot) {
      HeadTail(slot);
      FromDigitsRoundTrip(sh, slot[1..]);
      Recompose(slot[0], FromDigits(sh, slot[1..]), top);
      ComposeBound(slot[0], FromDigits(sh, slot[1..]), top, Span(sh.shift, n));
    }
  }

  // ----- the tree of pages -----

  /** A page entry: no page yet, a page, or in a leaf page a bucket. */
  datatype Entry = Null | Table(page: seq<Entry>) | Bucket(head: nat)

  /** An entry with `n` levels of pages from here on. */
  predicate Wf(sh: Shape, e: Entry, n: nat) {
    e == Null ||
    (e.Table? && n >= 1 && |e.page| == sh.Len() &&
     forall i :: 0 <= i < |e.page| ==> if n == 1 then e.page[i].Bucket? else Wf(sh, e.page[i], n - 1))
  }

  predicate WfRoot(sh: Shape, root: Entry)
    requires sh.Valid()
  {
    && root.Table? && |root.page| == Pow2(sh.Nest())
    && forall i :: 0 <= i < |root.page| ==> Wf(sh, root.page[i], sh.Levels())
  }

  function At(e: Entry, path: seq<nat>): Entry {
    if path == [] then e
    else if e.Table? && path[0] < |e.page| then At(e.page[path[0]], path[1..])
    else Null
  }

  /** The bucket at a slot, if its page exists. */
  function Find(e: Entry, slot: seq<nat>): Option<nat> {
    match At(e, slot) case Bucket(h) => Some(h) case _ => None
  }

  /** `__rht_bucket_nested`: the loop over sizes and shifted hashes finds the slot's bucket. */
  method Lookup(sh: Shape, root: Entry, hash: nat) returns (r: Option<nat>)
    requires sh.Valid() && sh.Levels() >= 1 && WfRoot(sh, root) && hash < Pow2(sh.bits)
    ensures r == Find(root, Slot(sh, hash))
  {
    SizeSplits(sh);
    DivMod(hash, Pow2(sh.Nest()));
    DivMod(Pow2(sh.bits), Pow2(sh.Nest()));
    var index: nat := hash % Pow2(sh.Nest());
    var size: nat := Pow2(sh.bits) / Pow2(sh.Nest());
    var subhash: nat := hash / Pow2(sh.Nest());
    ghost var n: nat := sh.Levels();
    Recompose(0, Span(sh.shift, n), Pow2(sh.Nest()));
    DivBound(hash, Pow2(sh.Nest()), Span(sh.shift, n));
    var ntbl := root.page[index];
    Cons(index, Digits(sh, subhash, n));
    while ntbl != Null && size > sh.Len()
      invariant n >= 1 && size == Span(sh.shift, n) && subhash < size && Wf(sh, ntbl, n)
      invariant Find(root, Slot(sh, hash)) == Find(ntbl, Digits(sh, subhash, n))
      decreases n
    {
      SpanGrows(sh.shift, n);
      DivMod(subhash, sh.Len());
      index := subhash % sh.Len();
      DivBound(subhash, sh.Len(), Span(sh.shift, n - 1));
      Cons(index, Digits(sh, subhash / sh.Len(), n - 1));
      ntbl := ntbl.page[index];
      size := size / sh.Len();
      subhash := subhash / sh.Len();
      n := n - 1;
    }
    if ntbl == Null {
      return None;
    }
    SpanGrows(sh.shift, n);
    assert Span(sh.shift, 0) == 1 && subhash < |ntbl.page|;
    Cons(subhash, []);
    assert At(ntbl, [subhash]) == At(ntbl.page[subhash], []) == ntbl.page[subhash];
    return Some(ntbl.page[subhash].head);
  }

  // ----- allocation on the way -----

  /** The address of a page entry can be written: all pages above it exist. */
  predicate HasLoc(e: Entry, path: seq<nat>) {
    path == [] || (e.Table? && path[0] < |e.page| && HasLoc(e.page[path[0]], path[1..]))
  }

  function Put(e: Entry, path: seq<nat>, x: Entry): Entry
    requires HasLoc(e, path)
    decreases |path|
  {
    if path == [] then x else Table(e.page[path[0] := Put(e.page[path[0]], path[1..], x)])
  }

  /** The page of zeroes that `nested_table_alloc` hangs into an empty entry. */
  function FreshPage(sh: Shape, leaf: bool): Entry {
    Table(seq(sh.Len(), _ => if leaf then Bucket(0) else Null))
  }

  /** Reading at `p` after a fresh page is written at `loc`, where there was none. */
  lemma {:induction false} PutFresh(sh: Shape, e: Entry, loc: seq<nat>, p: seq<nat>, leaf: bool)
    requires HasLoc(e, loc) && At(e, loc) == Null
    ensures var after := Put(e, loc, FreshPage(sh, leaf)); HasLoc(after, loc) && At(after, loc) == FreshPage(sh, leaf)
    ensures At(e, p) != Null && !At(e, p).Table? ==> At(Put(e, loc, FreshPage(sh, leaf)), p) == At(e, p)
    ensures Find(e, p).Some? ==> Find(Put(e, loc, FreshPage(sh, leaf)), p) == Find(e, p)
    ensures Find(Put(e, loc, FreshPage(sh, leaf)), p).Some? && Find(e, p).None? ==>
              Find(Put(e, loc, FreshPage(sh, leaf)), p) == Some(0)
    decreases |loc|
  {
    if loc == [] {
      var f := FreshPage(sh, leaf);
      if p != [] && p[0] < |f.page| {
        var x := f.page[p[0]];
        assert At(x, p[1..]) == if p[1..] == [] then x else Null;
      }
    } else {
      var i := loc[0];
      PutFresh(sh, e.page[i], loc[1..], if p != [] then p[1..] else [], leaf);
    }
  }

  lemma {:induction false} PutFreshWf(sh: Shape, e: Entry, n: nat, loc: seq<nat>)
    requires Wf(sh, e, n) && HasLoc(e, loc) && At(e, loc) == Null && |loc| < n
    ensures Wf(sh, Put(e, loc, FreshPage(sh, |loc| + 1 == n)), n)
    decreases |loc|
  {
    var r := Put(e, loc, FreshPage(sh, |loc| + 1 == n));
    if loc == [] {
      forall i | 0 <= i < |r.page| ensures if n == 1 then r.page[i].Bucket? else Wf(sh, r.page[i], n - 1) {
        assert n > 1 ==> Wf(sh, Null, n - 1);
      }
    } else {
      var k := loc[0];
      PutFreshWf(sh, e.page[k], n - 1, loc[1..]);
      assert r.page == e.page[k := Put(e.page[k], loc[1..], FreshPage(sh, |loc[1..]| + 1 == n - 1))];
    }
  }

  lemma {:induction false} LocSnoc(e: Entry, loc: seq<nat>, i: nat)
    requires HasLoc(e, loc) && At(e, loc).Table? && i < |At(e, loc).page|
    ensures HasLoc(e, loc + [i]) && At(e, loc + [i]) == At(e, loc).page[i]
    decreases |loc|
  {
    if loc == [] {
      assert [i][1..] == [];
    } else {
      assert (loc + [i])[0] == loc[0] && (loc + [i])[1..] == loc[1..] + [i];
      LocSnoc(e.page[loc[0]], loc[1..], i);
    }
  }

  /** `after` has every bucket of `before`, and no others but empty ones. */
  ghost predicate OnlyAdds(before: Entry, after: Entry) {
    forall p: seq<nat> ::
      && (Find(before, p).Some? ==> Find(after, p) == Find(before, p))
      && (Find(before, p).None? && Find(after, p).Some? ==> Find(after, p) == Some(0))
  }

  /** A table whose pages are allocated on demand. */
  class NestedTable {
    const sh: Shape
    var root: Entry

    ghost predicate Valid()
      reads this
    {
      sh.Valid() && sh.Levels() >= 1 && WfRoot(sh, root)
    }

    /** `nested_table_alloc` on the entry at `loc`; `pages` is how many allocations still succeed. */
    method AllocAt(loc: seq<nat>, leaf: bool, pages: nat) returns (ok: bool, left: nat)
      requires Valid() && 1 <= |loc| <= sh.Levels() && leaf == (|loc| == sh.Levels())
      requires HasLoc(root, loc)
      modifies this`root
      ensures Valid() && HasLoc(root, loc) && OnlyAdds(old(root), root)
      ensures ok <==> At(root, loc) != Null
      ensures At(old(root), loc) != Null ==> root == old(root)
      ensures left <= pages <= left + 1 && (pages > 0 ==> ok)
    {
      left := pages;
      if At(root, loc) != Null {
        return true, left;
      }
      if pages == 0 {
        return false, left;
      }
      left := pages - 1;
      forall p: seq<nat> ensures
        var after := Put(root, loc, FreshPage(sh, leaf));
        && (Find(root, p).Some? ==> Find(after, p) == Find(root, p))
        && (Find(root, p).None? && Find(after, p).Some? ==> Find(after, p) == Some(0))
      {
        PutFresh(sh, root, loc, p, leaf);
      }
      PutFresh(sh, root, loc, loc, leaf);
      PutFreshWf(sh, root.page[loc[0]], sh.Levels(), loc[1..]);
      root := Put(root, loc, FreshPage(sh, leaf));
      ok := true;
    }

    /** `rht_bucket_nested_insert`: it ends at the very slot that `Lookup` finds, and changes no
        bucket that was there. */
    method BucketInsert(hash: nat, pages: nat) returns (r: Option<seq<nat>>)
      requires Valid() && hash < Pow2(sh.bits)
      modifies this`root
      ensures Valid() && OnlyAdds(old(root), root)
      ensures r.Some? ==> r.value == Slot(sh, hash) && Find(root, r.value).Some?
      ensures pages >= sh.Levels() ==> r.Some?
    {
      SizeSplits(sh);
      var m := Pow2(sh.Nest());
      DivMod(hash, m);
      DivMod(Pow2(sh.bits), m);
      Recompose(0, Span(sh.shift, sh.Levels()), m);
      DivBound(hash, m, Span(sh.shift, sh.Levels()));
      var index: nat := hash % m;
      var size: nat := Pow2(sh.bits) / m;
      var h: nat := hash / m;
      var loc := [index];
      ghost var n: nat := sh.Levels();
      SpanGrows(sh.shift, n);
      assert [index][1..] == [] && HasLoc(root, loc);
      var ok: bool;
      var left: nat;
      ok, left := AllocAt(loc, size <= sh.Len(), pages);
      while ok && size > sh.Len()
        invariant Valid() && OnlyAdds(old(root), root)
        invariant 1 <= n <= sh.Levels() && |loc| == sh.Levels() - n + 1
        invariant size == Span(sh.shift, n) && h < size && loc + Digits(sh, h, n) == Slot(sh, hash)
        invariant HasLoc(root, loc) && (ok <==> At(root, loc) != Null)
        invariant pages >= sh.Levels() ==> ok && left + |loc| >= pages
        decreases n
      {
        ghost var before := root;
        AtRootWf(sh, root, loc);
        SpanGrows(sh.shift, n);
        DivMod(h, sh.Len());
        DivBound(h, sh.Len(), Span(sh.shift, n - 1));
        index := h % sh.Len();
        size := size / sh.Len();
        h := h / sh.Len();
        n := n - 1;
        SpanGrows(sh.shift, n);
        LocSnoc(root, loc, index);
        Assoc(loc, [index], Digits(sh, h, n));
        loc := loc + [index];
        ok, left := AllocAt(loc, size <= sh.Len(), left);
        OnlyAddsTransitive(old(root), before, root);
      }
      if !ok {
        return None;
      }
      SpanGrows(sh.shift, n);
      assert Span(sh.shift, 0) == 1;
      AtRootWf(sh, root, loc);
      LocSnoc(root, loc, h);
      return Some(loc + [h]);
    }
  }

  lemma OnlyAddsTransitive(a: Entry, b: Entry, c: Entry)
    requires OnlyAdds(a, b) && OnlyAdds(b, c)
    ensures OnlyAdds(a, c)
  {
    forall p: seq<nat> ensures
      && (Find(a, p).Some? ==> Find(c, p) == Find(a, p))
      && (Find(a, p).None? && Find(c, p).Some? ==> Find(c, p) == Some(0))
    {
      assert Find(a, p).Some? ==> Find(b, p) == Find(a, p);
      assert Find(b, p).Some? ==> Find(c, p) == Find(b, p);
    }
  }

  lemma {:induction false} AtWf(sh: Shape, e: Entry, n: nat, loc: seq<nat>)
    requires Wf(sh, e, n) && HasLoc(e, loc) && |loc| < n
    ensures Wf(sh, At(e, loc), n - |loc|)
    decreases |loc|
  {
    if loc != [] { AtWf(sh, e.page[loc[0]], n - 1, loc[1..]); }
  }

  lemma AtRootWf(sh: Shape, root: Entry, loc: seq<nat>)
    requires sh.Valid() && WfRoot(sh, root) && 1 <= |loc| <= sh.Levels() && HasLoc(root, loc)
    ensures Wf(sh, At(root, loc), sh.Levels() - |loc| + 1)
  {
    AtWf(sh, root.page[loc[0]], sh.Levels(), loc[1..]);
  }

  // ----- freeing -----

  /** The pages below an entry of `n` levels, children before parents, by their addresses. */
  function PageList(sh: Shape, e: Entry, n: nat, at: seq<nat>): seq<seq<nat>>
    requires Wf(sh, e, n)
    decreases n, 0, 0
  {
    if e == Null then [] else (if n > 1 then PagesFrom(sh, e.page, n - 1, at, 0) else []) + [at]
  }

  function PagesFrom(sh: Shape, page: seq<Entry>, n: nat, at: seq<nat>, i: nat): seq<seq<nat>>
    requires i <= |page| && forall j :: 0 <= j < |page| ==> Wf(sh, page[j], n)
    decreases n, 1, |page| - i
  {
    if i == |page| then [] else PageList(sh, page[i], n, at + [i]) + PagesFrom(sh, page, n, at, i + 1)
  }

  /** `nested_table_free`: which entries are pages is told by the size alone. */
  method FreeEntry(sh: Shape, ntbl: Entry, size: nat, ghost n: nat, at: seq<nat>) returns (freed: seq<seq<nat>>)
    requires sh.shift > 0 && n >= 1 && Wf(sh, ntbl, n) && size == Span(sh.shift, n)
    ensures freed == PageList(sh, ntbl, n, at)
    decreases n
  {
    freed := [];
    if ntbl == Null {
      return;
    }
    SpanGrows(sh.shift, n);
    if size > sh.Len() {
      DivMod(size, sh.Len());
      var smaller: nat := size / sh.Len();
      var i: nat := 0;
      while i < |ntbl.page|
        invariant i <= |ntbl.page|
        invariant freed + PagesFrom(sh, ntbl.page, n - 1, at, i) == PagesFrom(sh, ntbl.page, n - 1, at, 0)
      {
        var some := FreeEntry(sh, ntbl.page[i], smaller, n - 1, at + [i]);
        Assoc(freed, some, PagesFrom(sh, ntbl.page, n - 1, at, i + 1));
        freed := freed + some;
        i := i + 1;
      }
      Empty(freed);
    }
    freed := freed + [at];
  }

  /** `nested_bucket_table_free`. */
  method FreeTable(sh: Shape, root: Entry) returns (freed: seq<seq<nat>>)
    requires sh.Valid() && sh.Levels() >= 1 && WfRoot(sh, root)
    ensures freed == PagesFrom(sh, root.page, sh.Levels(), [], 0) + [[]]
  {
    SizeSplits(sh);
    DivMod(Pow2(sh.bits), Pow2(sh.Nest()));
    Recompose(0, Span(sh.shift, sh.Levels()), Pow2(sh.Nest()));
    var size: nat := Pow2(sh.bits) / Pow2(sh.Nest());
    freed := [];
    var i: nat := 0;
    while i < Pow2(sh.Nest())
      invariant i <= |root.page|
      invariant freed + PagesFrom(sh, root.page, sh.Levels(), [], i) == PagesFrom(sh, root.page, sh.Levels(), [], 0)
    {
      var some := FreeEntry(sh, root.page[i], size, sh.Levels(), [i]);
      Empty([i]);
      Assoc(freed, some, PagesFrom(sh, root.page, sh.Levels(), [], i + 1));
      freed := freed + some;
      i := i + 1;
    }
    Empty(freed);
    freed := freed + [[]];
  }

  lemma NoDupAppend<T>(a: seq<T>, b: seq<T>)
    requires NoDup(a) && NoDup(b) && forall x :: x in a ==> x !in b
    ensures NoDup(a + b)
  {
    var s := a + b;
    forall i, j | 0 <= i < j < |s| ensures s[i] != s[j] {
      if i < |a| { assert s[i] in a; }
      if j >= |a| { assert s[j] in b; }
    }
  }

  /** `p` is the address `at` or leads on from it. */
  predicate Under(at: seq<nat>, p: seq<nat>) { |at| <= |p| && p[..|at|] == at }

  lemma UnderStep(at: seq<nat>, i: nat, p: seq<nat>)
    ensures Under(at + [i], p) <==> Under(at, p) && |p| > |at| && p[|at|] == i
    ensures Under(at, p) && |p| > |at| ==> p[|at|..] == [p[|at|]] + p[|at| + 1..]
  {
    if Under(at + [i], p) {
      assert p[..|at|] == p[..|at| + 1][..|at|] == at;
      assert p[|at|] == p[..|at| + 1][|at|];
    }
    if Under(at, p) && |p| > |at| && p[|at|] == i { assert p[..|at| + 1] == p[..|at|] + [p[|at|]]; }
  }

  lemma {:induction false} PagesFromExact(sh: Shape, page: seq<Entry>, n: nat, at: seq<nat>, i: nat)
    requires n >= 1 && i <= |page| && forall j :: 0 <= j < |page| ==> Wf(sh, page[j], n)
    ensures NoDup(PagesFrom(sh, page, n, at, i))
    ensures forall p: seq<nat> :: p in PagesFrom(sh, page, n, at, i) <==>
              Under(at, p) && |p| > |at| && i <= p[|at|] < |page| && At(page[p[|at|]], p[|at| + 1..]).Table?
    decreases n, 1, |page| - i
  {
    if i < |page| {
      var here, later := PageList(sh, page[i], n, at + [i]), PagesFrom(sh, page, n, at, i + 1);
      PageListExact(sh, page[i], n, at + [i]);
      PagesFromExact(sh, page, n, at, i + 1);
      forall p: seq<nat> ensures Under(at + [i], p) <==> Under(at, p) && |p| > |at| && p[|at|] == i {
        UnderStep(at, i, p);
      }
      NoDupAppend(here, later);
    }
  }

  /** Every allocated page below an entry is freed exactly once, and nothing else is. */
  lemma {:induction false} PageListExact(sh: Shape, e: Entry, n: nat, at: seq<nat>)
    requires n >= 1 && Wf(sh, e, n)
    ensures NoDup(PageList(sh, e, n, at))
    ensures forall p: seq<nat> :: p in PageList(sh, e, n, at) <==> Under(at, p) && At(e, p[|at|..]).Table?
    decreases n, 0, 0
  {
    if e.Table? {
      var below := if n > 1 then PagesFrom(sh, e.page, n - 1, at, 0) else [];
      if n > 1 { PagesFromExact(sh, e.page, n - 1, at, 0); }
      NoDupAppend(below, [at]);
      forall p: seq<nat> ensures p in below + [at] <==> Under(at, p) && At(e, p[|at|..]).Table? {
        if Under(at, p) && |p| > |at| {
          UnderStep(at, p[|at|], p);
          Cons(p[|at|], p[|at| + 1..]);
        } else if Under(at, p) {
          assert p == at && p[|at|..] == [];
        }
      }
    }
  }

  /** `nested_bucket_table_free` frees the top page and every allocated page, each exactly once. */
  lemma FreeTableExact(sh: Shape, root: Entry)
    requires sh.Valid() && sh.Levels() >= 1 && WfRoot(sh, root)
    ensures var freed := PagesFrom(sh, root.page, sh.Levels(), [], 0) + [[]];
            NoDup(freed) && forall p: seq<nat> :: p in freed <==> At(root, p).Table?
  {
    PagesFromExact(sh, root.page, sh.Levels(), [], 0);
    var below := PagesFrom(sh, root.page, sh.Levels(), [], 0);
    NoDupAppend(below, [[]]);
    forall p: seq<nat> ensures p in below + [[]] <==> At(root, p).Table? {
      if p != [] { assert p[0 + 1..] == p[1..] && Under([], p); }
    }
  }
}
