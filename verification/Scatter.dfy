/** Iterating over the pages of a scatter list, as one position in its concatenated bytes. */
module Scatter {
  const PAGE: nat := 4096

  /** What 32-bit numbers wrap at. */
  const WRAP: nat := 0x1_0000_0000

  /** `length` bytes from `offset` in the first of a run of pages. */
  datatype Seg = Seg(offset: nat, length: nat)

  /** The pages a segment touches. */
  function Pages(s: Seg): nat { (s.offset + s.length + PAGE - 1) / PAGE }

  /** The offset is within the first page, and the end rounded up to a page is a 32-bit number. */
  predicate Fits(s: Seg) { s.offset < PAGE && s.offset + s.length + PAGE <= WRAP }

  predicate AllFit(segs: seq<Seg>) { forall i :: 0 <= i < |segs| ==> Fits(segs[i]) }

  /** `sg_page_count`, in 32-bit arithmetic. */
  function PageCount(s: Seg): (n: nat)
    ensures s.offset + s.length + PAGE <= WRAP ==> n == Pages(s)
  {
    var end: nat := (s.offset + s.length) % WRAP;
    (end + PAGE - 1) % WRAP / PAGE
  }

  lemma WrapDiv(x: nat)
    ensures x % WRAP / PAGE == x / PAGE <==> x < WRAP
  {
    var q: nat := x / WRAP;
    assert x == q * WRAP + x % WRAP;
  }

  /** It is right exactly for segments that end that far below the wrap. */
  lemma PageCountExact(s: Seg)
    ensures PageCount(s) == Pages(s) <==> s.offset + s.length + PAGE <= WRAP
  {
    var x := s.offset + s.length + PAGE - 1;
    assert ((s.offset + s.length) % WRAP + PAGE - 1) % WRAP == x % WRAP;
    WrapDiv(x);
  }

  function Total(segs: seq<Seg>): nat
    decreases |segs|
  {
    if segs == [] then 0 else Total(segs[..|segs| - 1]) + segs[|segs| - 1].length
  }

  lemma TotalNext(segs: seq<Seg>, i: nat)
    requires i < |segs|
    ensures Total(segs[..i + 1]) == Total(segs[..i]) + segs[i].length
  {
    assert segs[..i + 1][..i] == segs[..i];
  }

  /** Where the mapping of page `k` starts in its segment. */
  function PageStart(s: Seg, k: nat): nat {
    if k == 0 then 0 else if k * PAGE >= s.offset + s.length then s.length
    else if k * PAGE < s.offset then 0 else k * PAGE - s.offset
  }

  class Miter {
    const sgl: seq<Seg>
    const entries: nat

    // the page iterator
    var sg: nat
    var nents: nat
    var pgoffset: nat
    var advance: nat
    // the mapping iterator
    var offset: nat
    var remaining: nat
    var mapped: bool
    var length: nat
    var consumed: nat

    /** How many segments are iterated over. */
    ghost function Used(): nat { if entries < |sgl| then entries else |sgl| }

    /** Inside a page: what is left is up to the end of the page or of the segment. */
    ghost predicate InPage()
      reads this
    {
      && sg < Used() && advance == 1 && pgoffset < Pages(sgl[sg])
      && var s := sgl[sg];
      && var here := pgoffset * PAGE + offset;
      && s.offset <= here && here + remaining <= s.offset + s.length && offset + remaining <= PAGE
      && (here + remaining == s.offset + s.length || offset + remaining == PAGE)
    }

    ghost predicate Valid()
      reads this
    {
      && AllFit(sgl)
      && sg <= Used() && nents + sg == entries
      && (if sg == Used() then remaining == 0 && !mapped
          else InPage() || (advance == pgoffset == sg == offset == remaining == 0 && !mapped))
      && if mapped then length == remaining && consumed <= length else length == consumed == 0
    }

    /** The position in the concatenated bytes. */
    ghost function At(): int
      reads this
    {
      if sg >= Used() then Total(sgl[..Used()])
      else if advance == 0 then 0
      else Total(sgl[..sg]) + pgoffset * PAGE + offset - sgl[sg].offset
    }

    /** The pages of the current segment still to come, and one more before the first. */
    ghost function PagesAhead(): int
      reads this
    {
      if sg >= Used() then 0 else Pages(sgl[sg]) - pgoffset + 1 - advance
    }

    constructor (sgl: seq<Seg>, nents: nat)
      requires AllFit(sgl)
      ensures Valid() && this.sgl == sgl && entries == nents && At() == 0 && !mapped
    {
      this.sgl, entries := sgl, nents;
      sg, this.nents, pgoffset, advance, offset, remaining := 0, nents, 0, 0, 0, 0;
      mapped, length, consumed := false, 0, 0;
    }

    /** The next page, the one after the current one or the first. */
    method PageIterNext() returns (ok: bool)
      requires Valid() && remaining == 0 && !mapped
      modifies `sg, `nents, `pgoffset, `advance
      ensures sg <= Used() && nents + sg == entries
      ensures if ok then sg < Used() && advance == 1 && pgoffset < Pages(sgl[sg]) &&
                         Total(sgl[..sg]) + PageStart(sgl[sg], pgoffset) == old(At())
              else sg == Used() && old(At()) == Total(sgl[..Used()])
      ensures ok ==> sg > old(sg) || (sg == old(sg) && pgoffset == old(pgoffset + advance))
    {
      if nents == 0 || sg == |sgl| { return false; }
      ghost var at := At();
      pgoffset := pgoffset + advance;
      advance := 1;
      while pgoffset >= PageCount(sgl[sg])
        invariant sg < Used() && nents + sg == entries && advance == 1 && pgoffset <= Pages(sgl[sg])
        invariant Total(sgl[..sg]) + PageStart(sgl[sg], pgoffset) == at
        invariant sg > old(sg) || (sg == old(sg) && pgoffset == old(pgoffset + advance))
        decreases |sgl| - sg
      {
        TotalNext(sgl, sg);
        pgoffset := pgoffset - PageCount(sgl[sg]);
        sg := sg + 1;
        nents := nents - 1;
        if nents == 0 || sg == |sgl| { return false; }
      }
      ok := true;
    }

    /** A page with what is left of it, moving on when the current one is used up. */
    method GetNextPage() returns (ok: bool)
      requires Valid() && !mapped
      modifies `sg, `nents, `pgoffset, `advance, `offset, `remaining
      ensures Valid() && At() == old(At())
      ensures ok ==> InPage()
      ensures !ok ==> sg == Used()
      ensures old(remaining) > 0 ==> ok && unchanged(this)
      ensures ok && old(remaining) == 0 ==> sg > old(sg) || (sg == old(sg) && PagesAhead() < old(PagesAhead()))
    {
      ok := true;
      if remaining == 0 {
        ok := PageIterNext();
        if ok {
          var s := sgl[sg];
          offset := if pgoffset != 0 then 0 else s.offset;
          remaining := s.offset + s.length - pgoffset * PAGE - offset;
          if PAGE - offset < remaining { remaining := PAGE - offset; }
        }
      }
    }

    method Stop()
      requires Valid()
      modifies `offset, `remaining, `mapped, `length, `consumed
      ensures Valid() && !mapped && At() == old(At() + consumed)
      ensures remaining == old(remaining - consumed)
    {
      if mapped {
        offset, remaining := offset + consumed, remaining - consumed;
        mapped, length, consumed := false, 0, 0;
      }
    }

    /** Maps the next bytes, all of them taken as consumed unless the caller says otherwise. */
    method Next() returns (ok: bool)
      requires Valid()
      modifies this
      ensures Valid() && At() == old(At() + consumed)
      ensures ok ==> mapped && InPage() && consumed == length == remaining
      ensures !ok ==> !mapped && sg == Used()
      ensures ok && old(consumed == remaining) ==>
                sg > old(sg) || (sg == old(sg) && PagesAhead() < old(PagesAhead()))
    {
      Stop();
      ok := GetNextPage();
      if ok { mapped, length, consumed := true, remaining, remaining; }
    }

    /** Passes bytes of the current page. */
    method Take(part: nat)
      requires Valid() && !mapped && InPage() && part <= remaining
      modifies `offset, `remaining
      ensures Valid() && At() == old(At()) + part && remaining == old(remaining) - part && InPage()
    {
      offset, remaining := offset + part, remaining - part;
    }

    /** Moves on by `n` bytes, past the rest of a mapping. */
    method Skip(n: nat) returns (ok: bool)
      requires Valid()
      modifies this
      ensures Valid() && !mapped
      ensures ok ==> At() == old(At() + consumed) + n
      ensures !ok ==> sg == Used() && At() < old(At() + consumed) + n
    {
      Stop();
      var left: nat := n;
      while left > 0
        invariant left <= n && Valid() && !mapped && At() == old(At() + consumed) + n - left
        decreases left, Used() - sg, PagesAhead()
      {
        ok := GetNextPage();
        if !ok { return; }
        var part := if left < remaining then left else remaining;
        Take(part);
        left := left - part;
      }
      ok := true;
    }
  }
}
