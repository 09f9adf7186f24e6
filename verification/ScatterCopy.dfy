/** Copying between a scatter list and a buffer (`sg_copy_buffer`). */
module ScatterCopy {
  import opened Sequences
  import opened Scatter
  import opened ScatterRounds

  function Flat<T>(mem: seq<seq<T>>): seq<T>
    decreases |mem|
  {
    if mem == [] then [] else Flat(mem[..|mem| - 1]) + mem[|mem| - 1]
  }

  predicate Backs<T>(mem: seq<seq<T>>, sgl: seq<Seg>) {
    |mem| == |sgl| && forall i :: 0 <= i < |sgl| ==> |mem[i]| == sgl[i].length
  }

  lemma {:induction false} FlatLength<T>(mem: seq<seq<T>>, sgl: seq<Seg>)
    requires Backs(mem, sgl)
    ensures |Flat(mem)| == Total(sgl)
    decreases |sgl|
  {
    if sgl != [] { FlatLength(mem[..|mem| - 1], sgl[..|sgl| - 1]); }
  }

  /** Bytes of one segment are bytes of the whole, and storing there is storing in the whole. */
  /** A sequence with one element replaced, without its last. */
  lemma InitOfUpdate<T>(mem: seq<seq<T>>, i: nat, x: seq<T>)
    requires i < |mem|
    ensures var n := |mem| - 1;
            && mem[..n][..i] == mem[..i] && mem[i := x][n] == (if i == n then x else mem[n])
            && mem[i := x][..n] == (if i == n then mem[..n] else mem[..n][i := x])
  {
  }

  lemma {:induction false} FlatStore<T>(mem: seq<seq<T>>, i: nat, a: nat, bytes: seq<T>)
    requires i < |mem| && a + |bytes| <= |mem[i]|
    ensures |Flat(mem[..i])| + a + |bytes| <= |Flat(mem)|
    ensures Flat(mem[i := Stored(mem[i], a, bytes)]) == Stored(Flat(mem), |Flat(mem[..i])| + a, bytes)
    decreases |mem|
  {
    var n := |mem| - 1;
    var low, last := mem[..n], mem[n];
    InitOfUpdate(mem, i, Stored(mem[i], a, bytes));
    if i == n {
      StoredPrepend(Flat(low), last, a, bytes);
    } else {
      FlatStore(low, i, a, bytes);
      StoredAppend(Flat(low), last, |Flat(mem[..i])| + a, bytes);
    }
  }

  lemma {:induction false} FlatSlice<T>(mem: seq<seq<T>>, i: nat, a: nat, n: nat)
    requires i < |mem| && a + n <= |mem[i]|
    ensures var at := |Flat(mem[..i])| + a; at + n <= |Flat(mem)| && Flat(mem)[at..at + n] == mem[i][a..a + n]
    decreases |mem|
  {
    var top := |mem| - 1;
    var low, last := mem[..top], mem[top];
    var at := |Flat(mem[..i])| + a;
    if i == top {
      assert Flat(mem)[at..at + n] == last[a..a + n];
    } else {
      FlatSlice(low, i, a, n);
      assert low[..i] == mem[..i] && Flat(mem)[at..at + n] == Flat(low)[at..at + n];
    }
  }

  // ----- one mapping -----

  /** The mapping in front of the iterator is the bytes at its position. */
  lemma MappingAt<T>(m: Miter, mem: seq<seq<T>>)
    requires m.Valid() && m.InPage() && Backs(mem, m.sgl)
    ensures var a := m.pgoffset * PAGE + m.offset - m.sgl[m.sg].offset;
            && a >= 0 && a + m.remaining <= |mem[m.sg]| && m.sg < m.Used() <= |mem|
            && m.At() == |Flat(mem[..m.sg])| + a
  {
    FlatLength(mem[..m.sg], m.sgl[..m.sg]);
  }

  lemma UsedPrefix<T>(mem: seq<seq<T>>, used: nat, i: nat, x: seq<T>)
    requires i < used <= |mem|
    ensures mem[i := x][..used] == mem[..used][i := x] && mem[..used][..i] == mem[..i] && mem[..used][i] == mem[i]
  {
  }

  /** The bytes that `memcpy` reads from a mapping. */
  method ReadMapping<T>(m: Miter, ghost whole: seq<T>, mem: seq<seq<T>>, len: nat) returns (bytes: seq<T>)
    requires m.Valid() && m.InPage() && Backs(mem, m.sgl) && len <= m.remaining && whole == Flat(mem[..m.Used()])
    ensures 0 <= m.At() && m.At() + len <= |whole| && bytes == whole[m.At()..m.At() + len]
  {
    MappingAt(m, mem);
    var a := m.pgoffset * PAGE + m.offset - m.sgl[m.sg].offset;
    UsedPrefix(mem, m.Used(), m.sg, mem[m.sg]);
    FlatSlice(mem[..m.Used()], m.sg, a, len);
    bytes := mem[m.sg][a..a + len];
  }

  /** And the store of `memcpy` into one. */
  method WriteMapping<T>(m: Miter, mem0: seq<seq<T>>, bytes: seq<T>) returns (mem: seq<seq<T>>)
    requires m.Valid() && m.InPage() && Backs(mem0, m.sgl) && |bytes| <= m.remaining
    ensures Backs(mem, m.sgl) && mem[m.Used()..] == mem0[m.Used()..]
    ensures 0 <= m.At() && m.At() + |bytes| <= |Flat(mem0[..m.Used()])|
    ensures Flat(mem[..m.Used()]) == Stored(Flat(mem0[..m.Used()]), m.At(), bytes)
  {
    MappingAt(m, mem0);
    var a := m.pgoffset * PAGE + m.offset - m.sgl[m.sg].offset;
    mem := mem0[m.sg := Stored(mem0[m.sg], a, bytes)];
    UsedPrefix(mem0, m.Used(), m.sg, mem[m.sg]);
    FlatStore(mem0[..m.Used()], m.sg, a, bytes);
  }

  // ----- the whole copy -----

  /** A mapping that is not empty is the room there is at its position. */
  lemma RoomHere(m: Miter)
    requires m.Valid() && m.InPage() && m.remaining > 0
    ensures 0 <= m.At() < Total(m.sgl[..m.Used()]) && Room(m.sgl[..m.Used()], m.At()) == m.remaining
  {
    var segs, s := m.sgl[..m.Used()], m.sgl[m.sg];
    var a := m.pgoffset * PAGE + m.offset - s.offset;
    assert segs[..m.sg] == m.sgl[..m.sg] && segs[m.sg] == s;
    RoomAt(segs, m.sg, a);
    PageRest(m.pgoffset, m.offset);
  }

  lemma PageRest(k: nat, offset: nat)
    requires offset < PAGE
    ensures (k * PAGE + offset) % PAGE == offset
  {
  }

  lemma RoundHere(m: Miter, p: nat, n: nat, buflen: nat)
    requires m.Valid() && m.InPage() && m.At() == p && n < buflen
    ensures OneRound(m.sgl[..m.Used()], p, n, buflen, Min(m.remaining, buflen - n), m.remaining)
  {
    if m.remaining > 0 { RoomHere(m); } else { AtWithin(m); }
  }

  lemma AtWithin(m: Miter)
    requires m.Valid() && m.InPage()
    ensures m.At() + m.remaining <= Total(m.sgl[..m.Used()])
  {
    var segs := m.sgl[..m.Used()];
    assert segs[..m.sg] == m.sgl[..m.sg] && segs[..m.sg + 1] == m.sgl[..m.sg + 1];
    TotalNext(m.sgl, m.sg);
    TotalGrows(segs, m.sg + 1);
  }

  lemma {:induction false} TotalGrows(segs: seq<Seg>, i: nat)
    requires i <= |segs|
    ensures Total(segs[..i]) <= Total(segs)
    decreases |segs|
  {
    if i < |segs| {
      TotalGrows(segs[..|segs| - 1], i);
      assert segs[..|segs| - 1][..i] == segs[..i];
    } else {
      assert segs[..i] == segs;
    }
  }

  /** The copy has got to position `p` of the list with its counter at `n`: with the rounds to come, the
      bytes and the counter end up where all the rounds from the start take them. */
  ghost predicate Reaches<T>(segs: seq<Seg>, whole: seq<T>, buf0: seq<T>, buflen: nat, skip: nat, toBuffer: bool,
                             now: seq<T>, buf: seq<T>, p: nat, n: nat)
  {
    && |now| == |whole| == Total(segs) && |buf| == |buf0| >= buflen && n < WRAP
    && var all, rest := Rounds(segs, skip, 0, buflen), Rounds(segs, p, n, buflen);
    && Ends(n, rest) == Ends(0, all)
    && if toBuffer
       then now == whole && FetchAll(whole, buf, rest, p, n, buflen) == FetchAll(whole, buf0, all, skip, 0, buflen)
       else buf == buf0 && PutAll(now, buf0, rest, p, n, buflen) == PutAll(whole, buf0, all, skip, 0, buflen)
  }

  /** A mapping: empty, or with all the room there is. */
  predicate OneRound(segs: seq<Seg>, p: nat, n: nat, buflen: nat, len: nat, room: nat) {
    && p + room <= Total(segs) && n < buflen && len == Min(room, buflen - n)
    && (room > 0 ==> p < Total(segs) && room == Room(segs, p))
  }

  /** The rounds that are left, after one. */
  lemma RoundsAfter<T>(segs: seq<Seg>, whole: seq<T>, buf: seq<T>, buflen: nat, p: nat, n: nat, len: nat, room: nat)
    requires |whole| == Total(segs) && buflen <= |buf|
    requires OneRound(segs, p, n, buflen, len, room) && room > 0
    ensures var rs, rest := Rounds(segs, p, n, buflen), Rounds(segs, p + room, (n + len) % WRAP, buflen);
            && Ends(n, rs) == Ends((n + len) % WRAP, rest)
            && FetchAll(whole, buf, rs, p, n, buflen)
               == FetchAll(whole, Moved(buf, n, whole, p, len), rest, p + room, (n + len) % WRAP, buflen)
            && PutAll(whole, buf, rs, p, n, buflen)
               == PutAll(Moved(whole, p, buf, n, len), buf, rest, p + room, (n + len) % WRAP, buflen)
  {
    FirstRound(segs, p, n, buflen);
  }

  lemma ReachesOut<T>(segs: seq<Seg>, whole: seq<T>, buf0: seq<T>, buflen: nat, skip: nat, buf: seq<T>, p: nat, n: nat,
                      len: nat, room: nat)
    requires Reaches(segs, whole, buf0, buflen, skip, true, whole, buf, p, n)
    requires OneRound(segs, p, n, buflen, len, room) && room > 0
    ensures Reaches(segs, whole, buf0, buflen, skip, true, whole, Moved(buf, n, whole, p, len), p + room, (n + len) % WRAP)
  {
    RoundsAfter(segs, whole, buf, buflen, p, n, len, room);
  }

  lemma ReachesIn<T>(segs: seq<Seg>, whole: seq<T>, buf: seq<T>, buflen: nat, skip: nat, now: seq<T>, p: nat, n: nat,
                     len: nat, room: nat)
    requires Reaches(segs, whole, buf, buflen, skip, false, now, buf, p, n)
    requires OneRound(segs, p, n, buflen, len, room) && room > 0
    ensures Reaches(segs, whole, buf, buflen, skip, false, Moved(now, p, buf, n, len), buf, p + room, (n + len) % WRAP)
  {
    RoundsAfter(segs, now, buf, buflen, p, n, len, room);
  }

  lemma StoredNothing<T>(s: seq<T>, a: nat)
    requires a <= |s|
    ensures Stored(s, a, []) == s
  {
  }

  /** The segments behind the ones used are as they were. */
  ghost predicate Kept<T>(sgl: seq<Seg>, used: nat, mem0: seq<seq<T>>, mem: seq<seq<T>>) {
    used <= |sgl| && Backs(mem0, sgl) && Backs(mem, sgl) && mem[used..] == mem0[used..]
  }

  /** And those in front hold what has been copied so far. */
  ghost predicate Copying<T>(sgl: seq<Seg>, used: nat, mem0: seq<seq<T>>, buf0: seq<T>, buflen: nat, skip: nat, toBuffer: bool,
                             mem: seq<seq<T>>, buf: seq<T>, p: nat, n: nat)
  {
    && Kept(sgl, used, mem0, mem) && (toBuffer ==> mem == mem0)
    && Reaches(sgl[..used], Flat(mem0[..used]), buf0, buflen, skip, toBuffer, Flat(mem[..used]), buf, p, n)
  }

  /** An empty mapping changes nothing. */
  lemma NothingCopied<T>(s: seq<T>, a: nat, from: seq<T>, b: nat, n: nat)
    requires a <= |s| && b <= |from| && n < WRAP
    ensures Stored(s, a, from[b..b]) == s && n % WRAP == n
  {
    assert from[b..b] == [];
    StoredNothing(s, a);
  }

  /** One `memcpy` of `len` bytes, in either direction. */
  ghost predicate OneCopy<T>(sgl: seq<Seg>, used: nat, toBuffer: bool, mem1: seq<seq<T>>, buf1: seq<T>,
                             mem: seq<seq<T>>, buf: seq<T>, p: nat, n: nat, len: nat)
  {
    && Kept(sgl, used, mem1, mem) && n + len <= |buf1| && p + len <= |Flat(mem1[..used])|
    && var now := Flat(mem1[..used]);
    if toBuffer then mem == mem1 && buf == Stored(buf1, n, now[p..p + len])
    else buf == buf1 && Flat(mem[..used]) == Stored(now, p, buf1[n..n + len])
  }

  lemma CopyingOut<T>(sgl: seq<Seg>, used: nat, mem0: seq<seq<T>>, buf0: seq<T>, buflen: nat, skip: nat,
                      mem: seq<seq<T>>, buf: seq<T>, p: nat, n: nat, len: nat, room: nat)
    requires Copying(sgl, used, mem0, buf0, buflen, skip, true, mem, buf, p, n)
    requires OneRound(sgl[..used], p, n, buflen, len, room)
    ensures Copying(sgl, used, mem0, buf0, buflen, skip, true, mem, Stored(buf, n, Flat(mem[..used])[p..p + len]),
                    p + room, (n + len) % WRAP)
  {
    var whole := Flat(mem[..used]);
    if room > 0 {
      MovedStored(buf, n, whole, p, len);
      ReachesOut(sgl[..used], whole, buf0, buflen, skip, buf, p, n, len, room);
    } else {
      NothingCopied(buf, n, whole, p, n);
    }
  }

  lemma CopyingIn<T>(sgl: seq<Seg>, used: nat, mem0: seq<seq<T>>, buf: seq<T>, buflen: nat, skip: nat,
                     mem1: seq<seq<T>>, mem: seq<seq<T>>, p: nat, n: nat, len: nat, room: nat)
    requires Copying(sgl, used, mem0, buf, buflen, skip, false, mem1, buf, p, n)
    requires OneRound(sgl[..used], p, n, buflen, len, room) && Kept(sgl, used, mem1, mem)
    requires Flat(mem[..used]) == Stored(Flat(mem1[..used]), p, buf[n..n + len])
    ensures Copying(sgl, used, mem0, buf, buflen, skip, false, mem, buf, p + room, (n + len) % WRAP)
  {
    var now := Flat(mem1[..used]);
    if room > 0 {
      MovedStored(now, p, buf, n, len);
      ReachesIn(sgl[..used], Flat(mem0[..used]), buf, buflen, skip, now, p, n, len, room);
    } else {
      NothingCopied(now, p, buf, n, n);
    }
  }

  /** It brings the copy one round further. */
  lemma CopyingOne<T>(sgl: seq<Seg>, used: nat, mem0: seq<seq<T>>, buf0: seq<T>, buflen: nat, skip: nat, toBuffer: bool,
                      mem1: seq<seq<T>>, buf1: seq<T>, mem: seq<seq<T>>, buf: seq<T>, p: nat, n: nat, len: nat, room: nat)
    requires Copying(sgl, used, mem0, buf0, buflen, skip, toBuffer, mem1, buf1, p, n)
    requires OneRound(sgl[..used], p, n, buflen, len, room) && OneCopy(sgl, used, toBuffer, mem1, buf1, mem, buf, p, n, len)
    ensures Copying(sgl, used, mem0, buf0, buflen, skip, toBuffer, mem, buf, p + room, (n + len) % WRAP)
  {
    if toBuffer {
      CopyingOut(sgl, used, mem0, buf0, buflen, skip, mem1, buf1, p, n, len, room);
    } else {
      CopyingIn(sgl, used, mem0, buf0, buflen, skip, mem1, mem, p, n, len, room);
    }
  }

  /** A mapping is in front of the iterator, or it is past the end. */
  ghost predicate Positioned(m: Miter, ok: bool)
    reads m
  {
    && m.Valid()
    && if ok then m.mapped && m.InPage() && m.consumed == m.length == m.remaining
       else m.At() == Total(m.sgl[..m.Used()])
  }

  /** One round: what the mapping has of the bytes still wanted. */
  method CopyRound<T>(m: Miter, toBuffer: bool, mem1: seq<seq<T>>, buf1: seq<T>, ghost p: nat, n: nat, len: nat)
    returns (mem: seq<seq<T>>, buf: seq<T>)
    requires m.Valid() && m.InPage() && m.At() == p && len <= m.remaining && n + len <= |buf1| && Backs(mem1, m.sgl)
    ensures OneCopy(m.sgl, m.Used(), toBuffer, mem1, buf1, mem, buf, p, n, len)
  {
    mem, buf := mem1, buf1;
    if toBuffer {
      var bytes := ReadMapping(m, Flat(mem1[..m.Used()]), mem1, len);
      buf := Stored(buf1, n, bytes);
    } else {
      mem := WriteMapping(m, mem1, buf1[n..n + len]);
    }
  }

  method NextMapping(m: Miter) returns (ok: bool)
    requires m.Valid()
    modifies m
    ensures Positioned(m, ok) && m.At() == old(m.At() + m.consumed)
    ensures ok && old(m.consumed == m.remaining) ==>
              m.sg > old(m.sg) || (m.sg == old(m.sg) && m.PagesAhead() < old(m.PagesAhead()))
    ensures m.Valid() && m.sg <= m.Used()
  {
    ok := m.Next();
  }

  /** The body of the loop, with its counter in 32 bits. */
  method CopyOne<T>(m: Miter, ghost mem0: seq<seq<T>>, ghost buf0: seq<T>, buflen: nat, ghost skip: nat, toBuffer: bool,
                    mem1: seq<seq<T>>, buf1: seq<T>, ghost p1: nat, n1: nat)
    returns (n: nat, mem: seq<seq<T>>, buf: seq<T>, ghost p: nat)
    requires Positioned(m, true) && m.At() == p1 && n1 < buflen
    requires Copying(m.sgl, m.Used(), mem0, buf0, buflen, skip, toBuffer, mem1, buf1, p1, n1)
    ensures p == m.At() + m.consumed
    ensures Copying(m.sgl, m.Used(), mem0, buf0, buflen, skip, toBuffer, mem, buf, p, n)
  {
    var len := Min(m.length, buflen - n1);
    RoundHere(m, p1, n1, buflen);
    mem, buf := CopyRound(m, toBuffer, mem1, buf1, p1, n1, len);
    CopyingOne(m.sgl, m.Used(), mem0, buf0, buflen, skip, toBuffer, mem1, buf1, mem, buf, p1, n1, len, m.length);
    n, p := (n1 + len) % WRAP, p1 + m.length;
  }

  method CopyLoop<T>(m: Miter, ghost mem0: seq<seq<T>>, ghost buf0: seq<T>, buflen: nat, ghost skip: nat, toBuffer: bool,
                     mem1: seq<seq<T>>, buf1: seq<T>)
    returns (n: nat, mem: seq<seq<T>>, buf: seq<T>, ghost p: nat)
    requires m.Valid() && m.At() + m.consumed == skip
    requires Copying(m.sgl, m.Used(), mem0, buf0, buflen, skip, toBuffer, mem1, buf1, skip, 0)
    modifies m
    ensures Copying(m.sgl, m.Used(), mem0, buf0, buflen, skip, toBuffer, mem, buf, p, n)
    ensures n >= buflen || p >= Total(m.sgl[..m.Used()])
  {
    mem, buf, n, p := mem1, buf1, 0, skip;
    var ok := NextMapping(m);
    while ok && n < buflen
      invariant Positioned(m, ok) && m.At() == p
      invariant Copying(m.sgl, m.Used(), mem0, buf0, buflen, skip, toBuffer, mem, buf, p, n)
      decreases ok, m.Used() - m.sg, m.PagesAhead()
    {
      n, mem, buf, p := CopyOne(m, mem0, buf0, buflen, skip, toBuffer, mem, buf, p, n);
      ok := NextMapping(m);
    }
  }

  /** What the rounds from `skip` on make of the list and the buffer. */
  ghost predicate CopiedAll<T>(sgl: seq<Seg>, used: nat, mem0: seq<seq<T>>, buf0: seq<T>, buflen: nat, skip: nat,
                               toBuffer: bool, mem: seq<seq<T>>, buf: seq<T>)
  {
    && Kept(sgl, used, mem0, mem) && buflen <= |buf0| && |Flat(mem0[..used])| == Total(sgl[..used])
    && var whole, rs := Flat(mem0[..used]), Rounds(sgl[..used], skip, 0, buflen);
    if toBuffer then mem == mem0 && buf == FetchAll(whole, buf0, rs, skip, 0, buflen)
    else buf == buf0 && Flat(mem[..used]) == PutAll(whole, buf0, rs, skip, 0, buflen)
  }

  /** `n` bytes have been copied to their place, and nothing else has changed. */
  ghost predicate Copied<T>(sgl: seq<Seg>, used: nat, mem0: seq<seq<T>>, buf0: seq<T>, skip: nat, toBuffer: bool,
                            mem: seq<seq<T>>, buf: seq<T>, n: nat)
  {
    && Kept(sgl, used, mem0, mem) && n <= |buf0|
    && var whole := Flat(mem0[..used]);
    && (n > 0 ==> skip + n <= |whole|)
    && if toBuffer then mem == mem0 && buf == Fetched(whole, buf0, skip, n)
       else buf == buf0 && Flat(mem[..used]) == Put(whole, buf0, skip, n)
  }

  /** That many bytes are returned and copied if and only if they are less than 2^32. */
  lemma CopiedExact<T>(sgl: seq<Seg>, used: nat, mem0: seq<seq<T>>, buf0: seq<T>, buflen: nat, skip: nat, toBuffer: bool,
                       mem: seq<seq<T>>, buf: seq<T>, n: nat)
    requires CopiedAll(sgl, used, mem0, buf0, buflen, skip, toBuffer, mem, buf)
    requires n == Ends(0, Rounds(sgl[..used], skip, 0, buflen))
    ensures n == Count(Total(sgl[..used]), buflen, skip) && Copied(sgl, used, mem0, buf0, skip, toBuffer, mem, buf, n)
            <==> Count(Total(sgl[..used]), buflen, skip) < WRAP
  {
    var total := Total(sgl[..used]);
    ReturnedExact(Rounds(sgl[..used], skip, 0, buflen), total, skip, buflen);
    if Count(total, buflen, skip) < WRAP {
      StraightIf(Rounds(sgl[..used], skip, 0, buflen), skip, total, buflen);
      CopiedIfStraight(sgl, used, mem0, buf0, buflen, skip, toBuffer, mem, buf);
    }
  }

  /** The bytes are copied whenever each round is right. */
  lemma CopiedIfStraight<T>(sgl: seq<Seg>, used: nat, mem0: seq<seq<T>>, buf0: seq<T>, buflen: nat, skip: nat, toBuffer: bool,
                            mem: seq<seq<T>>, buf: seq<T>)
    requires CopiedAll(sgl, used, mem0, buf0, buflen, skip, toBuffer, mem, buf)
    requires Straight(Rounds(sgl[..used], skip, 0, buflen), skip)
    ensures Copied(sgl, used, mem0, buf0, skip, toBuffer, mem, buf, Count(Total(sgl[..used]), buflen, skip))
  {
    var whole, rs := Flat(mem0[..used]), Rounds(sgl[..used], skip, 0, buflen);
    if toBuffer { FetchStraight(whole, buf0, rs, skip, buflen); } else { PutStraight(whole, buf0, rs, skip, buflen); }
  }

  /** Copies by rounds and returns their 32-bit count. */
  method SgCopyBuffer<T>(sgl: seq<Seg>, nents: nat, mem0: seq<seq<T>>, buf0: seq<T>, buflen: nat, skip: nat, toBuffer: bool)
    returns (n: nat, mem: seq<seq<T>>, buf: seq<T>)
    requires Backs(mem0, sgl) && buflen <= |buf0| && AllFit(sgl)
    ensures var used := Min(nents, |sgl|);
            && n == Ends(0, Rounds(sgl[..used], skip, 0, buflen))
            && CopiedAll(sgl, used, mem0, buf0, buflen, skip, toBuffer, mem, buf)
  {
    mem, buf, n := mem0, buf0, 0;
    var m := new Miter(sgl, nents);
    ghost var p := skip;
    FlatLength(mem0[..m.Used()], sgl[..m.Used()]);
    var ok := m.Skip(skip);
    if ok { n, mem, buf, p := CopyLoop(m, mem0, buf0, buflen, skip, toBuffer, mem, buf); }
  }

  // ----- there and back -----

  /** The segments are determined by their bytes. */
  lemma {:induction false} FlatInjective<T>(mem: seq<seq<T>>, mem': seq<seq<T>>, sgl: seq<Seg>)
    requires Backs(mem, sgl) && Backs(mem', sgl) && Flat(mem) == Flat(mem')
    ensures mem == mem'
    decreases |sgl|
  {
    if sgl != [] {
      var n := |sgl| - 1;
      FlatLength(mem[..n], sgl[..n]);
      FlatLength(mem'[..n], sgl[..n]);
      DropPrefix(Flat(mem[..n]), mem[n]);
      DropPrefix(Flat(mem'[..n]), mem'[n]);
      FlatInjective(mem[..n], mem'[..n], sgl[..n]);
      InitLast(mem);
      InitLast(mem');
    }
  }

  lemma SameSegments<T>(mem: seq<seq<T>>, mem': seq<seq<T>>, sgl: seq<Seg>, used: nat)
    requires Backs(mem, sgl) && Backs(mem', sgl) && used <= |sgl|
    requires Flat(mem[..used]) == Flat(mem'[..used]) && mem[used..] == mem'[used..]
    ensures mem == mem'
  {
    FlatInjective(mem[..used], mem'[..used], sgl[..used]);
    SplitAt(mem, used);
    SplitAt(mem', used);
  }

  /** `sg_pcopy_from_buffer` and then `sg_pcopy_to_buffer` at the same place, into another buffer: each
      place that a round reaches gets the byte of the first buffer, the others keep theirs. */
  method CopyInThenOut<T>(sgl: seq<Seg>, nents: nat, mem0: seq<seq<T>>, buf0: seq<T>, other: seq<T>, buflen: nat, skip: nat)
    returns (n: nat, mem: seq<seq<T>>, buf: seq<T>)
    requires Backs(mem0, sgl) && buflen <= |buf0| == |other| && AllFit(sgl)
    ensures var segs := sgl[..Min(nents, |sgl|)];
            && n == Ends(0, Rounds(segs, skip, 0, buflen)) && |buf| == |buf0|
            && (forall k :: 0 <= k < |buf| ==>
                  buf[k] == if Reached(Rounds(segs, skip, 0, buflen), k) then buf0[k] else other[k])
            && var c := Count(Total(segs), buflen, skip);
               c < WRAP ==> n == c && buf == buf0[..c] + other[c..]
  {
    ghost var used := Min(nents, |sgl|);
    ghost var whole, rs := Flat(mem0[..used]), Rounds(sgl[..used], skip, 0, buflen);
    n, mem, buf := SgCopyBuffer(sgl, nents, mem0, buf0, buflen, skip, false);
    n, mem, buf := SgCopyBuffer(sgl, nents, mem, other, buflen, skip, true);
    forall k | 0 <= k < |buf| ensures buf[k] == if Reached(rs, k) then buf0[k] else other[k] {
      InThenOutExact(whole, buf0, other, rs, skip, buflen, k);
    }
    if Count(Total(sgl[..used]), buflen, skip) < WRAP {
      ReturnedExact(rs, |whole|, skip, buflen);
      StraightIf(rs, skip, |whole|, buflen);
      InThenOutStraight(whole, buf0, other, rs, skip, buflen);
    }
  }

  /** And the other way round: the second call leaves every segment as it was before the first, where
      each round is right, and not where the last one puts its bytes in the place of others. */
  method CopyOutThenIn<T>(sgl: seq<Seg>, nents: nat, mem0: seq<seq<T>>, buf0: seq<T>, buflen: nat, skip: nat)
    returns (n: nat, mem: seq<seq<T>>, buf: seq<T>)
    requires Backs(mem0, sgl) && buflen <= |buf0| && AllFit(sgl)
    ensures var used := Min(nents, |sgl|);
            var rs := Rounds(sgl[..used], skip, 0, buflen);
            && n == Ends(0, Rounds(sgl[..used], skip, 0, buflen))
            && (Straight(rs, skip) ==> mem == mem0)
            && (Spoils(Flat(mem0[..used]), rs, skip) ==> mem != mem0)
            && var c := Count(Total(sgl[..used]), buflen, skip);
               c < WRAP ==> n == c && mem == mem0
  {
    ghost var used := Min(nents, |sgl|);
    ghost var whole, rs := Flat(mem0[..used]), Rounds(sgl[..used], skip, 0, buflen);
    n, mem, buf := SgCopyBuffer(sgl, nents, mem0, buf0, buflen, skip, true);
    n, mem, buf := SgCopyBuffer(sgl, nents, mem, buf, buflen, skip, false);
    ReturnedExact(rs, |whole|, skip, buflen);
    if Count(|whole|, buflen, skip) < WRAP { StraightIf(rs, skip, |whole|, buflen); }
    if Straight(rs, skip) {
      OutThenInStraight(whole, buf0, rs, skip, buflen);
      SameSegments(mem, mem0, sgl, used);
    }
    if mem == mem0 && Spoils(whole, rs, skip) { OutThenInSpoils(whole, buf0, rs, skip, buflen); }
  }
}
