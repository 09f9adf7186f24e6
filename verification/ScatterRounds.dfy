/** What `sg_copy_buffer` copies: mapping by mapping, with a 32-bit counter for the place in the buffer. */
module ScatterRounds {
  import opened Sequences
  import opened Scatter

  function Stored<T>(s: seq<T>, a: nat, bytes: seq<T>): seq<T>
    requires a + |bytes| <= |s|
  {
    s[..a] + bytes + s[a + |bytes|..]
  }

  lemma StoredAppend<T>(s: seq<T>, t: seq<T>, a: nat, bytes: seq<T>)
    requires a + |bytes| <= |s|
    ensures Stored(s + t, a, bytes) == Stored(s, a, bytes) + t
  {
  }

  lemma StoredPrepend<T>(s: seq<T>, t: seq<T>, a: nat, bytes: seq<T>)
    requires a + |bytes| <= |t|
    ensures Stored(s + t, |s| + a, bytes) == s + Stored(t, a, bytes)
  {
  }

  // ----- what the two directions do -----

  function Min(a: nat, b: nat): nat { if a < b then a else b }

  /** How many bytes there are to copy. */
  function Count(total: nat, buflen: nat, skip: nat): nat { if skip >= total then 0 else Min(buflen, total - skip) }

  /** `n` bytes behind the first `skip` are taken to the front of the buffer. */
  function Fetched<T>(whole: seq<T>, buf: seq<T>, skip: nat, n: nat): seq<T>
    requires (n > 0 ==> skip + n <= |whole|) && n <= |buf|
  {
    if n == 0 then buf else whole[skip..skip + n] + buf[n..]
  }

  /** The front of the buffer is put behind the first `skip` bytes. */
  function Put<T>(whole: seq<T>, buf: seq<T>, skip: nat, n: nat): seq<T>
    requires (n > 0 ==> skip + n <= |whole|) && n <= |buf|
  {
    if n == 0 then whole else Stored(whole, skip, buf[..n])
  }

  /** Copying bytes in and then out again, into whatever buffer, gives the bytes copied in. */
  lemma PutThenFetched<T>(whole: seq<T>, buf: seq<T>, other: seq<T>, skip: nat, n: nat)
    requires (n > 0 ==> skip + n <= |whole|) && n <= |buf| && n <= |other|
    ensures Fetched(Put(whole, buf, skip, n), other, skip, n) == buf[..n] + other[n..]
  {
    if n > 0 {
      assert Stored(whole, skip, buf[..n])[skip..skip + n] == buf[..n];
    } else {
      Empty(other);
    }
  }

  /** Copying bytes out and then in again changes nothing in the list. */
  lemma FetchedThenPut<T>(whole: seq<T>, buf: seq<T>, skip: nat, n: nat)
    requires (n > 0 ==> skip + n <= |whole|) && n <= |buf|
    ensures Put(whole, Fetched(whole, buf, skip, n), skip, n) == whole
  {
    if n > 0 {
      DropPrefix(whole[skip..skip + n], buf[n..]);
      assert Stored(whole, skip, whole[skip..skip + n]) == whole;
    }
  }

  // ----- rounds -----

  /** One `memcpy` between `len` bytes of the list at `at` and of the buffer at `to`, out of a mapping of
      `room` bytes. What the buffer has no place for is passed all the same. */
  datatype Round = Round(at: nat, to: nat, len: nat, room: nat)

  predicate Within(r: Round, total: nat, buflen: nat) {
    0 < r.len <= r.room <= PAGE && r.at + r.room <= total && r.to + r.len <= buflen
  }

  /** The rounds that start at position `p` with the counter at `n` and go on until the list or the
      buffer is used up. */
  predicate Rolls(rs: seq<Round>, p: nat, n: nat, total: nat, buflen: nat)
    decreases |rs|
  {
    if rs == [] then p >= total || n >= buflen
    else
      var r := rs[0];
      && r.at == p && r.to == n && Within(r, total, buflen) && (r.len == r.room || n + r.len == buflen)
      && Rolls(rs[1..], p + r.room, (n + r.len) % WRAP, total, buflen)
  }

  /** `len` elements of another sequence in the place of those from `a` on. */
  function Moved<T>(s: seq<T>, a: nat, from: seq<T>, b: nat, len: nat): (r: seq<T>)
    requires a + len <= |s| && b + len <= |from|
    ensures |r| == |s|
    ensures forall k {:trigger r[k]} :: 0 <= k < |s| ==> r[k] == if a <= k < a + len then from[b + (k - a)] else s[k]
  {
    seq(|s|, k requires 0 <= k < |s| => if a <= k < a + len then from[b + (k - a)] else s[k])
  }

  lemma MovedStored<T>(s: seq<T>, a: nat, from: seq<T>, b: nat, len: nat)
    requires a + len <= |s| && b + len <= |from|
    ensures Moved(s, a, from, b, len) == Stored(s, a, from[b..b + len])
  {
  }

  /** All of them from the list to the buffer. */
  function FetchAll<T>(whole: seq<T>, buf: seq<T>, rs: seq<Round>, p: nat, n: nat, buflen: nat): (b: seq<T>)
    requires Rolls(rs, p, n, |whole|, buflen) && buflen <= |buf|
    ensures |b| == |buf|
    decreases |rs|
  {
    if rs == [] then buf
    else
      var l := rs[0].len;
      FetchAll(whole, Moved(buf, n, whole, p, l), rs[1..], p + rs[0].room, (n + l) % WRAP, buflen)
  }

  /** All of them from the buffer to the list. */
  function PutAll<T>(whole: seq<T>, buf: seq<T>, rs: seq<Round>, p: nat, n: nat, buflen: nat): (w: seq<T>)
    requires Rolls(rs, p, n, |whole|, buflen) && buflen <= |buf|
    ensures |w| == |whole|
    decreases |rs|
  {
    if rs == [] then whole
    else
      var l := rs[0].len;
      PutAll(Moved(whole, p, buf, n, l), buf, rs[1..], p + rs[0].room, (n + l) % WRAP, buflen)
  }

  /** Where the counter ends. */
  function Ends(n: nat, rs: seq<Round>): nat
    decreases |rs|
  {
    if rs == [] then n else Ends((n + rs[0].len) % WRAP, rs[1..])
  }

  // ----- the number returned -----

  lemma WrapSum(a: nat, b: nat)
    ensures (a % WRAP + b) % WRAP == (a + b) % WRAP
  {
  }

  lemma {:induction false} CounterFits(n: nat, rs: seq<Round>)
    requires n < WRAP
    ensures Ends(n, rs) < WRAP
    decreases |rs|
  {
    if rs != [] { CounterFits((n + rs[0].len) % WRAP, rs[1..]); }
  }

  /** With a buffer of less than 2^32 bytes the counter does not wrap. */
  lemma {:induction false} EndsShort(rs: seq<Round>, p: nat, n: nat, total: nat, buflen: nat)
    requires n <= buflen < WRAP && Rolls(rs, p, n, total, buflen)
    ensures Ends(n, rs) == n + Count(total, buflen - n, p)
    decreases |rs|
  {
    if rs != [] { EndsShort(rs[1..], p + rs[0].room, n + rs[0].len, total, buflen); }
  }

  /** With one that no mapping fills, the whole rest of the list is counted, modulo 2^32. */
  lemma {:induction false} EndsLong(rs: seq<Round>, p: nat, n: nat, total: nat, buflen: nat)
    requires n < WRAP && p <= total && Rolls(rs, p, n, total, buflen)
    requires buflen >= WRAP + PAGE || n + (total - p) <= buflen
    ensures Ends(n, rs) == (n + (total - p)) % WRAP
    decreases |rs|
  {
    if rs != [] {
      assert rs[0].len == rs[0].room;
      WrapSum(n + rs[0].len, total - p - rs[0].len);
      EndsLong(rs[1..], p + rs[0].room, (n + rs[0].len) % WRAP, total, buflen);
    }
  }

  /** What is returned is the number of bytes there are to copy if and only if that is a 32-bit number. */
  lemma ReturnedExact(rs: seq<Round>, total: nat, skip: nat, buflen: nat)
    requires Rolls(rs, skip, 0, total, buflen)
    ensures Ends(0, rs) < WRAP
    ensures Ends(0, rs) == Count(total, buflen, skip) <==> Count(total, buflen, skip) < WRAP
  {
    CounterFits(0, rs);
    if buflen < WRAP {
      EndsShort(rs, skip, 0, total, buflen);
    } else if skip < total < skip + WRAP {
      EndsLong(rs, skip, 0, total, buflen);
    } else if total <= skip {
      assert rs == [];
    }
  }

  // ----- right rounds -----

  predicate Right(r: Round, skip: nat) { r.at == skip + r.to }

  /** Each round puts the bytes where they belong. */
  predicate Straight(rs: seq<Round>, skip: nat)
    decreases |rs|
  {
    rs == [] || (Right(rs[0], skip) && Straight(rs[1..], skip))
  }

  /** The last round: of which bytes, and where it puts them. */
  function Last(rs: seq<Round>): Round
    requires rs != []
  {
    rs[|rs| - 1]
  }

  /** As long as the counter has not wrapped it goes with the position; when it has, that is far ahead. */
  predicate Place(p: nat, n: nat, skip: nat) { n < WRAP && (p == skip + n || p >= skip + WRAP) }

  lemma NextPlace(rs: seq<Round>, skip: nat, p: nat, n: nat, total: nat, buflen: nat)
    requires rs != [] && Rolls(rs, p, n, total, buflen) && Place(p, n, skip)
    ensures rs[1..] != [] ==> Place(p + rs[0].room, (n + rs[0].len) % WRAP, skip)
  {
  }

  lemma {:induction false} LastPlaced(rs: seq<Round>, skip: nat, p: nat, n: nat, total: nat, buflen: nat)
    requires rs != [] && Rolls(rs, p, n, total, buflen) && Place(p, n, skip)
    ensures Place(Last(rs).at, Last(rs).to, skip) && Last(rs).at >= p && Within(Last(rs), total, buflen)
    decreases |rs|
  {
    if |rs| > 1 {
      NextPlace(rs, skip, p, n, total, buflen);
      LastPlaced(rs[1..], skip, p + rs[0].room, (n + rs[0].len) % WRAP, total, buflen);
    }
  }

  /** Where a round goes wrong the last one does, 2^32 or more bytes behind the first. */
  lemma {:induction false} Crooked(rs: seq<Round>, skip: nat, p: nat, n: nat, total: nat, buflen: nat)
    requires Rolls(rs, p, n, total, buflen) && Place(p, n, skip) && !Straight(rs, skip)
    ensures rs != [] && Last(rs).at >= skip + WRAP
    decreases |rs|
  {
    LastPlaced(rs, skip, p, n, total, buflen);
    if Right(rs[0], skip) {
      NextPlace(rs, skip, p, n, total, buflen);
      Crooked(rs[1..], skip, p + rs[0].room, (n + rs[0].len) % WRAP, total, buflen);
    }
  }

  lemma {:induction false} LastRight(rs: seq<Round>, skip: nat)
    requires rs != [] && Straight(rs, skip)
    ensures Right(Last(rs), skip)
    decreases |rs|
  {
    if |rs| > 1 { LastRight(rs[1..], skip); }
  }

  /** Every round is right if and only if the last one starts less than 2^32 bytes behind the first. */
  lemma StraightExact(rs: seq<Round>, skip: nat, total: nat, buflen: nat)
    requires Rolls(rs, skip, 0, total, buflen)
    ensures Straight(rs, skip) <==> rs == [] || Last(rs).at < skip + WRAP
  {
    if rs != [] {
      LastPlaced(rs, skip, skip, 0, total, buflen);
      if Straight(rs, skip) { LastRight(rs, skip); } else { Crooked(rs, skip, skip, 0, total, buflen); }
    }
  }

  lemma {:induction false} ShortStraight(rs: seq<Round>, skip: nat, n: nat, total: nat, buflen: nat)
    requires n <= buflen < WRAP && Rolls(rs, skip + n, n, total, buflen)
    ensures Straight(rs, skip)
    decreases |rs|
  {
    if |rs| > 1 { ShortStraight(rs[1..], skip, n + rs[0].len, total, buflen); }
  }

  /** So it is where the buffer or the rest of the list is short enough. */
  lemma StraightIf(rs: seq<Round>, skip: nat, total: nat, buflen: nat)
    requires Rolls(rs, skip, 0, total, buflen) && (buflen < WRAP || total <= skip + WRAP)
    ensures Straight(rs, skip)
  {
    if buflen < WRAP {
      ShortStraight(rs, skip, 0, total, buflen);
    } else if rs != [] {
      LastPlaced(rs, skip, skip, 0, total, buflen);
      StraightExact(rs, skip, total, buflen);
    }
  }

  /** With a long buffer the rounds go through the rest of the list. */
  lemma {:induction false} LastEnds(rs: seq<Round>, p: nat, n: nat, total: nat, buflen: nat)
    requires n < WRAP <= buflen && p < total && Rolls(rs, p, n, total, buflen)
    ensures rs != [] && Last(rs).at + Last(rs).room == total && Last(rs).room <= PAGE
    decreases |rs|
  {
    var r := rs[0];
    if p + r.room < total {
      LastEnds(rs[1..], p + r.room, (n + r.len) % WRAP, total, buflen);
    } else {
      assert rs[1..] == [];
    }
  }

  /** It is not where both are a page longer, whatever the pages. */
  lemma CrookedIf(rs: seq<Round>, skip: nat, total: nat, buflen: nat)
    requires Rolls(rs, skip, 0, total, buflen) && buflen >= WRAP && total >= skip + WRAP + PAGE
    ensures !Straight(rs, skip)
  {
    LastEnds(rs, skip, 0, total, buflen);
    StraightExact(rs, skip, total, buflen);
  }

  // ----- the bytes copied -----

  lemma CountDone(total: nat, buflen: nat, skip: nat, n: nat)
    requires n <= buflen && (n > 0 ==> skip + n <= total) && (skip + n >= total || n == buflen)
    ensures Count(total, buflen, skip) == n
  {
  }

  /** Where the rounds are right, the last one uses up the list or the buffer, and only there may the
      counter wrap. */
  lemma StraightRest(rs: seq<Round>, skip: nat, n: nat, total: nat, buflen: nat)
    requires rs != [] && n < WRAP && Rolls(rs, skip + n, n, total, buflen) && Straight(rs, skip)
    ensures var done := n + rs[0].len;
            && done <= buflen && skip + done <= total && Straight(rs[1..], skip)
            && if rs[1..] == [] then Count(total, buflen, skip) == done
               else done < WRAP && rs[0].room == rs[0].len && Rolls(rs[1..], skip + done, done, total, buflen)
  {
    var done := n + rs[0].len;
    if rs[1..] == [] { CountDone(total, buflen, skip, done); }
  }

  lemma {:induction false} FetchStraightAt<T>(whole: seq<T>, b: seq<T>, rs: seq<Round>, skip: nat, n: nat, buflen: nat, k: nat)
    requires n <= buflen <= |b| && n < WRAP && (n > 0 ==> skip + n <= |whole|) && k < |b|
    requires Rolls(rs, skip + n, n, |whole|, buflen) && Straight(rs, skip)
    ensures FetchAll(whole, b, rs, skip + n, n, buflen)[k]
            == if n <= k < Count(|whole|, buflen, skip) then whole[skip + k] else b[k]
    decreases |rs|
  {
    if rs == [] {
      CountDone(|whole|, buflen, skip, n);
    } else {
      var l := rs[0].len;
      StraightRest(rs, skip, n, |whole|, buflen);
      if rs[1..] != [] {
        FetchStraightAt(whole, Moved(b, n, whole, skip + n, l), rs[1..], skip, n + l, buflen, k);
      }
    }
  }

  lemma {:induction false} PutStraightAt<T>(w: seq<T>, buf: seq<T>, rs: seq<Round>, skip: nat, n: nat, buflen: nat, q: nat)
    requires n <= buflen <= |buf| && n < WRAP && (n > 0 ==> skip + n <= |w|) && q < |w|
    requires Rolls(rs, skip + n, n, |w|, buflen) && Straight(rs, skip)
    ensures PutAll(w, buf, rs, skip + n, n, buflen)[q]
            == if skip + n <= q < skip + Count(|w|, buflen, skip) then buf[q - skip] else w[q]
    decreases |rs|
  {
    if rs == [] {
      CountDone(|w|, buflen, skip, n);
    } else {
      var l := rs[0].len;
      StraightRest(rs, skip, n, |w|, buflen);
      if rs[1..] != [] {
        PutStraightAt(Moved(w, skip + n, buf, n, l), buf, rs[1..], skip, n + l, buflen, q);
      }
    }
  }

  lemma FetchedAt<T>(whole: seq<T>, buf: seq<T>, skip: nat, n: nat, k: nat)
    requires (n > 0 ==> skip + n <= |whole|) && n <= |buf| && k < |buf|
    ensures |Fetched(whole, buf, skip, n)| == |buf|
    ensures Fetched(whole, buf, skip, n)[k] == if k < n then whole[skip + k] else buf[k]
  {
  }

  lemma PutAt<T>(whole: seq<T>, buf: seq<T>, skip: nat, n: nat, q: nat)
    requires (n > 0 ==> skip + n <= |whole|) && n <= |buf| && q < |whole|
    ensures |Put(whole, buf, skip, n)| == |whole|
    ensures Put(whole, buf, skip, n)[q] == if skip <= q < skip + n then buf[q - skip] else whole[q]
  {
  }

  lemma SameAt<T>(a: seq<T>, b: seq<T>)
    requires |a| == |b| && forall k :: 0 <= k < |a| ==> a[k] == b[k]
    ensures a == b
  {
  }

  lemma FetchedLength<T>(whole: seq<T>, buf: seq<T>, skip: nat, n: nat)
    requires (n > 0 ==> skip + n <= |whole|) && n <= |buf|
    ensures |Fetched(whole, buf, skip, n)| == |buf|
    ensures |Put(whole, buf, skip, n)| == |whole|
  {
  }

  /** Right rounds copy what there is to copy, in its place. */
  lemma FetchStraight<T>(whole: seq<T>, buf: seq<T>, rs: seq<Round>, skip: nat, buflen: nat)
    requires buflen <= |buf| && Rolls(rs, skip, 0, |whole|, buflen) && Straight(rs, skip)
    ensures FetchAll(whole, buf, rs, skip, 0, buflen) == Fetched(whole, buf, skip, Count(|whole|, buflen, skip))
  {
    var a, b := FetchAll(whole, buf, rs, skip, 0, buflen), Fetched(whole, buf, skip, Count(|whole|, buflen, skip));
    FetchedLength(whole, buf, skip, Count(|whole|, buflen, skip));
    forall k | 0 <= k < |a| ensures a[k] == b[k] {
      FetchStraightAt(whole, buf, rs, skip, 0, buflen, k);
      FetchedAt(whole, buf, skip, Count(|whole|, buflen, skip), k);
    }
    SameAt(a, b);
  }

  lemma PutStraight<T>(whole: seq<T>, buf: seq<T>, rs: seq<Round>, skip: nat, buflen: nat)
    requires buflen <= |buf| && Rolls(rs, skip, 0, |whole|, buflen) && Straight(rs, skip)
    ensures PutAll(whole, buf, rs, skip, 0, buflen) == Put(whole, buf, skip, Count(|whole|, buflen, skip))
  {
    var a, b := PutAll(whole, buf, rs, skip, 0, buflen), Put(whole, buf, skip, Count(|whole|, buflen, skip));
    FetchedLength(whole, buf, skip, Count(|whole|, buflen, skip));
    forall q | 0 <= q < |a| ensures a[q] == b[q] {
      PutStraightAt(whole, buf, rs, skip, 0, buflen, q);
      PutAt(whole, buf, skip, Count(|whole|, buflen, skip), q);
    }
    SameAt(a, b);
  }

  /** The bytes of the last round are not overwritten. */
  lemma {:induction false} LastFetched<T>(whole: seq<T>, buf: seq<T>, rs: seq<Round>, p: nat, n: nat, buflen: nat)
    requires Rolls(rs, p, n, |whole|, buflen) && buflen <= |buf| && rs != []
    ensures var r := Last(rs);
            0 < r.len && Within(r, |whole|, buflen) && FetchAll(whole, buf, rs, p, n, buflen)[r.to] == whole[r.at]
    decreases |rs|
  {
    if |rs| > 1 {
      var l := rs[0].len;
      LastFetched(whole, Moved(buf, n, whole, p, l), rs[1..], p + rs[0].room, (n + l) % WRAP, buflen);
    }
  }

  /** Nothing in front of the position is written. */
  lemma {:induction false} PutBehind<T>(whole: seq<T>, buf: seq<T>, rs: seq<Round>, p: nat, n: nat, buflen: nat, q: nat)
    requires Rolls(rs, p, n, |whole|, buflen) && buflen <= |buf| && q <= p && q <= |whole|
    ensures PutAll(whole, buf, rs, p, n, buflen)[..q] == whole[..q]
    decreases |rs|
  {
    if rs != [] {
      var l := rs[0].len;
      MovedBehind(whole, p, buf, n, l, q);
      PutBehind(Moved(whole, p, buf, n, l), buf, rs[1..], p + rs[0].room, (n + l) % WRAP, buflen, q);
    }
  }

  lemma MovedBehind<T>(s: seq<T>, a: nat, from: seq<T>, b: nat, len: nat, q: nat)
    requires q <= a && a + len <= |s| && b + len <= |from|
    ensures Moved(s, a, from, b, len)[..q] == s[..q] && Moved(s, a, from, b, len)[a..a + len] == from[b..b + len]
  {
  }

  /** The list has in the place of a round what the buffer has. */
  predicate Echo<T(==)>(whole: seq<T>, buf: seq<T>, r: Round) {
    Within(r, |whole|, |buf|) && whole[r.at..r.at + r.len] == buf[r.to..r.to + r.len]
  }

  predicate Echoes<T(==)>(whole: seq<T>, buf: seq<T>, rs: seq<Round>)
    decreases |rs|
  {
    rs == [] || (Echo(whole, buf, rs[0]) && Echoes(whole, buf, rs[1..]))
  }

  lemma {:induction false} PutEchoes<T>(whole: seq<T>, buf: seq<T>, rs: seq<Round>, p: nat, n: nat, buflen: nat)
    requires Rolls(rs, p, n, |whole|, buflen) && buflen <= |buf|
    ensures Echoes(PutAll(whole, buf, rs, p, n, buflen), buf, rs)
    decreases |rs|
  {
    if rs != [] {
      var l := rs[0].len;
      var w, r := Moved(whole, p, buf, n, l), PutAll(whole, buf, rs, p, n, buflen);
      PutEchoes(w, buf, rs[1..], p + rs[0].room, (n + l) % WRAP, buflen);
      PutBehind(w, buf, rs[1..], p + rs[0].room, (n + l) % WRAP, buflen, p + l);
      MovedBehind(whole, p, buf, n, l, 0);
      SliceOfTake(r, p + l, p, p + l);
      SliceOfTake(w, p + l, p, p + l);
    }
  }

  lemma EchoAt<T>(whole: seq<T>, buf: seq<T>, r: Round, k: nat)
    requires Echo(whole, buf, r) && k < r.len
    ensures whole[r.at + k] == buf[r.to + k]
  {
    assert whole[r.at..r.at + r.len][k] == buf[r.to..r.to + r.len][k];
  }

  lemma {:induction false} LastEcho<T>(whole: seq<T>, buf: seq<T>, rs: seq<Round>, p: nat, n: nat, buflen: nat)
    requires Rolls(rs, p, n, |whole|, buflen) && buflen <= |buf| && rs != [] && Echoes(whole, buf, rs)
    ensures Within(Last(rs), |whole|, |buf|) && 0 < Last(rs).len && whole[Last(rs).at] == buf[Last(rs).to]
    decreases |rs|
  {
    if |rs| > 1 {
      LastEcho(whole, buf, rs[1..], p + rs[0].room, (n + rs[0].len) % WRAP, buflen);
    } else {
      EchoAt(whole, buf, rs[0], 0);
    }
  }

  /** While the counter has not wrapped, in the right place. */
  lemma {:induction false} EarlyEcho<T>(whole: seq<T>, buf: seq<T>, rs: seq<Round>, skip: nat, n: nat, buflen: nat, k: nat)
    requires Rolls(rs, skip + n, n, |whole|, buflen) && buflen <= |buf| && Echoes(whole, buf, rs)
    requires n <= k < WRAP && k < buflen && skip + k < |whole|
    ensures whole[skip + k] == buf[k]
    decreases |rs|
  {
    if k < n + rs[0].len {
      EchoAt(whole, buf, rs[0], k - n);
    } else {
      EarlyEcho(whole, buf, rs[1..], skip, n + rs[0].len, buflen, k);
    }
  }

  /** The wrong place of the last round is that of a byte 2^32 or more in front. */
  lemma CrookedLast(rs: seq<Round>, skip: nat, total: nat, buflen: nat)
    requires Rolls(rs, skip, 0, total, buflen) && !Straight(rs, skip)
    ensures rs != []
    ensures var r := Last(rs);
            && 0 < r.len && Within(r, total, buflen) && r.at >= skip + WRAP && r.to < WRAP
            && r.to < Count(total, buflen, skip) && skip + r.to < r.at
  {
    Crooked(rs, skip, skip, 0, total, buflen);
    LastPlaced(rs, skip, skip, 0, total, buflen);
  }

  /** The last round puts its first byte in the place of a different one. */
  ghost predicate Spoils<T>(whole: seq<T>, rs: seq<Round>, skip: nat) {
    && rs != [] && skip + Last(rs).to < |whole| && Last(rs).at < |whole|
    && whole[skip + Last(rs).to] != whole[Last(rs).at]
  }

  lemma SpoilsCrooked<T>(whole: seq<T>, rs: seq<Round>, skip: nat)
    requires Spoils(whole, rs, skip)
    ensures !Straight(rs, skip)
  {
    if Straight(rs, skip) { LastRight(rs, skip); }
  }

  lemma FetchSpoils<T>(whole: seq<T>, buf: seq<T>, rs: seq<Round>, skip: nat, buflen: nat)
    requires Rolls(rs, skip, 0, |whole|, buflen) && buflen <= |buf| && Spoils(whole, rs, skip)
    ensures FetchAll(whole, buf, rs, skip, 0, buflen) != Fetched(whole, buf, skip, Count(|whole|, buflen, skip))
  {
    SpoilsCrooked(whole, rs, skip);
    CrookedLast(rs, skip, |whole|, buflen);
    LastFetched(whole, buf, rs, skip, 0, buflen);
    FetchedAt(whole, buf, skip, Count(|whole|, buflen, skip), Last(rs).to);
  }

  /** One byte among others. */
  function Marked<T>(x: T, y: T, total: nat, at: nat): (s: seq<T>)
    ensures |s| == total && forall k {:trigger s[k]} :: 0 <= k < total ==> s[k] == if k == at then y else x
  {
    seq(total, k => if k == at then y else x)
  }

  lemma MarkedSpoils<T>(x: T, y: T, rs: seq<Round>, skip: nat, total: nat, buflen: nat)
    requires x != y && Rolls(rs, skip, 0, total, buflen) && !Straight(rs, skip)
    ensures rs != [] && Spoils(Marked(x, y, total, Last(rs).at), rs, skip)
  {
    CrookedLast(rs, skip, total, buflen);
  }

  /** Whatever the bytes, the buffer gets what there is to copy, in its place, exactly if each round is right. */
  lemma FetchExact<T>(x: T, y: T, rs: seq<Round>, skip: nat, total: nat, buflen: nat)
    requires x != y && Rolls(rs, skip, 0, total, buflen)
    ensures (forall whole: seq<T>, buf: seq<T> :: |whole| == total && |buf| == buflen ==>
              FetchAll(whole, buf, rs, skip, 0, buflen) == Fetched(whole, buf, skip, Count(total, buflen, skip)))
            <==> Straight(rs, skip)
  {
    if Straight(rs, skip) {
      forall whole: seq<T>, buf: seq<T> | |whole| == total && |buf| == buflen
        ensures FetchAll(whole, buf, rs, skip, 0, buflen) == Fetched(whole, buf, skip, Count(total, buflen, skip))
      {
        FetchStraight(whole, buf, rs, skip, buflen);
      }
    } else {
      MarkedSpoils(x, y, rs, skip, total, buflen);
      FetchSpoils(Marked(x, y, total, Last(rs).at), Marked(x, x, buflen, 0), rs, skip, buflen);
    }
  }

  /** And the list what is in the buffer. */
  lemma PutExact<T>(x: T, y: T, rs: seq<Round>, skip: nat, total: nat, buflen: nat)
    requires x != y && Rolls(rs, skip, 0, total, buflen)
    ensures (forall whole: seq<T>, buf: seq<T> :: |whole| == total && |buf| == buflen ==>
              PutAll(whole, buf, rs, skip, 0, buflen) == Put(whole, buf, skip, Count(total, buflen, skip)))
            <==> Straight(rs, skip)
  {
    if Straight(rs, skip) {
      forall whole: seq<T>, buf: seq<T> | |whole| == total && |buf| == buflen
        ensures PutAll(whole, buf, rs, skip, 0, buflen) == Put(whole, buf, skip, Count(total, buflen, skip))
      {
        PutStraight(whole, buf, rs, skip, buflen);
      }
    } else {
      PutCrooked(x, y, rs, skip, total, buflen);
    }
  }

  lemma PutCrooked<T>(x: T, y: T, rs: seq<Round>, skip: nat, total: nat, buflen: nat)
    requires x != y && Rolls(rs, skip, 0, total, buflen) && !Straight(rs, skip)
    ensures rs != []
    ensures var whole, buf := Marked(x, x, total, 0), Marked(x, y, buflen, Last(rs).to);
            PutAll(whole, buf, rs, skip, 0, buflen) != Put(whole, buf, skip, Count(total, buflen, skip))
  {
    CrookedLast(rs, skip, total, buflen);
    var whole, buf, r := Marked(x, x, total, 0), Marked(x, y, buflen, Last(rs).to), Last(rs);
    PutEchoes(whole, buf, rs, skip, 0, buflen);
    LastEcho(PutAll(whole, buf, rs, skip, 0, buflen), buf, rs, skip, 0, buflen);
    PutAt(whole, buf, skip, Count(total, buflen, skip), r.at);
  }

  // ----- there and back -----

  /** Whatever the bytes, copying out and back in leaves the list as it was exactly if each round is right. */
  lemma OutThenInExact<T>(x: T, y: T, rs: seq<Round>, skip: nat, total: nat, buflen: nat)
    requires x != y && Rolls(rs, skip, 0, total, buflen)
    ensures (forall whole: seq<T>, buf: seq<T> :: |whole| == total && |buf| == buflen ==>
              PutAll(whole, FetchAll(whole, buf, rs, skip, 0, buflen), rs, skip, 0, buflen) == whole)
            <==> Straight(rs, skip)
  {
    if Straight(rs, skip) {
      forall whole: seq<T>, buf: seq<T> | |whole| == total && |buf| == buflen
        ensures PutAll(whole, FetchAll(whole, buf, rs, skip, 0, buflen), rs, skip, 0, buflen) == whole
      {
        OutThenInStraight(whole, buf, rs, skip, buflen);
      }
    } else {
      MarkedSpoils(x, y, rs, skip, total, buflen);
      OutThenInSpoils(Marked(x, y, total, Last(rs).at), Marked(x, x, buflen, 0), rs, skip, buflen);
    }
  }

  lemma OutThenInStraight<T>(whole: seq<T>, buf: seq<T>, rs: seq<Round>, skip: nat, buflen: nat)
    requires Rolls(rs, skip, 0, |whole|, buflen) && buflen <= |buf| && Straight(rs, skip)
    ensures PutAll(whole, FetchAll(whole, buf, rs, skip, 0, buflen), rs, skip, 0, buflen) == whole
  {
    FetchStraight(whole, buf, rs, skip, buflen);
    PutStraight(whole, FetchAll(whole, buf, rs, skip, 0, buflen), rs, skip, buflen);
    FetchedThenPut(whole, buf, skip, Count(|whole|, buflen, skip));
  }

  /** The first byte of the last round comes back in the place of the one it was put over. */
  lemma OutThenInLast<T>(whole: seq<T>, buf: seq<T>, rs: seq<Round>, skip: nat, buflen: nat)
    requires Rolls(rs, skip, 0, |whole|, buflen) && buflen <= |buf| && !Straight(rs, skip)
    ensures rs != [] && skip + Last(rs).to < |whole| && Last(rs).at < |whole|
    ensures PutAll(whole, FetchAll(whole, buf, rs, skip, 0, buflen), rs, skip, 0, buflen)[skip + Last(rs).to]
            == whole[Last(rs).at]
  {
    var b := FetchAll(whole, buf, rs, skip, 0, buflen);
    CrookedLast(rs, skip, |whole|, buflen);
    LastFetched(whole, buf, rs, skip, 0, buflen);
    PutEchoes(whole, b, rs, skip, 0, buflen);
    EarlyEcho(PutAll(whole, b, rs, skip, 0, buflen), b, rs, skip, 0, buflen, Last(rs).to);
  }

  lemma OutThenInSpoils<T>(whole: seq<T>, buf: seq<T>, rs: seq<Round>, skip: nat, buflen: nat)
    requires Rolls(rs, skip, 0, |whole|, buflen) && buflen <= |buf| && Spoils(whole, rs, skip)
    ensures PutAll(whole, FetchAll(whole, buf, rs, skip, 0, buflen), rs, skip, 0, buflen) != whole
  {
    SpoilsCrooked(whole, rs, skip);
    OutThenInLast(whole, buf, rs, skip, buflen);
  }

  /** Some round reaches the place in the buffer. */
  predicate Reached(rs: seq<Round>, k: nat)
    decreases |rs|
  {
    rs != [] && (rs[0].to <= k < rs[0].to + rs[0].len || Reached(rs[1..], k))
  }

  lemma MovedEcho<T>(whole: seq<T>, buf: seq<T>, other: seq<T>, r: Round, k: nat)
    requires Echo(whole, buf, r) && |buf| == |other| && k < |buf|
    ensures Moved(other, r.to, whole, r.at, r.len)[k] == if r.to <= k < r.to + r.len then buf[k] else other[k]
  {
    if r.to <= k < r.to + r.len { EchoAt(whole, buf, r, k - r.to); }
  }

  lemma {:induction false} EchoFetched<T>(whole: seq<T>, buf: seq<T>, other: seq<T>, rs: seq<Round>, p: nat, n: nat,
                                          buflen: nat, k: nat)
    requires Rolls(rs, p, n, |whole|, buflen) && buflen <= |other| && |buf| == |other| && Echoes(whole, buf, rs) && k < |buf|
    ensures FetchAll(whole, other, rs, p, n, buflen)[k] == if Reached(rs, k) then buf[k] else other[k]
    decreases |rs|
  {
    if rs != [] {
      var l := rs[0].len;
      MovedEcho(whole, buf, other, rs[0], k);
      EchoFetched(whole, buf, Moved(other, n, whole, p, l), rs[1..], p + rs[0].room, (n + l) % WRAP, buflen, k);
    }
  }

  /** Copying in and then out into another buffer gives each place that a round reaches its byte, and
      leaves the others. */
  lemma InThenOutExact<T>(whole: seq<T>, buf: seq<T>, other: seq<T>, rs: seq<Round>, skip: nat, buflen: nat, k: nat)
    requires Rolls(rs, skip, 0, |whole|, buflen) && buflen <= |buf| == |other| && k < |buf|
    ensures FetchAll(PutAll(whole, buf, rs, skip, 0, buflen), other, rs, skip, 0, buflen)[k]
            == if Reached(rs, k) then buf[k] else other[k]
  {
    PutEchoes(whole, buf, rs, skip, 0, buflen);
    EchoFetched(PutAll(whole, buf, rs, skip, 0, buflen), buf, other, rs, skip, 0, buflen, k);
  }

  /** Right rounds make that the bytes copied in, as many as there is room for. */
  lemma InThenOutStraight<T>(whole: seq<T>, buf: seq<T>, other: seq<T>, rs: seq<Round>, skip: nat, buflen: nat)
    requires Rolls(rs, skip, 0, |whole|, buflen) && buflen <= |buf| && buflen <= |other| && Straight(rs, skip)
    ensures var n := Count(|whole|, buflen, skip);
            FetchAll(PutAll(whole, buf, rs, skip, 0, buflen), other, rs, skip, 0, buflen) == buf[..n] + other[n..]
  {
    PutStraight(whole, buf, rs, skip, buflen);
    FetchStraight(PutAll(whole, buf, rs, skip, 0, buflen), other, rs, skip, buflen);
    PutThenFetched(whole, buf, other, skip, Count(|whole|, buflen, skip));
  }

  // ----- the mappings of a list -----

  /** How many bytes the mapping at a position has: up to the end of the page or of the segment. */
  function Room(segs: seq<Seg>, p: nat): (n: nat)
    requires p < Total(segs)
    ensures 1 <= n <= PAGE && p + n <= Total(segs)
    decreases |segs|
  {
    var last := |segs| - 1;
    var low := Total(segs[..last]);
    if p < low then Room(segs[..last], p)
    else Min(segs[last].length - (p - low), PAGE - (segs[last].offset + p - low) % PAGE)
  }

  lemma {:induction false} RoomAt(segs: seq<Seg>, i: nat, a: nat)
    requires i < |segs| && a < segs[i].length
    ensures var p := Total(segs[..i]) + a;
            p < Total(segs) && Room(segs, p) == Min(segs[i].length - a, PAGE - (segs[i].offset + a) % PAGE)
    decreases |segs|
  {
    var last := |segs| - 1;
    if i < last {
      RoomAt(segs[..last], i, a);
      assert segs[..last][..i] == segs[..i];
    } else {
      assert segs[..i] == segs[..last];
    }
  }

  /** The rounds from position `p` on, with the counter at `n`. */
  function Rounds(segs: seq<Seg>, p: nat, n: nat, buflen: nat): (rs: seq<Round>)
    ensures Rolls(rs, p, n, Total(segs), buflen)
    decreases if p < Total(segs) then Total(segs) - p else 0
  {
    if p >= Total(segs) || n >= buflen then []
    else
      var room := Room(segs, p);
      var len := Min(room, buflen - n);
      var more := Rounds(segs, p + room, (n + len) % WRAP, buflen);
      Cons(Round(p, n, len, room), more);
      [Round(p, n, len, room)] + more
  }

  lemma FirstRound(segs: seq<Seg>, p: nat, n: nat, buflen: nat)
    requires p < Total(segs) && n < buflen
    ensures var rs, room := Rounds(segs, p, n, buflen), Room(segs, p);
            var len := Min(room, buflen - n);
            rs != [] && rs[0] == Round(p, n, len, room) && rs[1..] == Rounds(segs, p + room, (n + len) % WRAP, buflen)
  {
    var room := Room(segs, p);
    var len := Min(room, buflen - n);
    Cons(Round(p, n, len, room), Rounds(segs, p + room, (n + len) % WRAP, buflen));
  }

  // ----- lists for which it goes wrong -----

  /** Two segments of 2^31 bytes, and one byte more. */
  const TWO: seq<Seg> := [Seg(0, 0x8000_0000), Seg(0, 0x8000_0000)]
  const ONE_MORE: seq<Seg> := TWO + [Seg(0, 1)]

  lemma Totals()
    ensures AllFit(TWO) && Total(TWO) == WRAP
    ensures AllFit(ONE_MORE) && Total(ONE_MORE[..|ONE_MORE| - 1]) == WRAP && Total(ONE_MORE) == WRAP + 1
  {
    assert TWO[..1] == [TWO[0]] && TWO[..1][..0] == [];
    assert Total(TWO[..1]) == 0x8000_0000;
    assert ONE_MORE[..2] == TWO;
  }

  /** All of the first list can be copied, and 0 is returned; so it is for any list of 2^32 bytes. */
  lemma NothingCounted(segs: seq<Seg>, buflen: nat)
    requires Total(segs) == WRAP == buflen
    ensures Count(Total(segs), buflen, 0) == WRAP && Ends(0, Rounds(segs, 0, 0, buflen)) == 0
  {
    EndsLong(Rounds(segs, 0, 0, buflen), 0, 0, Total(segs), buflen);
  }

  lemma RoomInSegment(segs: seq<Seg>, p: nat)
    requires segs != [] && p < Total(segs[..|segs| - 1]) <= Total(segs)
    ensures p + Room(segs, p) <= Total(segs[..|segs| - 1])
  {
  }

  /** No round goes across the position. */
  predicate Stops(rs: seq<Round>, low: nat)
    decreases |rs|
  {
    rs == [] || ((rs[0].at < low ==> rs[0].at + rs[0].room <= low) && Stops(rs[1..], low))
  }

  lemma {:induction false} RoundsStop(segs: seq<Seg>, p: nat, n: nat, buflen: nat)
    requires segs != []
    ensures Stops(Rounds(segs, p, n, buflen), Total(segs[..|segs| - 1]))
    decreases if p < Total(segs) then Total(segs) - p else 0
  {
    if p < Total(segs) && n < buflen {
      var room := Room(segs, p);
      FirstRound(segs, p, n, buflen);
      if p < Total(segs[..|segs| - 1]) { RoomInSegment(segs, p); }
      RoundsStop(segs, p + room, (n + Min(room, buflen - n)) % WRAP, buflen);
    }
  }

  lemma RollsEnd(rs: seq<Round>, p: nat, n: nat, total: nat, buflen: nat)
    requires Rolls(rs, p, n, total, buflen) && p + 1 == total && n < buflen
    ensures |rs| == 1 && rs[0].at == p && rs[0].to == n
  {
    assert rs[1..] == [];
  }

  /** Where a segment starts 2^32 bytes behind the first, its bytes go to the start of the buffer. */
  lemma {:induction false} LastRoom(rs: seq<Round>, p: nat, total: nat, buflen: nat)
    requires p < WRAP && total == WRAP + 1 && WRAP < buflen && Rolls(rs, p, p, total, buflen) && Stops(rs, WRAP)
    ensures rs != [] && Last(rs).at == WRAP && Last(rs).to == 0
    decreases |rs|
  {
    var q := p + rs[0].room;
    if q < WRAP {
      LastRoom(rs[1..], q, total, buflen);
    } else {
      RollsEnd(rs[1..], WRAP, 0, total, buflen);
    }
  }

  /** The last byte of the second comes out in the place of the first, and putting all back changes the
      list unless the two are the same; so it is for any list that has its last byte, behind 2^32 others,
      in a segment of its own. */
  lemma FirstOverwritten<T>(segs: seq<Seg>, whole: seq<T>, buf: seq<T>, buflen: nat)
    requires segs != [] && Total(segs[..|segs| - 1]) == WRAP && Total(segs) == |whole| == WRAP + 1
    requires WRAP < buflen <= |buf|
    ensures var rs := Rounds(segs, 0, 0, buflen);
            var b := FetchAll(whole, buf, rs, 0, 0, buflen);
            b[0] == whole[WRAP] && (whole[0] != whole[WRAP] ==> PutAll(whole, b, rs, 0, 0, buflen) != whole)
  {
    var rs := Rounds(segs, 0, 0, buflen);
    RoundsStop(segs, 0, 0, buflen);
    LastRoom(rs, 0, WRAP + 1, buflen);
    LastFetched(whole, buf, rs, 0, 0, buflen);
    if whole[0] != whole[WRAP] { OutThenInSpoils(whole, buf, rs, 0, buflen); }
  }
}
