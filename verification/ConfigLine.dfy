/** Reading an assignment out of the line buffer, in place. The buffer is a sequence of characters of
    fixed length, with C strings in it. */
module ConfigLine {
  import opened Sequences
  import opened ConfigText
  import opened Wrappers

  /** The C string that starts at `p` is `s`. */
  predicate StringAt(line: seq<char>, p: nat, s: string) {
    p + |s| < |line| && line[p..p + |s|] == s && line[p + |s|] == NUL && NUL !in s
  }

  /** The next of the two characters that matter, or the end of the string. */
  method FindSpecial(line: seq<char>, q: nat, ghost s: string) returns (r: nat)
    requires StringAt(line, q, s)
    ensures q <= r <= q + |s| && (forall c :: c in s[..r - q] ==> !Special(c))
    ensures if r < q + |s| then Special(line[r]) && line[r] == s[r - q] else line[r] == NUL
  {
    r := q;
    while line[r] != NUL && !Special(line[r])
      invariant q <= r <= q + |s| && forall c :: c in s[..r - q] ==> !Special(c)
      invariant r < q + |s| ==> line[r] == s[r - q] != NUL
      decreases q + |s| - r
    {
      assert s[..r + 1 - q] == s[..r - q] + [s[r - q]];
      r := r + 1;
      assert r < q + |s| ==> line[r] == line[q..q + |s|][r - q];
    }
  }

  /** Moves `n` characters down by one, over the one at `r`. */
  function MoveDown(line: seq<char>, r: nat, n: nat): seq<char>
    requires r + n < |line|
  {
    line[..r] + line[r + 1..r + n + 1] + line[r + n..]
  }

  lemma Pieces<T>(a: seq<T>, b: seq<T>, c: seq<T>)
    ensures (a + b + c)[..|a|] == a && (a + b + c)[|a|..|a| + |b|] == b && (a + b + c)[|a| + |b|..] == c
  {
  }

  lemma Parts(s: seq<char>, i: nat, t: string, x: char, y: char)
    requires i + |t| + 2 <= |s| && s[i..i + |t| + 1] == t + [x] && s[i + |t| + 1] == y
    ensures s[i..i + |t|] == t && s[i + |t|] == x && s[i + |t| + 1] == y
  {
    assert s[i..i + |t| + 1][..|t|] == s[i..i + |t|];
    assert s[i..i + |t| + 1][|t|] == x;
  }

  /** Dropping the character at `r` leaves the rest of its string there, closed by two ends. */
  lemma MovedDown(line: seq<char>, r: nat, tail: string)
    requires r + 1 <= |line| && StringAt(line, r + 1, tail)
    ensures var moved := MoveDown(line, r, |tail| + 1);
            && |moved| == |line| && moved[..r] == line[..r] && r + |tail| + 1 < |moved|
            && moved[r..r + |tail|] == tail && moved[r + |tail|] == moved[r + |tail| + 1] == NUL
  {
    var n := |tail| + 1;
    var moved := MoveDown(line, r, n);
    Pieces(line[..r], line[r + 1..r + n + 1], line[r + n..]);
    SplitSlice(line, r + 1, r + n, r + n + 1);
    SliceOne(line, r + n);
    assert moved[r + n..][0] == NUL;
    Parts(moved, r, tail, NUL, NUL);
  }

  lemma {:induction false} UnescapeRun(run: string, rest: string)
    requires forall c :: c in run ==> !Special(c)
    ensures Unescape(run + rest) == Prepend(run, Unescape(rest))
  {
    if run == "" {
      Empty(rest);
      if Unescape(rest).Some? { Empty(Unescape(rest).value); }
    } else {
      HeadTail(run);
      assert run[0] in run && (run + rest)[0] == run[0];
      UnescapeRun(run[1..], rest);
      assert (run + rest)[1..] == run[1..] + rest;
      if Unescape(rest).Some? { Assoc([run[0]], run[1..], Unescape(rest).value); }
    }
  }

  /** A run up to a backslash and the character the backslash gives way to. */
  lemma UnescapeStep(done: string, run: string, tail: string)
    requires forall c :: c in run ==> !Special(c)
    ensures Prepend(done, Unescape(run + (['\\'] + tail))) ==
            if tail == "" then None else Prepend(done + run + [tail[0]], Unescape(tail[1..]))
  {
    var rest := ['\\'] + tail;
    UnescapeRun(run, rest);
    if tail != "" {
      assert rest[2..] == tail[1..];
      var u := Unescape(tail[1..]);
      if u.Some? {
        Assoc(done, run, [tail[0]] + u.value);
        Assoc(done + run, [tail[0]], u.value);
      }
    }
  }

  /** A run up to the closing quote. */
  lemma UnescapeLast(done: string, run: string, tail: string)
    requires forall c :: c in run ==> !Special(c)
    ensures Prepend(done, Unescape(run + (['"'] + tail))) == Some(done + run)
  {
    UnescapeRun(run, ['"'] + tail);
    Empty(run);
  }

  lemma UnescapeEnd(done: string, run: string)
    requires forall c :: c in run ==> !Special(c)
    ensures Prepend(done, Unescape(run)) == None
  {
    UnescapeRun(run, "");
    Empty(run);
  }

  /** What follows a character of a C string is one. */
  lemma StringBehind(line: seq<char>, q: nat, s: string, i: nat)
    requires StringAt(line, q, s) && i < |s|
    ensures StringAt(line, q + i + 1, s[i + 1..]) && s == s[..i] + ([s[i]] + s[i + 1..])
    ensures line[q..q + i] == s[..i]
  {
    assert line[q..q + |s|][i + 1..] == line[q + i + 1..q + |s|];
    assert line[q..q + |s|][..i] == line[q..q + i];
  }

  lemma Appended(line: seq<char>, p: nat, q: nat, r: nat, a: string, b: string)
    requires p <= q <= r <= |line| && line[p..q] == a && line[q..r] == b
    ensures line[p..r] == a + b
  {
  }

  /** Where the loop goes on behind a dropped backslash. */
  lemma BehindDropped(moved: seq<char>, r: nat, tail: string)
    requires r + |tail| + 1 < |moved| && moved[r..r + |tail|] == tail && NUL !in tail
    requires moved[r + |tail|] == moved[r + |tail| + 1] == NUL
    ensures StringAt(moved, r + 1, if tail == "" then "" else tail[1..])
    ensures tail != "" ==> moved[r..r + 1] == [tail[0]]
  {
    if tail != "" {
      assert moved[r..r + |tail|][1..] == moved[r + 1..r + |tail|];
      assert moved[r] == moved[r..r + |tail|][0];
    }
  }

  /** The state of the loop: `v` has been read and `w` is still to come. */
  predicate Reading(whole: string, line: seq<char>, p: nat, q: nat, v: string, w: string) {
    && p <= q && StringAt(line, q, w) && Unescape(whole) == Prepend(v, Unescape(w))
    && (Unescape(whole).Some? ==> line[p..q] == v && NUL !in v)
  }

  lemma SamePrefix(a: seq<char>, b: seq<char>, r: nat, p: nat, q: nat)
    requires p <= q <= r <= |a| && r <= |b| && a[..r] == b[..r]
    ensures a[p..q] == b[p..q] && a[..p] == b[..p]
  {
    SliceOfTake(a, r, p, q);
    SliceOfTake(b, r, p, q);
  }

  /** What the line holds where the loop goes on, when the value is well formed. */
  lemma DropReads(line: seq<char>, moved: seq<char>, p: nat, q: nat, r: nat, v: string, run: string, c: char)
    requires p <= q <= r < |moved| && r <= |line| && moved[..r] == line[..r] && moved[r] == c
    requires line[p..q] == v && line[q..r] == run
    ensures moved[p..r + 1] == v + run + [c]
  {
    SamePrefix(moved, line, r, p, q);
    SamePrefix(moved, line, r, q, r);
    Appended(moved, p, q, r, v, run);
    Appended(moved, p, r, r + 1, v + run, [c]);
  }

  /** What has been read, and what is left, behind the backslash at `i`. */
  function ReadOn(v: string, w: string, i: nat): string
    requires i < |w|
  {
    if i + 1 == |w| then v else v + w[..i] + [w[i + 1]]
  }

  function LeftOn(w: string, i: nat): string
    requires i < |w|
  {
    if i + 1 == |w| then "" else w[i + 2..]
  }

  lemma SplitAround(w: string, i: nat)
    requires i < |w|
    ensures w == w[..i] + ([w[i]] + w[i + 1..])
  {
  }

  lemma DropValue(v: string, w: string, i: nat)
    requires i < |w| && w[i] == '\\' && forall c :: c in w[..i] ==> !Special(c)
    ensures Prepend(v, Unescape(w)) == Prepend(ReadOn(v, w, i), Unescape(LeftOn(w, i)))
  {
    var tail := w[i + 1..];
    SplitAround(w, i);
    UnescapeStep(v, w[..i], tail);
    assert tail != "" ==> tail[0] == w[i + 1] && tail[1..] == w[i + 2..];
  }

  /** A round of the loop that drops a backslash. */
  lemma DropLine(line: seq<char>, p: nat, q: nat, v: string, w: string, r: nat)
    requires p <= q <= r < q + |w| && StringAt(line, q, w)
    ensures r + |w| - (r - q) < |line|
    ensures var moved := MoveDown(line, r, |w| - (r - q));
            && |moved| == |line| && moved[..p] == line[..p] && StringAt(moved, r + 1, LeftOn(w, r - q))
            && (line[p..q] == v && r + 1 < q + |w| ==> moved[p..r + 1] == ReadOn(v, w, r - q))
  {
    var tail := w[r - q + 1..];
    StringBehind(line, q, w, r - q);
    MovedDown(line, r, tail);
    LeftOnIs(w, r - q);
    DroppedLine(line, MoveDown(line, r, |tail| + 1), p, q, v, w, r);
  }

  lemma LeftOnIs(w: string, i: nat)
    requires i < |w|
    ensures var tail := w[i + 1..];
            LeftOn(w, i) == (if tail == "" then "" else tail[1..]) && (tail != "" ==> tail[0] == w[i + 1])
  {
  }

  lemma DroppedLine(line: seq<char>, moved: seq<char>, p: nat, q: nat, v: string, w: string, r: nat)
    requires p <= q <= r < q + |w| && StringAt(line, q, w) && line[q..r] == w[..r - q]
    requires |moved| == |line| && moved[..r] == line[..r]
    requires var tail := w[r - q + 1..];
             && r + |tail| + 1 < |moved| && moved[r..r + |tail|] == tail && NUL !in tail
             && moved[r + |tail|] == moved[r + |tail| + 1] == NUL
             && LeftOn(w, r - q) == (if tail == "" then "" else tail[1..])
             && (tail != "" ==> tail[0] == w[r - q + 1])
    ensures moved[..p] == line[..p] && StringAt(moved, r + 1, LeftOn(w, r - q))
    ensures line[p..q] == v && r + 1 < q + |w| ==> moved[p..r + 1] == ReadOn(v, w, r - q)
  {
    var tail := w[r - q + 1..];
    BehindDropped(moved, r, tail);
    SamePrefix(moved, line, r, p, q);
    if line[p..q] == v && tail != "" {
      assert moved[r] == moved[r..r + 1][0];
      DropReads(line, moved, p, q, r, v, w[..r - q], tail[0]);
    }
  }

  lemma DropStep(whole: string, line: seq<char>, p: nat, q: nat, v: string, w: string, r: nat)
    requires Reading(whole, line, p, q, v, w) && q <= r < q + |w| && w[r - q] == '\\'
    requires forall c :: c in w[..r - q] ==> !Special(c)
    ensures r + |w| - (r - q) < |line|
    ensures var moved := MoveDown(line, r, |w| - (r - q));
            && |moved| == |line| && moved[..p] == line[..p]
            && Reading(whole, moved, p, r + 1, ReadOn(v, w, r - q), LeftOn(w, r - q))
  {
    DropValue(v, w, r - q);
    DropLine(line, p, q, v, w, r);
  }

  lemma EndStep(whole: string, line: seq<char>, p: nat, q: nat, v: string, w: string, r: nat)
    requires Reading(whole, line, p, q, v, w) && q <= r == q + |w| && forall c :: c in w[..r - q] ==> !Special(c)
    ensures Unescape(whole) == None
  {
    assert w[..r - q] == w;
    UnescapeEnd(v, w);
  }

  lemma StringFrom(line: seq<char>, q: nat, s: string, i: nat)
    requires StringAt(line, q, s) && i <= |s|
    ensures StringAt(line, q + i, s[i..])
  {
    assert line[q..q + |s|][i..] == line[q + i..q + |s|];
  }

  lemma QuoteStep(whole: string, line: seq<char>, p: nat, q: nat, v: string, w: string, r: nat)
    requires Reading(whole, line, p, q, v, w) && q <= r < q + |w| && w[r - q] == '"'
    requires forall c :: c in w[..r - q] ==> !Special(c)
    ensures Unescape(whole) == Some(v + w[..r - q]) && p + |v + w[..r - q]| == r
    ensures StringAt(line[r := NUL], p, v + w[..r - q])
  {
    var run, tail := w[..r - q], w[r - q + 1..];
    StringBehind(line, q, w, r - q);
    UnescapeLast(v, run, tail);
    Appended(line, p, q, r, v, run);
    assert line[r := NUL][p..r] == line[p..r];
  }

  datatype Found = AtEnd | AtQuote | AtBackslash

  method DropBackslash(line0: seq<char>, p: nat, q0: nat, q: nat, ghost whole: string, ghost v0: string, ghost w0: string)
    returns (line: seq<char>, ghost v: string, ghost w: string)
    requires Reading(whole, line0, p, q0, v0, w0) && q0 <= q < q0 + |w0| && w0[q - q0] == '\\'
    requires forall c :: c in w0[..q - q0] ==> !Special(c)
    ensures p <= |line| == |line0| && line[..p] == line0[..p]
    ensures Reading(whole, line, p, q + 1, v, w) && |w| < |w0|
  {
    StringFrom(line0, q0, w0, q - q0);
    var n := StringLength(line0, q, w0[q - q0..]);
    v, w := ReadOn(v0, w0, q - q0), LeftOn(w0, q - q0);
    DropStep(whole, line0, p, q0, v0, w0, q);
    assert n == |w0| - (q - q0) && |w| < |w0|;
    line := MoveDown(line0, q, n);
  }

  /** The next special character: a quote ends the string there, a backslash is dropped. */
  method Round(line0: seq<char>, p: nat, q0: nat, ghost whole: string, ghost v0: string, ghost w0: string)
    returns (found: Found, line: seq<char>, q: nat, ghost v: string, ghost w: string)
    requires Reading(whole, line0, p, q0, v0, w0)
    ensures p <= |line| == |line0| && line[..p] == line0[..p]
    ensures found == AtEnd ==> Unescape(whole) == None
    ensures found == AtQuote ==> Unescape(whole) == Some(v) && StringAt(line, p, v)
    ensures found == AtBackslash ==> Reading(whole, line, p, q, v, w) && |w| < |w0|
  {
    line, v, w := line0, v0, w0;
    q := FindSpecial(line, q0, w);
    if line[q] == NUL {
      EndStep(whole, line, p, q0, v, w, q);
      found := AtEnd;
    } else if line[q] == '"' {
      QuoteStep(whole, line, p, q0, v, w, q);
      line, v := line[q := NUL], v + w[..q - q0];
      found := AtQuote;
    } else {
      line, v, w := DropBackslash(line, p, q0, q, whole, v, w);
      found, q := AtBackslash, q + 1;
    }
  }

  /** Reads the quoted value behind its opening quote, and leaves it as the C string at `p`. */
  method UnescapeInPlace(line0: seq<char>, p: nat, ghost whole: string)
    returns (ok: bool, line: seq<char>, ghost v: string)
    requires StringAt(line0, p, whole)
    ensures |line| == |line0| && line[..p] == line0[..p]
    ensures Unescape(whole) == if ok then Some(v) else None
    ensures ok ==> StringAt(line, p, v)
  {
    var q, found := p, AtBackslash;
    ghost var w := whole;
    line, v := line0, "";
    if Unescape(whole).Some? { Empty(Unescape(whole).value); }
    while found == AtBackslash
      invariant p <= |line| == |line0| && line[..p] == line0[..p]
      invariant found == AtEnd ==> Unescape(whole) == None
      invariant found == AtQuote ==> Unescape(whole) == Some(v) && StringAt(line, p, v)
      invariant found == AtBackslash ==> Reading(whole, line, p, q, v, w)
      decreases found == AtBackslash, |w|
    {
      found, line, q, v, w := Round(line, p, q, whole, v, w);
    }
    ok := found == AtQuote;
  }

  /** `strlen`. */
  method StringLength(line: seq<char>, p: nat, ghost s: string) returns (n: nat)
    requires StringAt(line, p, s)
    ensures n == |s|
  {
    n := 0;
    while line[p + n] != NUL
      invariant n <= |s| && (n < |s| ==> line[p + n] == s[n] != NUL)
      decreases |s| - n
    {
      n := n + 1;
      assert n < |s| ==> line[p + n] == line[p..p + |s|][n];
    }
  }
}
