/** String values as they are written to and read from a configuration file. */
module ConfigText {
  import opened Sequences
  import opened Wrappers

  const NUL: char := '\0'
  const PREFIX := "CONFIG_"

  predicate Special(c: char) { c == '"' || c == '\\' }

  // ----- escaping -----

  function EscapeBody(s: string): string {
    if s == "" then ""
    else if Special(s[0]) then ['\\', s[0]] + EscapeBody(s[1..])
    else [s[0]] + EscapeBody(s[1..])
  }

  function Quote(s: string): string { "\"" + (EscapeBody(s) + "\"") }

  /** What stands before the closing quote, with each backslash dropped for the character after it;
      none without a closing quote. */
  function Unescape(s: string): Option<string> {
    if s == "" then None
    else if s[0] == '"' then Some("")
    else if s[0] == '\\' then if |s| == 1 then None else Prepend([s[1]], Unescape(s[2..]))
    else Prepend([s[0]], Unescape(s[1..]))
  }

  function Prepend(a: string, r: Option<string>): Option<string> {
    if r.Some? then Some(a + r.value) else None
  }

  /** One escaped character in front. */
  lemma UnescapeFirst(c: char, body: string, tail: string)
    ensures var front := if Special(c) then ['\\', c] else [c];
            Unescape((front + body) + tail) == Prepend([c], Unescape(body + tail))
  {
    var front := if Special(c) then ['\\', c] else [c];
    Assoc(front, body, tail);
    DropPrefix(front, body + tail);
  }

  lemma {:induction false} UnescapeEscaped(s: string, rest: string)
    ensures Unescape(EscapeBody(s) + ("\"" + rest)) == Some(s)
  {
    var tail := "\"" + rest;
    if s == "" {
      assert EscapeBody(s) + tail == tail;
    } else {
      UnescapeEscaped(s[1..], rest);
      UnescapeFirst(s[0], EscapeBody(s[1..]), tail);
      HeadTail(s);
    }
  }

  /** Without the closing quote nothing is read. */
  lemma {:induction false} UnescapeUnclosed(s: string)
    ensures Unescape(EscapeBody(s)) == None
  {
    if s != "" {
      UnescapeUnclosed(s[1..]);
      if Special(s[0]) { assert EscapeBody(s)[2..] == EscapeBody(s[1..]); }
      else { assert EscapeBody(s)[1..] == EscapeBody(s[1..]); }
    }
  }

  // ----- any text between quotes -----

  /** A character as it is, or behind a backslash. */
  datatype Piece = Piece(escaped: bool, c: char)

  predicate AreSpelt(ps: seq<Piece>) { forall k :: 0 <= k < |ps| ==> Special(ps[k].c) ==> ps[k].escaped }

  function Spelt(ps: seq<Piece>): string {
    if ps == [] then "" else (if ps[0].escaped then ['\\', ps[0].c] else [ps[0].c]) + Spelt(ps[1..])
  }

  function Meant(ps: seq<Piece>): string { if ps == [] then "" else [ps[0].c] + Meant(ps[1..]) }

  lemma {:induction false} UnescapeSpelt(ps: seq<Piece>, rest: string)
    requires AreSpelt(ps)
    ensures Unescape(Spelt(ps) + ("\"" + rest)) == Some(Meant(ps))
  {
    var tail := "\"" + rest;
    if ps == [] {
      Empty(tail);
    } else {
      var front := if ps[0].escaped then ['\\', ps[0].c] else [ps[0].c];
      UnescapeSpelt(ps[1..], rest);
      Assoc(front, Spelt(ps[1..]), tail);
      DropPrefix(front, Spelt(ps[1..]) + tail);
    }
  }

  lemma OnePiece(s: string, n: nat, ps: seq<Piece>, tail: string)
    requires 1 <= n <= 2 && n <= |s| && (n == 2 <==> s[0] == '\\') && s[0] != '"' && s[n..] == Spelt(ps) + tail && AreSpelt(ps)
    ensures var p := Piece(n == 2, s[n - 1]);
            s == Spelt([p] + ps) + tail && AreSpelt([p] + ps) && Meant([p] + ps) == [s[n - 1]] + Meant(ps)
  {
    SplitAt(s, n);
    assert s[..n] == if n == 2 then ['\\', s[1]] else [s[0]];
    Assoc(s[..n], Spelt(ps), tail);
    Cons(Piece(n == 2, s[n - 1]), ps);
  }

  lemma {:induction false} PiecesOf(s: string) returns (ps: seq<Piece>, rest: string)
    requires Unescape(s).Some?
    ensures AreSpelt(ps) && s == Spelt(ps) + ("\"" + rest) && Unescape(s).value == Meant(ps)
  {
    if s[0] == '"' {
      ps, rest := [], s[1..];
      HeadTail(s);
      Empty("\"" + rest);
    } else {
      var n := if s[0] == '\\' then 2 else 1;
      ps, rest := PiecesOf(s[n..]);
      OnePiece(s, n, ps, "\"" + rest);
      ps := [Piece(n == 2, s[n - 1])] + ps;
    }
  }

  predicate Reads(s: string, v: string, ps: seq<Piece>, rest: string) {
    AreSpelt(ps) && s == Spelt(ps) + ("\"" + rest) && v == Meant(ps)
  }

  /** What is read is what stands before the first quote without a backslash, where every other backslash
      gives way to the character behind it, whichever that is. */
  lemma UnescapeExact(s: string, v: string)
    ensures Unescape(s) == Some(v) <==> exists ps, rest :: Reads(s, v, ps, rest)
  {
    if Unescape(s) == Some(v) {
      var ps, rest := PiecesOf(s);
      assert Reads(s, v, ps, rest);
    }
    if ps, rest :| Reads(s, v, ps, rest) { UnescapeSpelt(ps, rest); }
  }

  function Needed(s: string): seq<Piece> { if s == "" then [] else [Piece(Special(s[0]), s[0])] + Needed(s[1..]) }

  /** Escaping puts a backslash before quotes and backslashes and before nothing else. */
  lemma {:induction false} EscapeExact(s: string)
    ensures |Needed(s)| == |s| && forall k :: 0 <= k < |s| ==> Needed(s)[k] == Piece(s[k] == '"' || s[k] == '\\', s[k])
    ensures EscapeBody(s) == Spelt(Needed(s))
  {
    if s != "" {
      EscapeExact(s[1..]);
      Cons(Piece(Special(s[0]), s[0]), Needed(s[1..]));
    }
  }

  lemma {:induction false} EscapeConcat(a: string, b: string)
    ensures EscapeBody(a + b) == EscapeBody(a) + EscapeBody(b)
  {
    if a == "" {
      assert a + b == b;
    } else {
      assert (a + b)[1..] == a[1..] + b;
      EscapeConcat(a[1..], b);
    }
  }

  lemma {:induction false} EscapePlain(s: string)
    requires forall c :: c in s ==> !Special(c)
    ensures EscapeBody(s) == s
  {
    if s != "" { EscapePlain(s[1..]); }
  }

  lemma {:induction false} EscapeChars(s: string, c: char)
    requires !Special(c)
    ensures c in EscapeBody(s) <==> c in s
  {
    if s != "" {
      HeadTail(s);
      EscapeChars(s[1..], c);
    }
  }

  /** The length of the run of ordinary characters at `from`. */
  method SpanPlain(s: string, from: nat) returns (l: nat)
    requires from <= |s|
    ensures from + l <= |s| && (forall c :: c in s[from..from + l] ==> !Special(c))
    ensures from + l < |s| ==> Special(s[from + l])
  {
    l := 0;
    while from + l < |s| && !Special(s[from + l])
      invariant from + l <= |s| && forall c :: c in s[from..from + l] ==> !Special(c)
    {
      assert s[from..from + l + 1] == s[from..from + l] + [s[from + l]];
      l := l + 1;
    }
  }

  /** One more run, and the special character behind it. */
  lemma EscapeRun(s: string, p: nat, l: nat)
    requires p + l <= |s| && (forall c :: c in s[p..p + l] ==> !Special(c))
    ensures EscapeBody(s[..p + l]) == EscapeBody(s[..p]) + s[p..p + l]
    ensures p + l < |s| && Special(s[p + l]) ==>
              EscapeBody(s[..p + l + 1]) == EscapeBody(s[..p]) + s[p..p + l] + ['\\', s[p + l]]
  {
    assert s[..p + l] == s[..p] + s[p..p + l];
    EscapeConcat(s[..p], s[p..p + l]);
    EscapePlain(s[p..p + l]);
    if p + l < |s| && Special(s[p + l]) {
      assert s[..p + l + 1] == s[..p + l] + [s[p + l]];
      EscapeConcat(s[..p + l], [s[p + l]]);
      assert EscapeBody([s[p + l]]) == ['\\', s[p + l]] + EscapeBody([]);
    }
  }

  /** The loop that counts the room for the quotes, the backslashes and the end. */
  method CountRoom(s: string) returns (reslen: nat)
    ensures reslen == |Quote(s)| + 1
  {
    reslen := |s| + 3;
    var p := 0;
    while true
      invariant p <= |s| && reslen == |s| + 3 + |EscapeBody(s[..p])| - p
      decreases |s| - p
    {
      var l := SpanPlain(s, p);
      EscapeRun(s, p, l);
      p := p + l;
      if p == |s| { break; }
      reslen := reslen + 1;
      p := p + 1;
    }
    assert s[..p] == s;
  }

  lemma Written(done: string, run: string, c: char)
    ensures (("\"" + done) + run) + ("\\" + [c]) == "\"" + (done + run + ['\\', c])
    ensures ("\"" + done) + run == "\"" + (done + run)
    ensures ((("\"" + done) + run) + "\\") + [c] == (("\"" + done) + run) + ("\\" + [c])
  {
  }

  /** Counts the room first and then fills it, run by run. */
  method EscapeValue(s: string) returns (res: string, reslen: nat)
    ensures res == Quote(s) && reslen == |res| + 1
  {
    reslen := CountRoom(s);
    res := "\"";
    var p := 0;
    while true
      invariant p <= |s| && res == "\"" + EscapeBody(s[..p])
      decreases |s| - p
    {
      var l := SpanPlain(s, p);
      EscapeRun(s, p, l);
      Written(EscapeBody(s[..p]), s[p..p + l], if p + l < |s| then s[p + l] else NUL);
      res := res + s[p..p + l];
      p := p + l;
      if p == |s| { break; }
      res := res + "\\" + [s[p]];
      p := p + 1;
    }
    assert s[..p] == s;
    res := res + "\"";
  }
}
