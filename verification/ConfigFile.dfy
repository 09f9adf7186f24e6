/** Writing string values to a configuration file and reading them back. */
module ConfigFile {
  import opened Sequences
  import opened ConfigText
  import opened ConfigLine
  import opened Wrappers

  datatype Entry = Entry(name: string, value: string)

  /** A line of the file as it is printed. */
  function PrintLine(e: Entry): string { PREFIX + (e.name + ("=" + (Quote(e.value) + "\n"))) }

  function PrintAll(es: seq<Entry>): string { if es == [] then "" else PrintLine(es[0]) + PrintAll(es[1..]) }

  /** What comes up to and including the first `c`. */
  function Through(s: string, c: char): (r: string)
    ensures r <= s && (s != "" ==> r != "")
  {
    if s == "" then "" else if s[0] == c then [c] else [s[0]] + Through(s[1..], c)
  }

  /** A value without its line end, and without a carriage return before it. */
  function ChopEnd(v: string): string {
    if v == "" || v[|v| - 1] != '\n' then v
    else if |v| >= 2 && v[|v| - 2] == '\r' then v[..|v| - 2]
    else v[..|v| - 1]
  }

  /** The assignment of a quoted value that a line holds, if it holds one. */
  function Assignment(line: string): Option<Entry> {
    if !(PREFIX <= line) then None
    else
      var rest := line[|PREFIX|..];
      var upTo := Through(rest, '=');
      if upTo == "" || upTo[|upTo| - 1] != '=' then None
      else
        var v := ChopEnd(rest[|upTo|..]);
        if v == "" || v[0] != '"' then None
        else
          match Unescape(v[1..])
          case None => None
          case Some(value) => Some(Entry(upTo[..|upTo| - 1], value))
  }

  function ReadAll(file: string): seq<Entry>
    decreases |file|
  {
    if file == "" then []
    else
      var line := Through(file, '\n');
      var more := ReadAll(file[|line|..]);
      match Assignment(line)
      case None => more
      case Some(e) => [e] + more
  }

  // ----- reading back what was printed -----

  lemma {:induction false} ThroughFirst(a: string, c: char, b: string)
    requires c !in a
    ensures Through(a + ([c] + b), c) == a + [c]
  {
    if a == "" {
      Empty([c] + b);
      Cons(c, b);
    } else {
      assert a[0] in a && (a + ([c] + b))[1..] == a[1..] + ([c] + b);
      ThroughFirst(a[1..], c, b);
      assert a + [c] == [a[0]] + (a[1..] + [c]);
    }
  }

  /** Cutting a line with a name and a value in it. */
  lemma AssignmentParts(name: string, v: string)
    requires '=' !in name
    ensures Assignment(PREFIX + (name + ("=" + v))) ==
            var w := ChopEnd(v);
            if w == "" || w[0] != '"' then None
            else match Unescape(w[1..]) case None => None case Some(value) => Some(Entry(name, value))
  {
    var rest := name + ("=" + v);
    DropPrefix(PREFIX, rest);
    ThroughFirst(name, '=', v);
    Assoc(name, "=", v);
    DropPrefix(name + "=", v);
    assert (name + "=")[..|name|] == name;
  }

  lemma QuotedChop(body: string)
    ensures ChopEnd("\"" + (body + "\"") + "\n") == "\"" + (body + "\"")
  {
    var q := "\"" + (body + "\"");
    assert (q + "\n")[..|q|] == q && q[|q| - 1] == '"';
  }

  predicate Writable(e: Entry) { '=' !in e.name && '\n' !in e.name }

  lemma PrintedAssignment(e: Entry)
    requires Writable(e)
    ensures Assignment(PrintLine(e)) == Some(e)
  {
    var body := EscapeBody(e.value);
    AssignmentParts(e.name, Quote(e.value) + "\n");
    QuotedChop(body);
    Cons('"', body + "\"");
    UnescapeEscaped(e.value, "");
    assert "\"" + "" == "\"";
  }

  /** The first line of what was printed is the line that was printed. */
  lemma PrintedFirst(e: Entry, file: string)
    requires Writable(e) && '\n' !in e.value
    ensures Through(PrintLine(e) + file, '\n') == PrintLine(e)
  {
    EscapeChars(e.value, '\n');
    var a := PREFIX + (e.name + ("=" + Quote(e.value)));
    assert PrintLine(e) == a + "\n" && PrintLine(e) + file == a + (['\n'] + file);
    ThroughFirst(a, '\n', file);
  }

  /** A value cut at a line end has no closing quote, even where the cut takes a carriage return
      with it. */
  lemma CutValue(v: string)
    ensures var w := ChopEnd("\"" + (EscapeBody(v) + "\n")); w != "" && w[0] == '"' && Unescape(w[1..]) == None
  {
    if v != "" && v[|v| - 1] == '\r' { CutReturn(v[..|v| - 1], v); } else { CutPlain(v); }
  }

  lemma CutPlain(v: string)
    requires v == "" || v[|v| - 1] != '\r'
    ensures var w := ChopEnd("\"" + (EscapeBody(v) + "\n")); w != "" && w[0] == '"' && Unescape(w[1..]) == None
  {
    LastEscaped(v);
    Chopped(EscapeBody(v));
    Cons('"', EscapeBody(v));
    UnescapeUnclosed(v);
  }

  lemma CutReturn(u: string, v: string)
    requires v != "" && u == v[..|v| - 1] && v[|v| - 1] == '\r'
    ensures var w := ChopEnd("\"" + (EscapeBody(v) + "\n")); w != "" && w[0] == '"' && Unescape(w[1..]) == None
  {
    InitLast(v);
    EscapeConcat(u, ['\r']);
    EscapePlain(['\r']);
    Chopped(EscapeBody(v));
    assert EscapeBody(v)[..|EscapeBody(v)| - 1] == EscapeBody(u);
    Cons('"', EscapeBody(u));
    UnescapeUnclosed(u);
  }

  lemma Chopped(body: string)
    ensures ChopEnd("\"" + (body + "\n")) ==
            "\"" + if body != "" && body[|body| - 1] == '\r' then body[..|body| - 1] else body
  {
    var line := "\"" + (body + "\n");
    assert line[..|line| - 1] == "\"" + body;
    if body != "" { assert line[..|line| - 2] == "\"" + body[..|body| - 1]; }
  }

  lemma LastEscaped(v: string)
    requires v == "" || v[|v| - 1] != '\r'
    ensures EscapeBody(v) == "" || EscapeBody(v)[|EscapeBody(v)| - 1] != '\r'
  {
    if v != "" {
      InitLast(v);
      EscapeConcat(v[..|v| - 1], [v[|v| - 1]]);
      assert EscapeBody([v[|v| - 1]]) == if Special(v[|v| - 1]) then ['\\', v[|v| - 1]] else [v[|v| - 1]];
    }
  }

  lemma {:induction false} FirstIndex(s: string, c: char) returns (k: nat)
    requires c in s
    ensures k < |s| && s[k] == c && c !in s[..k]
  {
    if s[0] == c {
      k := 0;
    } else {
      k := FirstIndex(s[1..], c);
      k := k + 1;
      assert s[..k] == [s[0]] + s[1..][..k - 1];
    }
  }

  /** The line up to the first newline of the value. */
  function CutLine(name: string, v: string): string { PREFIX + (name + ("=" + ("\"" + (EscapeBody(v) + "\n")))) }

  lemma CutFirst(e: Entry, v: string, more: string, file: string)
    requires Writable(e) && e.value == v + (['\n'] + more) && '\n' !in v
    ensures Through(PrintLine(e) + file, '\n') == CutLine(e.name, v)
  {
    EscapeConcat(v, ['\n'] + more);
    Cons('\n', more);
    EscapeChars(v, '\n');
    var a := PREFIX + (e.name + ("=" + ("\"" + EscapeBody(v))));
    var b := EscapeBody(more) + "\"" + "\n" + file;
    assert PrintLine(e) + file == a + (['\n'] + b);
    ThroughFirst(a, '\n', b);
    assert a + ['\n'] == CutLine(e.name, v);
  }

  lemma CutNotRead(name: string, v: string)
    requires '=' !in name
    ensures Assignment(CutLine(name, v)) == None
  {
    AssignmentParts(name, "\"" + (EscapeBody(v) + "\n"));
    CutValue(v);
  }

  /** A value survives exactly when it has no newline; otherwise its line is not even read as an
      assignment. */
  lemma SurvivesIffNoNewline(e: Entry, file: string)
    requires Writable(e)
    ensures Assignment(Through(PrintLine(e) + file, '\n')) == (if '\n' in e.value then None else Some(e))
  {
    if '\n' !in e.value {
      PrintedFirst(e, file);
      PrintedAssignment(e);
    } else {
      var k := FirstIndex(e.value, '\n');
      var v, more := e.value[..k], e.value[k + 1..];
      SplitAround(e.value, k);
      CutFirst(e, v, more, file);
      CutNotRead(e.name, v);
    }
  }

  /** A whole file of string values is read back as it was written. */
  lemma {:induction false} FileRoundTrip(es: seq<Entry>)
    requires forall e :: e in es ==> Writable(e) && '\n' !in e.value
    ensures ReadAll(PrintAll(es)) == es
  {
    if es != [] {
      var e, more := es[0], PrintAll(es[1..]);
      PrintedFirst(e, more);
      PrintedAssignment(e);
      FileRoundTrip(es[1..]);
      DropPrefix(PrintLine(e), more);
      HeadTail(es);
    }
  }

  // ----- reading one line in place -----

  /** `strchr`: the first `c` from `p` on, or the end of the string. */
  method Find(line: seq<char>, p: nat, c: char, ghost s: string) returns (q: nat)
    requires StringAt(line, p, s) && c != NUL
    ensures p <= q <= p + |s| && c !in s[..q - p]
    ensures if q < p + |s| then line[q] == c == s[q - p] else line[q] == NUL
  {
    q := p;
    while line[q] != NUL && line[q] != c
      invariant p <= q <= p + |s| && c !in s[..q - p]
      invariant q < p + |s| ==> line[q] == s[q - p] != NUL
      decreases p + |s| - q
    {
      assert s[..q + 1 - p] == s[..q - p] + [s[q - p]];
      q := q + 1;
      assert q < p + |s| ==> line[q] == line[p..p + |s|][q - p];
    }
  }

  /** Cutting a C string short. */
  lemma CutAt(line: seq<char>, p: nat, s: string, i: nat)
    requires StringAt(line, p, s) && i <= |s|
    ensures StringAt(line[p + i := NUL], p, s[..i]) && line[p + i := NUL][..p] == line[..p]
  {
    assert line[p + i := NUL][p..p + i] == line[p..p + |s|][..i];
  }

  /** Ends the value at `p` before its line end. */
  method ChopLine(line0: seq<char>, p: nat, ghost v: string) returns (line: seq<char>)
    requires 0 < p && StringAt(line0, p, v) && line0[p - 1] == NUL && forall i :: 0 <= i < |v| - 1 ==> v[i] != '\n'
    ensures |line| == |line0| && line[..p] == line0[..p] && StringAt(line, p, ChopEnd(v))
  {
    line := line0;
    var q := Find(line, p, '\n', v);
    if line[q] != NUL {
      assert v[q - p] == '\n';
      CutAt(line, p, v, q - p);
      line := line[q := NUL];
      if line[q - 1] == '\r' {
        assert q > p && line0[q - 1] == line0[p..p + |v|][q - 1 - p];
        assert v[..q - p][..q - 1 - p] == v[..q - 1 - p];
        CutAt(line, p, v[..q - p], q - 1 - p);
        line := line[q - 1 := NUL];
      } else {
        assert q > p ==> line0[q - 1] == line0[p..p + |v|][q - 1 - p];
      }
    } else {
      assert q == p + |v| && v[..q - p] == v;
      assert v != "" ==> v[|v| - 1] in v;
    }
  }

  lemma {:induction false} ThroughNone(s: string, c: char)
    requires c !in s
    ensures Through(s, c) == s
  {
    if s != "" {
      assert s[0] in s;
      ThroughNone(s[1..], c);
    }
  }

  /** A name followed by `=`, found in the line at `p`. */
  lemma NameFound(line: seq<char>, p: nat, rest: string, e: nat)
    requires StringAt(line, p, rest) && p <= e < p + |rest| && rest[e - p] == '=' && '=' !in rest[..e - p]
    ensures rest == rest[..e - p] + ("=" + rest[e - p + 1..])
    ensures StringAt(line[e := NUL], p, rest[..e - p]) && StringAt(line[e := NUL], e + 1, rest[e - p + 1..])
    ensures line[e := NUL][e] == NUL && NUL !in rest[..e - p]
  {
    CutAt(line, p, rest, e - p);
    assert line[e := NUL][e + 1..p + |rest|] == line[p..p + |rest|][e - p + 1..];
    assert line[e := NUL][p + |rest|] == NUL;
  }

  lemma NoName(rest: string)
    requires '=' !in rest
    ensures Assignment(PREFIX + rest) == None
  {
    DropPrefix(PREFIX, rest);
    ThroughNone(rest, '=');
  }

  /** The quoted value at `p`, read in place. */
  method ReadValue(line0: seq<char>, p: nat, ghost w: string) returns (r: Option<string>, line: seq<char>)
    requires StringAt(line0, p, w)
    ensures |line| == |line0| && line[..p] == line0[..p]
    ensures r == if w == "" || w[0] != '"' then None else Unescape(w[1..])
  {
    line := line0;
    assert w != "" ==> line[p] == line[p..p + |w|][0];
    if line[p] != '"' { return None, line; }
    StringBehind(line, p, w, 0);
    var ok;
    ghost var v;
    ok, line, v := UnescapeInPlace(line, p + 1, w[1..]);
    assert line[..p] == line[..p + 1][..p] && line0[..p] == line0[..p + 1][..p];
    if !ok { return None, line; }
    var n := StringLength(line, p + 1, v);
    r := Some(line[p + 1..p + 1 + n]);
  }

  /** `memcmp` with the prefix. */
  lemma PrefixRead(line: seq<char>, text: string)
    requires StringAt(line, 0, text)
    ensures PREFIX <= line <==> PREFIX <= text
    ensures PREFIX <= line ==>
              text == PREFIX + text[|PREFIX|..] && StringAt(line, |PREFIX|, text[|PREFIX|..])
  {
    var n := |PREFIX|;
    assert line[..|text|] == text && NUL !in PREFIX;
    if PREFIX <= line {
      assert forall i :: 0 <= i < n ==> PREFIX[i] in PREFIX && line[i] == PREFIX[i];
      assert text[..n] == line[..|text|][..n] == line[..n];
      assert line[..|text|][n..] == line[n..|text|];
    }
    if PREFIX <= text { assert line[..n] == line[..|text|][..n]; }
  }

  predicate OneLine(text: string) { forall i :: 0 <= i < |text| - 1 ==> text[i] != '\n' }

  lemma AssignmentSplit(rest: string, i: nat)
    requires i < |rest| && rest[i] == '=' && '=' !in rest[..i]
    ensures Assignment(PREFIX + rest) ==
            var w := ChopEnd(rest[i + 1..]);
            if w == "" || w[0] != '"' then None
            else match Unescape(w[1..]) case None => None case Some(value) => Some(Entry(rest[..i], value))
  {
    SplitAround(rest, i);
    assert [rest[i]] == "=";
    AssignmentParts(rest[..i], rest[i + 1..]);
  }

  /** The name and value behind the prefix, with the `=` at `e`. */
  method ReadSplit(line0: seq<char>, n: nat, e: nat, ghost rest: string) returns (name: string, value: Option<string>)
    requires StringAt(line0, n, rest) && n <= e < n + |rest| && rest[e - n] == '=' && '=' !in rest[..e - n]
    requires OneLine(rest)
    ensures name == rest[..e - n]
    ensures var w := ChopEnd(rest[e - n + 1..]); value == if w == "" || w[0] != '"' then None else Unescape(w[1..])
  {
    NameFound(line0, n, rest, e);
    ghost var v := rest[e - n + 1..];
    var line := line0[e := NUL];
    ghost var named := line;
    line := ChopLine(line, e + 1, v);
    value, line := ReadValue(line, e + 1, ChopEnd(v));
    SamePrefix(line, named, e + 1, n, e);
    name := line[n..e];
  }

  /** The assignment in a line of the file, which has a newline at most at its end. */
  method ReadAssignment(line: seq<char>, ghost text: string) returns (r: Option<Entry>)
    requires StringAt(line, 0, text) && OneLine(text)
    ensures r == Assignment(text)
  {
    PrefixRead(line, text);
    if !(PREFIX <= line) { return None; }
    var n := |PREFIX|;
    ghost var rest := text[n..];
    var e := Find(line, n, '=', rest);
    if line[e] == NUL {
      assert rest[..e - n] == rest;
      NoName(rest);
      return None;
    }
    var name, value := ReadSplit(line, n, e, rest);
    AssignmentSplit(rest, e - n);
    r := if value.Some? then Some(Entry(name, value.value)) else None;
  }

  // ----- reading a file line by line -----

  lemma {:induction false} ThroughOneLine(s: string)
    ensures OneLine(Through(s, '\n'))
  {
    if s != "" && s[0] != '\n' {
      var more := Through(s[1..], '\n');
      ThroughOneLine(s[1..]);
      assert forall i :: 0 <= i < |more| ==> ([s[0]] + more)[i + 1] == more[i];
    }
  }

  /** The loop over the lines of a file, for its quoted values. */
  method ReadFile(file: string) returns (es: seq<Entry>)
    requires NUL !in file
    ensures es == ReadAll(file)
  {
    var rest := file;
    es := [];
    Empty(ReadAll(file));
    while rest != ""
      invariant NUL !in rest && ReadAll(file) == es + ReadAll(rest)
      decreases |rest|
    {
      var line := Through(rest, '\n');
      ThroughOneLine(rest);
      LineInBuffer(line);
      var r := ReadAssignment(line + [NUL], line);
      ghost var more := ReadAll(rest[|line|..]);
      if r.Some? {
        Assoc(es, [r.value], more);
        es := es + [r.value];
      }
      rest := rest[|line|..];
    }
    Empty(es);
  }

  lemma LineInBuffer(line: string)
    requires NUL !in line
    ensures StringAt(line + [NUL], 0, line)
  {
    assert (line + [NUL])[0..|line|] == line;
  }
}
