/** BER elements of indefinite length, by the grammar of sections 8.1.2 to 8.1.5 of ITU-T X.690,
    and a recursive parser for them. */
module Asn1Grammar {
  import opened Bytes
  import opened Sequences
  import opened Wrappers

  predicate LongTag(b: byte) { b % 32 == 31 }
  predicate Constructed(b: byte) { b % 64 >= 32 }

  const INDEFINITE: byte := 128
  const EOC: seq<byte> := [0, 0]

  /** The decoder's limit on length octets, one less than the size of `size_t`. */
  const MAX_LENGTH_OCTETS: nat := 7

  // ----- the grammar -----

  /** An element: its identifier octets, then a definite length and that many octets, or the
      indefinite form around further elements. */
  datatype Tlv =
    | Definite(tag: seq<byte>, length: seq<byte>, body: seq<byte>)
    | Indefinite(tag: seq<byte>, items: seq<Tlv>)

  /** Later identifier octets: all but the last have the top bit. */
  predicate IsMoreTag(t: seq<byte>) {
    |t| >= 1 && t[|t| - 1] < 128 && forall i :: 0 <= i < |t| - 1 ==> t[i] >= 128
  }

  predicate IsTag(t: seq<byte>) {
    |t| >= 1 && t[0] != 0 && if LongTag(t[0]) then IsMoreTag(t[1..]) else |t| == 1
  }

  /** The number a definite length stands for. */
  function LengthValue(l: seq<byte>): Option<nat> {
    if |l| == 1 && l[0] < 128 then Some(l[0])
    else if 2 <= |l| <= 1 + MAX_LENGTH_OCTETS && l[0] == 128 + |l| - 1 then Some(BigEndian(l[1..]))
    else None
  }

  predicate IsElement(t: Tlv) {
    IsTag(t.tag) &&
    match t
    case Definite(_, l, body) => LengthValue(l) == Some(|body|)
    case Indefinite(tag, items) => Constructed(tag[0]) && forall i :: 0 <= i < |items| ==> IsElement(items[i])
  }

  predicate AreElements(items: seq<Tlv>) { forall i :: 0 <= i < |items| ==> IsElement(items[i]) }

  function Encode(t: Tlv): seq<byte> {
    match t
    case Definite(tag, l, body) => tag + (l + body)
    case Indefinite(tag, items) => tag + ([INDEFINITE] + EncodeAll(items))
  }

  /** The encodings of `items` one after the other, closed by the end-of-contents octets. */
  function EncodeAll(items: seq<Tlv>): (s: seq<byte>)
    ensures |s| >= 2
  {
    if items == [] then EOC else Encode(items[0]) + EncodeAll(items[1..])
  }

  // ----- a recursive parser -----

  /** How many later identifier octets there are, each with an octet to spare behind it. */
  function MoreTag(s: seq<byte>): (r: Option<nat>)
    ensures r.Some? ==> 1 <= r.value < |s|
  {
    if |s| < 2 then None
    else if s[0] >= 128 then (match MoreTag(s[1..]) case None => None case Some(n) => Some(n + 1))
    else Some(1)
  }

  /** How many identifier octets there are. */
  function TagSize(s: seq<byte>): (r: Option<nat>)
    requires |s| >= 2
    ensures r.Some? ==> 1 <= r.value < |s|
  {
    if LongTag(s[0]) then (match MoreTag(s[1..]) case None => None case Some(n) => Some(n + 1)) else Some(1)
  }

  /** The octets of a definite length and of what it covers. */
  function DefiniteSize(s: seq<byte>): (r: Option<nat>)
    requires |s| >= 1 && s[0] != INDEFINITE
    ensures r.Some? ==> 1 <= r.value <= |s|
  {
    var k := if s[0] < 128 then 0 else s[0] - 128;
    if k > MAX_LENGTH_OCTETS || k > |s| - 1 then None
    else
      var len := if s[0] < 128 then s[0] else BigEndian(s[1..1 + k]);
      if len > |s| - 1 - k then None else Some(1 + k + len)
  }

  function Plus(n: nat, r: Option<nat>): Option<nat> { if r.Some? then Some(n + r.value) else None }

  /** The size of the element at the start of `s`. */
  function ElementSize(s: seq<byte>): (r: Option<nat>)
    requires |s| >= 2 && s[0] != 0
    ensures r.Some? ==> 2 <= r.value <= |s|
    decreases |s|, 1
  {
    match TagSize(s)
    case None => None
    case Some(t) => SizeBehindTag(s, t)
  }

  /** The same, when its identifier octets have been counted. */
  function SizeBehindTag(s: seq<byte>, t: nat): (r: Option<nat>)
    requires 1 <= t < |s|
    ensures r.Some? ==> 2 <= r.value <= |s|
    decreases |s|, 0
  {
    if s[t] == INDEFINITE then
      if !Constructed(s[0]) then None
      else Plus(t + 1, ContentsSize(s[t + 1..]))
    else Plus(t, DefiniteSize(s[t..]))
  }

  /** The size of the elements at the start of `s` and the end-of-contents octets that close them. */
  function ContentsSize(s: seq<byte>): (r: Option<nat>)
    ensures r.Some? ==> 2 <= r.value <= |s|
    decreases |s|, 2
  {
    if |s| < 2 then None
    else if s[0] == 0 then if s[1] == 0 then Some(2) else None
    else
      match ElementSize(s)
      case None => None
      case Some(n) => Plus(n, ContentsSize(s[n..]))
  }

  // ----- the parser accepts exactly the grammar -----

  lemma {:induction false} MoreTagComplete(t: seq<byte>, rest: seq<byte>)
    requires IsMoreTag(t) && |rest| >= 1
    ensures MoreTag(t + rest) == Some(|t|)
  {
    if |t| > 1 {
      assert (t + rest)[1..] == t[1..] + rest && IsMoreTag(t[1..]);
      MoreTagComplete(t[1..], rest);
    }
  }

  lemma {:induction false} MoreTagSound(s: seq<byte>)
    requires MoreTag(s).Some?
    ensures IsMoreTag(s[..MoreTag(s).value])
  {
    if s[0] >= 128 {
      var n := MoreTag(s[1..]).value;
      MoreTagSound(s[1..]);
      assert s[..n + 1] == [s[0]] + s[1..][..n];
    }
  }

  lemma TagComplete(t: seq<byte>, rest: seq<byte>)
    requires IsTag(t) && |rest| >= 1
    ensures (t + rest)[0] != 0 && TagSize(t + rest) == Some(|t|)
  {
    if LongTag(t[0]) {
      assert (t + rest)[1..] == t[1..] + rest;
      MoreTagComplete(t[1..], rest);
    }
  }

  lemma TagSound(s: seq<byte>)
    requires |s| >= 2 && s[0] != 0 && TagSize(s).Some?
    ensures IsTag(s[..TagSize(s).value])
  {
    var n := TagSize(s).value;
    if LongTag(s[0]) {
      MoreTagSound(s[1..]);
      assert s[..n][1..] == s[1..][..n - 1];
    }
  }

  lemma DefiniteComplete(l: seq<byte>, body: seq<byte>, rest: seq<byte>)
    requires LengthValue(l) == Some(|body|)
    ensures var s := l + (body + rest); s[0] != INDEFINITE && DefiniteSize(s) == Some(|l| + |body|)
  {
    var s := l + (body + rest);
    if l[0] >= 128 { assert s[1..|l|] == l[1..]; }
  }

  lemma DefiniteSound(s: seq<byte>)
    requires |s| >= 1 && s[0] != INDEFINITE && DefiniteSize(s).Some?
    ensures var n := DefiniteSize(s).value;
            var k := if s[0] < 128 then 0 else s[0] - 128;
            1 + k <= n && LengthValue(s[..1 + k]) == Some(n - 1 - k)
  {
    var k := if s[0] < 128 then 0 else s[0] - 128;
    assert s[..1 + k][1..] == s[1..1 + k];
  }

  lemma DefiniteElementComplete(tag: seq<byte>, l: seq<byte>, body: seq<byte>, rest: seq<byte>)
    requires IsTag(tag) && LengthValue(l) == Some(|body|)
    ensures var s := tag + (l + (body + rest));
            s[0] != 0 && ElementSize(s) == Some(|tag| + (|l| + |body|))
  {
    TagComplete(tag, l + (body + rest));
    DefiniteComplete(l, body, rest);
    DropPrefix(tag, l + (body + rest));
  }

  lemma AfterTag(tag: seq<byte>, tail: seq<byte>)
    requires |tag| >= 1
    ensures var s := tag + ([INDEFINITE] + tail);
            |s| > |tag| && s[0] == tag[0] && s[|tag|] == INDEFINITE && s[|tag| + 1..] == tail
  {
    Assoc(tag, [INDEFINITE], tail);
    DropPrefix(tag + [INDEFINITE], tail);
  }

  lemma IndefiniteSize(s: seq<byte>, t: nat)
    requires 1 <= t < |s| && s[t] == INDEFINITE && Constructed(s[0])
    ensures SizeBehindTag(s, t) == Plus(t + 1, ContentsSize(s[t + 1..]))
  {
  }

  lemma IndefiniteElementComplete(tag: seq<byte>, tail: seq<byte>, n: nat)
    requires IsTag(tag) && Constructed(tag[0]) && ContentsSize(tail) == Some(n)
    ensures var s := tag + ([INDEFINITE] + tail);
            s[0] != 0 && ElementSize(s) == Some(|tag| + 1 + n)
  {
    TagComplete(tag, [INDEFINITE] + tail);
    AfterTag(tag, tail);
    IndefiniteSize(tag + ([INDEFINITE] + tail), |tag|);
  }

  /** Whatever the grammar builds, the parser measures. */
  lemma {:induction false} ElementComplete(t: Tlv, rest: seq<byte>)
    requires IsElement(t)
    ensures var s := Encode(t) + rest;
            |s| >= 2 && s[0] != 0 && ElementSize(s) == Some(|Encode(t)|)
    decreases t, 0
  {
    match t
    case Definite(tag, l, body) =>
      Assoc(tag, l + body, rest);
      Assoc(l, body, rest);
      DefiniteElementComplete(tag, l, body, rest);
    case Indefinite(tag, items) =>
      var tail := EncodeAll(items) + rest;
      Assoc(tag, [INDEFINITE] + EncodeAll(items), rest);
      Assoc([INDEFINITE], EncodeAll(items), rest);
      ContentsComplete(items, rest);
      IndefiniteElementComplete(tag, tail, |EncodeAll(items)|);
  }

  /** One element ahead of more contents. */
  lemma ContentsStep(e: seq<byte>, tail: seq<byte>)
    requires var s := e + tail; |s| >= 2 && s[0] != 0 && ElementSize(s) == Some(|e|)
    ensures ContentsSize(e + tail) == Plus(|e|, ContentsSize(tail))
  {
    DropPrefix(e, tail);
  }

  lemma {:induction false} ContentsComplete(items: seq<Tlv>, rest: seq<byte>)
    requires AreElements(items)
    ensures ContentsSize(EncodeAll(items) + rest) == Some(|EncodeAll(items)|)
    decreases items, 1
  {
    if items != [] {
      var e, more := Encode(items[0]), EncodeAll(items[1..]);
      Assoc(e, more, rest);
      ElementComplete(items[0], more + rest);
      ContentsComplete(items[1..], rest);
      ContentsStep(e, more + rest);
    }
  }

  /** Where the length octets end. */
  lemma DefiniteParts(s: seq<byte>, k: nat, n: nat) returns (j: nat)
    requires k < |s| && s[k] != INDEFINITE && k <= n && DefiniteSize(s[k..]) == Some(n - k)
    ensures k < j <= n <= |s| && LengthValue(s[k..j]) == Some(n - j)
  {
    DefiniteSound(s[k..]);
    j := k + 1 + if s[k] < 128 then 0 else s[k] - 128;
    SliceOfDrop(s, k, j - k);
  }

  lemma DefiniteElementSound(s: seq<byte>, k: nat, n: nat) returns (t: Tlv)
    requires |s| >= 2 && s[0] != 0 && TagSize(s) == Some(k) && s[k] != INDEFINITE && ElementSize(s) == Some(n)
    ensures IsElement(t) && s[..n] == Encode(t)
  {
    TagSound(s);
    var j := DefiniteParts(s, k, n);
    t := Definite(s[..k], s[k..j], s[j..n]);
    SplitTwice(s, k, j, n);
  }

  lemma IndefiniteElementSound(s: seq<byte>, k: nat, n: nat, items: seq<Tlv>) returns (t: Tlv)
    requires |s| >= 2 && s[0] != 0 && TagSize(s) == Some(k) && s[k] == INDEFINITE && Constructed(s[0])
    requires k + 1 <= n <= |s| && AreElements(items) && s[k + 1..][..n - k - 1] == EncodeAll(items)
    ensures IsElement(t) && s[..n] == Encode(t)
  {
    TagSound(s);
    t := Indefinite(s[..k], items);
    SliceOfDrop(s, k + 1, n - k - 1);
    SplitTwice(s, k, k + 1, n);
    SliceOne(s, k);
  }

  /** Whatever the parser measures, the grammar builds. */
  lemma {:induction false} ElementSound(s: seq<byte>) returns (t: Tlv)
    requires |s| >= 2 && s[0] != 0 && ElementSize(s).Some?
    ensures IsElement(t) && s[..ElementSize(s).value] == Encode(t)
    decreases |s|, 0
  {
    var k, n := TagSize(s).value, ElementSize(s).value;
    if s[k] == INDEFINITE {
      var items := ContentsSound(s[k + 1..]);
      t := IndefiniteElementSound(s, k, n, items);
    } else {
      t := DefiniteElementSound(s, k, n);
    }
  }

  lemma {:induction false} ContentsSound(s: seq<byte>) returns (items: seq<Tlv>)
    requires ContentsSize(s).Some?
    ensures AreElements(items) && s[..ContentsSize(s).value] == EncodeAll(items)
    decreases |s|, 1
  {
    if s[0] == 0 {
      items := [];
    } else {
      var n, m := ElementSize(s).value, ContentsSize(s).value;
      var t := ElementSound(s);
      var more := ContentsSound(s[n..]);
      items := [t] + more;
      Cons(t, more);
      SliceOfDrop(s, n, m - n);
      SplitTwice(s, n, n, m);
      Empty(s[n..m]);
    }
  }

  lemma ContentsFound(s: seq<byte>, n: nat, items: seq<Tlv>)
    requires n <= |s| && AreElements(items) && s[..n] == EncodeAll(items)
    ensures ContentsSize(s) == Some(n)
  {
    SplitAt(s, n);
    ContentsComplete(items, s[n..]);
  }

  /** The size is `n` exactly when the first `n` octets are complete elements and their closing
      end-of-contents octets. */
  lemma ContentsExact(s: seq<byte>, n: nat)
    ensures ContentsSize(s) == Some(n)
            <==> n <= |s| && exists items :: AreElements(items) && s[..n] == EncodeAll(items)
  {
    if ContentsSize(s) == Some(n) {
      var items := ContentsSound(s);
    } else if n <= |s| {
      forall items | AreElements(items) && s[..n] == EncodeAll(items) ensures false {
        ContentsFound(s, n, items);
      }
    }
  }
}
