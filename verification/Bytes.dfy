/** Octets and the numbers they spell. */
module Bytes {
  type byte = x: nat | x < 256

  /** Most significant octet first. */
  function BigEndian(s: seq<byte>): nat {
    if s == [] then 0 else BigEndian(s[..|s| - 1]) * 256 + s[|s| - 1]
  }

  /** Least significant octet first, as the host stores it. */
  function LittleEndian(s: seq<byte>): nat {
    if s == [] then 0 else s[0] + 256 * LittleEndian(s[1..])
  }

  /** A number in `n` octets, as the host stores it. */
  function Spelled(x: nat, n: nat): (s: seq<byte>)
    ensures |s| == n
  {
    if n == 0 then [] else [x % 256] + Spelled(x / 256, n - 1)
  }

  function Pow256(n: nat): nat { if n == 0 then 1 else 256 * Pow256(n - 1) }

  lemma {:induction false} LittleEndianBelow(s: seq<byte>)
    ensures LittleEndian(s) < Pow256(|s|)
  {
    if s != [] { LittleEndianBelow(s[1..]); }
  }

  lemma {:induction false} SpelledRight(x: nat, n: nat)
    requires x < Pow256(n)
    ensures LittleEndian(Spelled(x, n)) == x
  {
    if n > 0 { SpelledRight(x / 256, n - 1); }
  }
}
