/** Bytes and their big-endian reading. */
module Bytes {

  type Byte = b: int | 0 <= b < 256

  /** The number a byte string denotes, most significant byte first. */
  function FromBE(s: seq<Byte>): (r: nat) {
    if s == [] then 0 else FromBE(s[..|s| - 1]) * 256 + s[|s| - 1]
  }

  /** The last k bytes of a number, most significant first. */
  function BE(v: nat, k: nat): (s: seq<Byte>)
    ensures |s| == k
  {
    if k == 0 then [] else BE(v / 256, k - 1) + [v % 256]
  }

  lemma BEAppend(q: nat, b: Byte, k: nat)
    ensures BE(q * 256 + b, k + 1) == BE(q, k) + [b]
  {
  }

  lemma FromBEAppend(s: seq<Byte>, b: Byte)
    ensures FromBE(s + [b]) == FromBE(s) * 256 + b
  {
  }

  lemma SameDigits(p: nat, a: Byte, q: nat, b: Byte)
    requires p * 256 + a == q * 256 + b
    ensures p == q && a == b
  {
  }

  /** A byte string of given length is determined by its value. */
  lemma {:induction false} FromBEInjective(s: seq<Byte>, t: seq<Byte>)
    requires |s| == |t| && FromBE(s) == FromBE(t)
    ensures s == t
  {
    if s != [] {
      var n := |s| - 1;
      SameDigits(FromBE(s[..n]), s[n], FromBE(t[..n]), t[n]);
      FromBEInjective(s[..n], t[..n]);
      assert s == s[..n] + [s[n]] && t == t[..n] + [t[n]];
    }
  }
}
