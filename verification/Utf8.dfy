/**
 UTF-8 as `TextEncoder` writes it and `TextDecoder` reads it (the WHATWG Encoding standard): invalid
 bytes become U+FFFD and one leading byte order mark is dropped.
 */
module Utf8 {
  import opened Bytes
  import opened Strings

  const REPLACEMENT := '\U{FFFD}'

  function EncodeChar(c: char): (s: seq<Byte>)
    ensures 1 <= |s| <= 4
  {
    var v := c as int;
    if v < 0x80 then [v]
    else if v < 0x800 then [0xC0 + v / 0x40, 0x80 + v % 0x40]
    else if v < 0x1_0000 then [0xE0 + v / 0x1000, 0x80 + v / 0x40 % 0x40, 0x80 + v % 0x40]
    else [0xF0 + v / 0x4_0000, 0x80 + v / 0x1000 % 0x40, 0x80 + v / 0x40 % 0x40, 0x80 + v % 0x40]
  }

  function Encode(t: string): (s: seq<Byte>) {
    if t == "" then [] else EncodeChar(t[0]) + Encode(t[1..])
  }

  /** Whether byte k exists and lies between the bounds. */
  predicate Within(s: seq<Byte>, k: nat, low: int, high: int) {
    k < |s| && low <= s[k] <= high
  }

  /** The six bits of a continuation byte. */
  function Tail(b: Byte): (bits: int) {
    b % 0x40
  }

  /** The first character and the bytes it takes; the bounds of the second byte exclude overlong forms and surrogates. */
  function DecodeFront(s: seq<Byte>): (r: (char, nat))
    requires s != []
    ensures 1 <= r.1 <= |s|
  {
    var b: int := s[0];
    if b < 0x80 then (b as char, 1)
    else if b < 0xC2 || b > 0xF4 then (REPLACEMENT, 1)
    else if b < 0xE0 then
      if !Within(s, 1, 0x80, 0xBF) then (REPLACEMENT, 1)
      else ((b % 0x20 * 0x40 + Tail(s[1])) as char, 2)
    else if b < 0xF0 then
      if !Within(s, 1, if b == 0xE0 then 0xA0 else 0x80, if b == 0xED then 0x9F else 0xBF) then (REPLACEMENT, 1)
      else if !Within(s, 2, 0x80, 0xBF) then (REPLACEMENT, 2)
      else ((b % 0x10 * 0x1000 + Tail(s[1]) * 0x40 + Tail(s[2])) as char, 3)
    else
      if !Within(s, 1, if b == 0xF0 then 0x90 else 0x80, if b == 0xF4 then 0x8F else 0xBF) then (REPLACEMENT, 1)
      else if !Within(s, 2, 0x80, 0xBF) then (REPLACEMENT, 2)
      else if !Within(s, 3, 0x80, 0xBF) then (REPLACEMENT, 3)
      else ((b % 0x8 * 0x4_0000 + Tail(s[1]) * 0x1000 + Tail(s[2]) * 0x40 + Tail(s[3])) as char, 4)
  }

  function Decode(s: seq<Byte>): (t: string)
    decreases |s|
  {
    if s == [] then "" else [DecodeFront(s).0] + Decode(s[DecodeFront(s).1..])
  }

  /** `TextDecoder.decode` */
  function DecodeText(s: seq<Byte>): (t: string) {
    if |s| >= 3 && s[..3] == [0xEF, 0xBB, 0xBF] then Decode(s[3..]) else Decode(s)
  }

  lemma TwoBytes(c: char, h: int, l: int, rest: seq<Byte>)
    requires 2 <= h < 0x20 && 0 <= l < 0x40 && c as int == h * 0x40 + l
    ensures DecodeFront([0xC0 + h, 0x80 + l] + rest) == (c, 2)
  {
  }

  lemma ThreeBytes(c: char, h: int, m: int, l: int, rest: seq<Byte>)
    requires 0 <= h < 0x10 && 0 <= m < 0x40 && 0 <= l < 0x40
    requires c as int == h * 0x1000 + m * 0x40 + l >= 0x800
    ensures DecodeFront([0xE0 + h, 0x80 + m, 0x80 + l] + rest) == (c, 3)
  {
    assert h == 0xD ==> m < 0x20;
  }

  lemma FourBytes(c: char, h: int, m: int, n: int, l: int, rest: seq<Byte>)
    requires 0 <= h < 5 && 0 <= m < 0x40 && 0 <= n < 0x40 && 0 <= l < 0x40
    requires c as int == h * 0x4_0000 + m * 0x1000 + n * 0x40 + l >= 0x1_0000
    ensures DecodeFront([0xF0 + h, 0x80 + m, 0x80 + n, 0x80 + l] + rest) == (c, 4)
  {
    var s: seq<Byte> := [0xF0 + h, 0x80 + m, 0x80 + n, 0x80 + l] + rest;
    assert h == 0 ==> m >= 0x10;
    assert h == 4 ==> m < 0x10;
    assert Within(s, 1, if h == 0 then 0x90 else 0x80, if h == 4 then 0x8F else 0xBF);
    assert Within(s, 2, 0x80, 0xBF) && Within(s, 3, 0x80, 0xBF);
    assert Tail(s[1]) == m && Tail(s[2]) == n && Tail(s[3]) == l && s[0] % 0x8 == h;
  }

  /** Dividing by 64 again and again. */
  lemma Quotients(v: nat)
    ensures v / 0x1000 == v / 0x40 / 0x40 && v / 0x4_0000 == v / 0x40 / 0x40 / 0x40
  {
    var q := v / 0x40;
    QuotientOf(v, q / 0x40, q % 0x40 * 0x40 + v % 0x40, 0x1000);
    var p := q / 0x40;
    QuotientOf(v, p / 0x40, p % 0x40 * 0x1000 + q % 0x40 * 0x40 + v % 0x40, 0x4_0000);
  }

  lemma QuotientOf(v: nat, q: nat, r: nat, d: nat)
    requires (d == 0x40 || d == 0x1000 || d == 0x4_0000) && v == q * d + r && r < d
    ensures v / d == q && v % d == r
  {
  }

  lemma Parts(v: nat)
    ensures v == v / 0x1000 * 0x1000 + v / 0x40 % 0x40 * 0x40 + v % 0x40
    ensures v == v / 0x4_0000 * 0x4_0000 + v / 0x1000 % 0x40 * 0x1000 + v / 0x40 % 0x40 * 0x40 + v % 0x40
  {
    Quotients(v);
    var q := v / 0x40;
    var p := q / 0x40;
    assert v == q * 0x40 + v % 0x40 && q == p * 0x40 + q % 0x40 && p == p / 0x40 * 0x40 + p % 0x40;
  }

  lemma FrontReadsBack(c: char, rest: seq<Byte>)
    ensures DecodeFront(EncodeChar(c) + rest) == (c, |EncodeChar(c)|)
  {
    var v := c as int;
    if v >= 0x80 {
      hide DecodeFront;
      Parts(v);
      if v < 0x800 {
        TwoBytes(c, v / 0x40, v % 0x40, rest);
      } else if v < 0x1_0000 {
        ThreeBytes(c, v / 0x1000, v / 0x40 % 0x40, v % 0x40, rest);
      } else {
        FourBytes(c, v / 0x4_0000, v / 0x1000 % 0x40, v / 0x40 % 0x40, v % 0x40, rest);
      }
    }
  }

  /** The decoder's first character is the one encoded there, or stands for bytes at which no encoding starts. */
  lemma FrontIsValid(s: seq<Byte>)
    requires s != []
    ensures var (c, n) := DecodeFront(s);
            s[..n] == EncodeChar(c) || (c == REPLACEMENT && forall d: char, rest: seq<Byte> :: s != EncodeChar(d) + rest)
  {
    var (c, n) := DecodeFront(s);
    forall d: char, rest: seq<Byte> | s == EncodeChar(d) + rest ensures s[..n] == EncodeChar(c) {
      FrontReadsBack(d, rest);
      assert s[..n] == EncodeChar(d);
    }
    if c != REPLACEMENT {
      FrontIsEncoded(s);
    }
  }

  /** Some encoding begins with these bytes. */
  ghost predicate Begins(p: seq<Byte>) {
    exists d: char :: p <= EncodeChar(d)
  }

  /** The bytes replaced by one U+FFFD: as many as could still begin an encoding, and at least one. */
  lemma ReplacedBytes(s: seq<Byte>)
    requires s != [] && s[..DecodeFront(s).1] != EncodeChar(DecodeFront(s).0)
    ensures var n := DecodeFront(s).1;
            (n > 1 ==> Begins(s[..n])) && (n < |s| ==> !Begins(s[..n + 1]))
  {
    var n := DecodeFront(s).1;
    FrontIsValid(s);
    if n > 1 {
      ReplacedBegins(s);
    }
    if n < |s| {
      forall d: char ensures !(s[..n + 1] <= EncodeChar(d)) {
        FrontReadsBack(d, []);
        assert EncodeChar(d) + [] == EncodeChar(d);
        if s[..n + 1] <= EncodeChar(d) {
          ErrorIsLocal(s, EncodeChar(d));
        }
      }
    }
  }

  lemma ReplacedBegins(s: seq<Byte>)
    requires s != [] && DecodeFront(s).0 == REPLACEMENT && DecodeFront(s).1 > 1
    requires s[..DecodeFront(s).1] != EncodeChar(REPLACEMENT)
    ensures Begins(s[..DecodeFront(s).1])
  {
    hide Begins, EncodeChar;
    var n := DecodeFront(s).1;
    var b: int := s[0];
    if b < 0xF0 {
      if n == 3 {
        FrontThree(s);
      }
      BeginsThree(s);
    } else {
      BeginsFour(s, n);
    }
  }

  lemma BeginsThree(s: seq<Byte>)
    requires |s| > 1 && 0xE0 <= s[0] < 0xF0
    requires Within(s, 1, if s[0] == 0xE0 then 0xA0 else 0x80, if s[0] == 0xED then 0x9F else 0xBF)
    ensures Begins(s[..2])
  {
    var h: int, m: int := s[0] - 0xE0, s[1] - 0x80;
    var d := (h * 0x1000 + m * 0x40) as char;
    EncodeThree(d, h, m, 0);
    hide EncodeChar;
    assert s[..2] == EncodeChar(d)[..2];
    assert s[..2] <= EncodeChar(d);
  }

  lemma BeginsFour(s: seq<Byte>, n: nat)
    requires 2 <= n <= 3 && n <= |s| && 0xF0 <= s[0] <= 0xF4
    requires Within(s, 1, if s[0] == 0xF0 then 0x90 else 0x80, if s[0] == 0xF4 then 0x8F else 0xBF)
    requires n == 3 ==> Within(s, 2, 0x80, 0xBF)
    ensures Begins(s[..n])
  {
    var h: int, m: int, k: int := s[0] - 0xF0, s[1] - 0x80, if n == 3 then s[2] - 0x80 else 0;
    var d := (h * 0x4_0000 + m * 0x1000 + k * 0x40) as char;
    EncodeFour(d, h, m, k, 0);
    hide EncodeChar;
    assert s[..n] == EncodeChar(d)[..n];
    assert s[..n] <= EncodeChar(d);
  }

  lemma ErrorIsLocal(s: seq<Byte>, t: seq<Byte>)
    requires s != [] && DecodeFront(s).0 == REPLACEMENT && DecodeFront(s).1 < |s|
    requires s[..DecodeFront(s).1] != EncodeChar(REPLACEMENT) && s[..DecodeFront(s).1 + 1] <= t
    ensures DecodeFront(t) == DecodeFront(s)
  {
  }

  lemma FrontIsEncoded(s: seq<Byte>)
    requires s != [] && DecodeFront(s).0 != REPLACEMENT
    ensures s[..DecodeFront(s).1] == EncodeChar(DecodeFront(s).0)
  {
    var b: int := s[0];
    if b < 0x80 {
      assert s[..1] == [s[0]];
    } else if b < 0xE0 {
      FrontTwo(s);
    } else if b < 0xF0 {
      FrontThree(s);
    } else {
      FrontFour(s);
    }
  }

  lemma FrontTwo(s: seq<Byte>)
    requires s != [] && 0x80 <= s[0] < 0xE0 && DecodeFront(s).0 != REPLACEMENT
    ensures s[..DecodeFront(s).1] == EncodeChar(DecodeFront(s).0)
  {
    hide EncodeChar;
    EncodeTwo(DecodeFront(s).0, s[0] - 0xC0, s[1] - 0x80);
    assert s[..2] == [s[0], s[1]];
  }

  lemma FrontThree(s: seq<Byte>)
    requires s != [] && 0xE0 <= s[0] < 0xF0 && (DecodeFront(s).0 != REPLACEMENT || DecodeFront(s).1 == 3)
    ensures s[..DecodeFront(s).1] == EncodeChar(DecodeFront(s).0)
  {
    hide EncodeChar;
    assert Within(s, 2, 0x80, 0xBF);
    EncodeThree(DecodeFront(s).0, s[0] - 0xE0, s[1] - 0x80, s[2] - 0x80);
    assert s[..3] == [s[0], s[1], s[2]];
  }

  lemma FrontFour(s: seq<Byte>)
    requires s != [] && 0xF0 <= s[0] && DecodeFront(s).0 != REPLACEMENT
    ensures s[..DecodeFront(s).1] == EncodeChar(DecodeFront(s).0)
  {
    hide EncodeChar;
    assert Within(s, 2, 0x80, 0xBF) && Within(s, 3, 0x80, 0xBF);
    EncodeFour(DecodeFront(s).0, s[0] - 0xF0, s[1] - 0x80, s[2] - 0x80, s[3] - 0x80);
    assert s[..4] == [s[0], s[1], s[2], s[3]];
  }

  lemma EncodeOne(c: char)
    requires c as int < 0x80
    ensures EncodeChar(c) == [c as int]
  {
  }

  lemma EncodeTwo(c: char, h: int, l: int)
    requires 2 <= h < 0x20 && 0 <= l < 0x40 && c as int == h * 0x40 + l
    ensures EncodeChar(c) == [0xC0 + h, 0x80 + l]
  {
  }

  lemma EncodeThree(c: char, h: int, m: int, l: int)
    requires 0 <= h < 0x10 && 0 <= m < 0x40 && 0 <= l < 0x40 && c as int == h * 0x1000 + m * 0x40 + l >= 0x800
    ensures EncodeChar(c) == [0xE0 + h, 0x80 + m, 0x80 + l]
  {
    var v := c as int;
    QuotientOf(v, h, m * 0x40 + l, 0x1000);
    QuotientOf(v, h * 0x40 + m, l, 0x40);
    QuotientOf(h * 0x40 + m, h, m, 0x40);
  }

  lemma EncodeFour(c: char, h: int, m: int, n: int, l: int)
    requires 0 <= h < 5 && 0 <= m < 0x40 && 0 <= n < 0x40 && 0 <= l < 0x40
    requires c as int == h * 0x4_0000 + m * 0x1000 + n * 0x40 + l >= 0x1_0000
    ensures EncodeChar(c) == [0xF0 + h, 0x80 + m, 0x80 + n, 0x80 + l]
  {
    var v := c as int;
    QuotientOf(v, h, m * 0x1000 + n * 0x40 + l, 0x4_0000);
    QuotientOf(v, h * 0x40 + m, n * 0x40 + l, 0x1000);
    QuotientOf(h * 0x40 + m, h, m, 0x40);
    QuotientOf(v, h * 0x1000 + m * 0x40 + n, l, 0x40);
    QuotientOf(h * 0x1000 + m * 0x40 + n, h * 0x40 + m, n, 0x40);
  }

  /** The euro sign, U+20AC. */
  lemma SampleBytes()
    ensures EncodeChar('\U{20AC}') == [0xE2, 0x82, 0xAC]
  {
  }

  lemma {:induction false} DecodeReadsBack(t: string)
    ensures Decode(Encode(t)) == t
  {
    if t != "" {
      hide EncodeChar, DecodeFront;
      var front, rest := EncodeChar(t[0]), Encode(t[1..]);
      FrontReadsBack(t[0], rest);
      assert (front + rest)[|front|..] == rest;
      DecodeReadsBack(t[1..]);
    }
  }

  lemma MarkBytes(c: char, rest: seq<Byte>)
    ensures var s := EncodeChar(c) + rest; |s| >= 3 && s[..3] == [0xEF, 0xBB, 0xBF] <==> c == BOM
  {
    var v, s := c as int, EncodeChar(c) + rest;
    if |s| >= 3 {
      assert s[..3] == [s[0], s[1], s[2]];
    }
  }

  /** A text comes back as it was, except that a leading byte order mark is lost. */
  lemma TextReadsBack(t: string)
    ensures DecodeText(Encode(t)) == if t != "" && t[0] == BOM then t[1..] else t
  {
    hide EncodeChar, DecodeFront;
    DecodeReadsBack(t);
    if t != "" {
      var rest := Encode(t[1..]);
      MarkBytes(t[0], rest);
      if t[0] == BOM {
        BomIsThreeBytes();
        assert (EncodeChar(BOM) + rest)[3..] == rest;
        DecodeReadsBack(t[1..]);
      }
    }
  }

  lemma BomIsThreeBytes()
    ensures |EncodeChar(BOM)| == 3
  {
  }
}
