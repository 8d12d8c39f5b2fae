/**
 Base64 as section 4 of RFC 4648 defines it, with the two decoders in use: the strict one of the
 Rust crate (canonical padding, zero leftover bits) and the browser's `atob`, which skips ASCII
 white space, does not need padding and ignores leftover bits.
 */
module Base64 {
  import opened Wrappers
  import opened Bytes
  import opened Strings

  type Sextet = d: int | 0 <= d < 64

  function CharOf(d: Sextet): (r: char) {
    if d < 26 then 'A' + d as char
    else if d < 52 then 'a' + (d - 26) as char
    else if d < 62 then '0' + (d - 52) as char
    else if d == 62 then '+' else '/'
  }

  function SextetOf(c: char): (r: Option<Sextet>) {
    if 'A' <= c <= 'Z' then Some((c - 'A') as int)
    else if 'a' <= c <= 'z' then Some((c - 'a') as int + 26)
    else if '0' <= c <= '9' then Some((c - '0') as int + 52)
    else if c == '+' then Some(62)
    else if c == '/' then Some(63)
    else None
  }

  const ALPHABET := "ABCDEFGHIJKLMNOPQRSTUVWXYZ" + "abcdefghijklmnopqrstuvwxyz" + "0123456789+/"

  lemma AlphabetAt(d: Sextet)
    ensures CharOf(d) == ALPHABET[d]
  {
  }

  /** A sextet is a position in the alphabet, both ways. */
  lemma SextetIsPosition(c: char, d: Sextet)
    ensures CharOf(d) == ALPHABET[d]
    ensures SextetOf(c) == Some(d) <==> ALPHABET[d] == c
  {
    AlphabetAt(d);
    hide ALPHABET;
  }

  // ----- encoding -----

  function Quad(a: Byte, b: Byte, c: Byte): (q: seq<Sextet>)
    ensures |q| == 4
  {
    [a / 4, a % 4 * 16 + b / 16, b % 16 * 4 + c / 64, c % 64]
  }

  function Text(ds: seq<Sextet>): (s: string)
    ensures |s| == |ds|
  {
    seq(|ds|, i requires 0 <= i < |ds| => CharOf(ds[i]))
  }

  function Encode(s: seq<Byte>): (r: string) {
    if |s| == 0 then ""
    else if |s| == 1 then Text(Quad(s[0], 0, 0)[..2]) + "=="
    else if |s| == 2 then Text(Quad(s[0], s[1], 0)[..3]) + "="
    else Text(Quad(s[0], s[1], s[2])) + Encode(s[3..])
  }

  /** Four sextets denote the same number as their three bytes. */
  lemma QuadDenotes(a: Byte, b: Byte, c: Byte)
    ensures var q := Quad(a, b, c);
            ((q[0] as int * 64 + q[1]) * 64 + q[2]) * 64 + q[3] == (a as int * 256 + b) * 256 + c
  {
  }

  /** Three bytes at a time; one or two bytes left over are written like a group filled up with zeros, padded. */
  lemma EncodeGroups(a: Byte, b: Byte, c: Byte, rest: seq<Byte>)
    ensures Encode([]) == ""
    ensures Encode([a, b, c] + rest) == Text(Quad(a, b, c)) + Encode(rest)
    ensures Encode([a]) == Encode([a, 0, 0])[..2] + "==" && Encode([a, b]) == Encode([a, b, 0])[..3] + "="
  {
    EncodeGroup(a, b, c, rest);
    EncodeGroup(a, 0, 0, []);
    EncodeGroup(a, b, 0, []);
    assert [a, 0, 0] + [] == [a, 0, 0] && [a, b, 0] + [] == [a, b, 0];
    assert Text(Quad(a, 0, 0)[..2]) == Text(Quad(a, 0, 0))[..2] && Text(Quad(a, b, 0)[..3]) == Text(Quad(a, b, 0))[..3];
  }

  /** From section 10 of RFC 4648. */
  lemma SampleEncodings()
    ensures Encode([0x66]) == "Zg==" && Encode([0x66, 0x6F]) == "Zm8=" && Encode([0x66, 0x6F, 0x6F]) == "Zm9v"
  {
    assert Quad(0x66, 0, 0)[..2] == [25, 32] && Text([25, 32]) == "Zg";
    assert Quad(0x66, 0x6F, 0)[..3] == [25, 38, 60] && Text([25, 38, 60]) == "Zm8";
    assert Quad(0x66, 0x6F, 0x6F) == [25, 38, 61, 47] && Text([25, 38, 61, 47]) == "Zm9v";
    EncodeGroup(0x66, 0x6F, 0x6F, []);
    hide Text, Quad;
    assert [0x66, 0x6F, 0x6F] + [] == [0x66, 0x6F, 0x6F];
  }

  // ----- decoding -----

  predicate AllSextets(s: string) {
    forall i :: 0 <= i < |s| ==> SextetOf(s[i]).Some?
  }

  function Triple(w: Sextet, x: Sextet, y: Sextet, z: Sextet): (t: seq<Byte>)
    ensures |t| == 3
  {
    [w * 4 + x / 16, x % 16 * 16 + y / 4, y % 4 * 64 + z]
  }

  lemma TripleInvertsQuad(a: Byte, b: Byte, c: Byte)
    ensures var q := Quad(a, b, c); Triple(q[0], q[1], q[2], q[3]) == [a, b, c]
  {
  }

  lemma QuadInvertsTriple(w: Sextet, x: Sextet, y: Sextet, z: Sextet)
    ensures var t := Triple(w, x, y, z); Quad(t[0], t[1], t[2]) == [w, x, y, z]
  {
    SplitDigits(w, x / 16, 4);
    SplitDigits(x % 16, y / 4, 16);
    SplitDigits(y % 4, z, 64);
  }

  lemma SplitDigits(high: nat, low: nat, base: nat)
    requires (base == 4 || base == 16 || base == 64) && low < base
    ensures (high * base + low) / base == high && (high * base + low) % base == low
  {
  }

  function Sextets(s: string): (ds: seq<Sextet>)
    requires AllSextets(s)
    ensures |ds| == |s|
  {
    seq(|s|, i requires 0 <= i < |s| => SextetOf(s[i]).value)
  }

  /** The last four characters of a strict text, when they are padded. */
  function DecodePadded(s: string): (r: Option<seq<Byte>>)
    requires |s| == 4
  {
    if s[2..] == "==" && AllSextets(s[..2]) then
      var d := Sextets(s[..2]);
      if d[1] % 16 == 0 then Some(Triple(d[0], d[1], 0, 0)[..1]) else None
    else if s[3] == '=' && AllSextets(s[..3]) then
      var d := Sextets(s[..3]);
      if d[2] % 4 == 0 then Some(Triple(d[0], d[1], d[2], 0)[..2]) else None
    else None
  }

  function DecodeStrict(s: string): (r: Option<seq<Byte>>) {
    if s == "" then Some([])
    else if |s| < 4 then None
    else if AllSextets(s[..4]) then
      var d := Sextets(s[..4]);
      var rest := DecodeStrict(s[4..]);
      if rest.None? then None else Some(Triple(d[0], d[1], d[2], d[3]) + rest.value)
    else if |s| == 4 then DecodePadded(s)
    else None
  }

  /** At most two padding characters are dropped, and only from a whole number of groups. */
  function DropPadding(s: string): (r: string) {
    if |s| % 4 != 0 || s == "" || s[|s| - 1] != '=' then s
    else if s[|s| - 2] == '=' then s[..|s| - 2]
    else s[..|s| - 1]
  }

  /** Groups of four sextets, then one or two bytes from what is left; the spare bits are ignored. */
  function DecodeLoose(ds: seq<Sextet>): (r: Option<seq<Byte>>) {
    if |ds| == 0 then Some([])
    else if |ds| == 1 then None
    else if |ds| == 2 then Some(Triple(ds[0], ds[1], 0, 0)[..1])
    else if |ds| == 3 then Some(Triple(ds[0], ds[1], ds[2], 0)[..2])
    else
      var rest := DecodeLoose(ds[4..]);
      if rest.None? then None else Some(Triple(ds[0], ds[1], ds[2], ds[3]) + rest.value)
  }

  /** `atob` (forgiving-base64 decode of the WHATWG Infra standard). */
  function DecodeForgiving(s: string): (r: Option<seq<Byte>>) {
    var t := DropPadding(Without(s, IsAsciiSpace));
    if AllSextets(t) then DecodeLoose(Sextets(t)) else None
  }

  // ----- strict decoding accepts exactly the encodings -----

  lemma TextReadsBack(ds: seq<Sextet>)
    ensures AllSextets(Text(ds)) && Sextets(Text(ds)) == ds
    ensures forall i :: 0 <= i < |ds| ==> Text(ds)[i] != '='
  {
  }

  lemma SextetsPrintBack(s: string)
    requires AllSextets(s)
    ensures Text(Sextets(s)) == s
  {
  }

  lemma PaddedTwo(a: Byte)
    ensures DecodeStrict(Encode([a])) == Some([a])
  {
    var q := Quad(a, 0, 0)[..2];
    var s := Encode([a]);
    TextReadsBack(q);
    assert s == Text(q) + "==";
    assert s[..2] == Text(q) && s[2..] == "==";
    assert s[..4] == s && s[3] == '=' && SextetOf(s[3]).None?;
    TripleInvertsQuad(a, 0, 0);
    assert Quad(a, 0, 0)[2] == 0 && Quad(a, 0, 0)[3] == 0;
    assert [a, 0, 0][..1] == [a];
    assert DecodePadded(s) == Some(Triple(q[0], q[1], 0, 0)[..1]);
    assert DecodeStrict(s) == DecodePadded(s);
  }

  lemma PaddedOne(a: Byte, b: Byte)
    ensures DecodeStrict(Encode([a, b])) == Some([a, b])
  {
    var q := Quad(a, b, 0)[..3];
    var s := Encode([a, b]);
    TextReadsBack(q);
    assert s == Text(q) + "=";
    assert s[..3] == Text(q) && s[3] == '=';
    assert s[..4] == s && SextetOf(s[3]).None?;
    assert s[2..] != "==" by { assert s[2] == Text(q)[2]; }
    TripleInvertsQuad(a, b, 0);
    assert Quad(a, b, 0)[3] == 0;
    assert [a, b, 0][..2] == [a, b];
    assert DecodePadded(s) == Some(Triple(q[0], q[1], q[2], 0)[..2]);
    assert DecodeStrict(s) == DecodePadded(s);
  }

  lemma DecodeGroup(d: seq<Sextet>, rest: string)
    requires |d| == 4
    ensures var r := DecodeStrict(rest);
            DecodeStrict(Text(d) + rest) == if r.None? then None else Some(Triple(d[0], d[1], d[2], d[3]) + r.value)
  {
    var s := Text(d) + rest;
    TextReadsBack(d);
    assert s[..4] == Text(d) && s[4..] == rest;
  }

  lemma EncodeGroup(a: Byte, b: Byte, c: Byte, rest: seq<Byte>)
    ensures Encode([a, b, c] + rest) == Text(Quad(a, b, c)) + Encode(rest)
  {
  }

  lemma {:induction false} StrictReadsBack(s: seq<Byte>)
    ensures DecodeStrict(Encode(s)) == Some(s)
  {
    if |s| == 1 {
      PaddedTwo(s[0]);
      assert s == [s[0]];
    } else if |s| == 2 {
      PaddedOne(s[0], s[1]);
      assert s == [s[0], s[1]];
    } else if |s| >= 3 {
      hide *;
      var q := Quad(s[0], s[1], s[2]);
      var rest := s[3..];
      assert s == [s[0], s[1], s[2]] + rest;
      EncodeGroup(s[0], s[1], s[2], rest);
      TripleInvertsQuad(s[0], s[1], s[2]);
      StrictReadsBack(rest);
      DecodeGroup(q, Encode(rest));
    }
  }

  lemma PaddedIsEncoding(s: string)
    requires |s| == 4 && DecodePadded(s).Some?
    ensures s == Encode(DecodePadded(s).value)
  {
    var b := DecodePadded(s).value;
    if s[2..] == "==" && AllSextets(s[..2]) {
      var d := Sextets(s[..2]);
      SextetsPrintBack(s[..2]);
      QuadInvertsTriple(d[0], d[1], 0, 0);
      assert b == [Triple(d[0], d[1], 0, 0)[0]];
      assert Quad(b[0], 0, 0)[..2] == d;
      assert s == s[..2] + s[2..];
    } else {
      var d := Sextets(s[..3]);
      SextetsPrintBack(s[..3]);
      QuadInvertsTriple(d[0], d[1], d[2], 0);
      var t := Triple(d[0], d[1], d[2], 0);
      assert b == [t[0], t[1]];
      assert Quad(b[0], b[1], 0)[..3] == d;
      assert s == s[..3] + [s[3]];
    }
  }

  lemma {:induction false} StrictIsEncoding(s: string)
    requires DecodeStrict(s).Some?
    ensures s == Encode(DecodeStrict(s).value)
  {
    if s != "" {
      if AllSextets(s[..4]) {
        FullGroupIsEncoding(s);
        StrictIsEncoding(s[4..]);
      } else {
        PaddedIsEncoding(s);
      }
    }
  }

  lemma FullGroupIsEncoding(s: string)
    requires |s| >= 4 && AllSextets(s[..4]) && DecodeStrict(s).Some?
    ensures DecodeStrict(s[4..]).Some?
    ensures s[4..] == Encode(DecodeStrict(s[4..]).value) ==> s == Encode(DecodeStrict(s).value)
  {
    hide DecodeStrict, Encode, Triple, Quad, Text, Sextets, AllSextets;
    var d := Sextets(s[..4]);
    SextetsPrintBack(s[..4]);
    assert s == s[..4] + s[4..];
    DecodeGroup(d, s[4..]);
    var t, rest := Triple(d[0], d[1], d[2], d[3]), DecodeStrict(s[4..]).value;
    assert t == [t[0], t[1], t[2]];
    EncodeGroup(t[0], t[1], t[2], rest);
    QuadInvertsTriple(d[0], d[1], d[2], d[3]);
    assert d == [d[0], d[1], d[2], d[3]];
  }

  /** The strict decoder is the exact inverse of the encoder. */
  lemma StrictInverse(text: string, s: seq<Byte>)
    ensures DecodeStrict(text) == Some(s) <==> text == Encode(s)
  {
    StrictReadsBack(s);
    if DecodeStrict(text) == Some(s) {
      StrictIsEncoding(text);
    }
  }

  // ----- the forgiving decoder also inverts the encoder -----

  /** The digits of an encoding, without its padding. */
  function Unpadded(s: seq<Byte>): (r: seq<Sextet>) {
    if |s| == 0 then []
    else if |s| == 1 then Quad(s[0], 0, 0)[..2]
    else if |s| == 2 then Quad(s[0], s[1], 0)[..3]
    else Quad(s[0], s[1], s[2]) + Unpadded(s[3..])
  }

  function Padding(n: nat): (r: string) {
    if n % 3 == 0 then "" else if n % 3 == 1 then "==" else "="
  }

  lemma TextConcat(a: seq<Sextet>, b: seq<Sextet>)
    ensures Text(a + b) == Text(a) + Text(b)
  {
  }

  lemma PaddingRepeats(n: nat)
    requires n >= 3
    ensures Padding(n) == Padding(n - 3)
  {
  }

  lemma UnpaddedGroup(s: seq<Byte>)
    requires |s| >= 3
    ensures Encode(s) == Text(Quad(s[0], s[1], s[2])) + Encode(s[3..])
    ensures Unpadded(s) == Quad(s[0], s[1], s[2]) + Unpadded(s[3..])
  {
    hide Text, Quad;
  }

  lemma {:induction false} EncodingShape(s: seq<Byte>)
    ensures Encode(s) == Text(Unpadded(s)) + Padding(|s|)
    ensures (|Unpadded(s)| + |Padding(|s|)|) % 4 == 0
    decreases |s|, 1
  {
    if |s| >= 3 {
      EncodingStep(s);
    }
  }

  lemma {:induction false} EncodingStep(s: seq<Byte>)
    requires |s| >= 3
    ensures Encode(s) == Text(Unpadded(s)) + Padding(|s|)
    ensures (|Unpadded(s)| + |Padding(|s|)|) % 4 == 0
    decreases |s|, 0
  {
    hide *;
    var q, rest := Quad(s[0], s[1], s[2]), s[3..];
    UnpaddedGroup(s);
    EncodingShape(rest);
    TextConcat(q, Unpadded(rest));
    PaddingRepeats(|s|);
    assert Text(q) + (Text(Unpadded(rest)) + Padding(|rest|)) == Text(q) + Text(Unpadded(rest)) + Padding(|rest|);
  }

  lemma {:induction false} LooseReadsBack(s: seq<Byte>)
    ensures DecodeLoose(Unpadded(s)) == Some(s)
  {
    if |s| == 1 {
      TripleInvertsQuad(s[0], 0, 0);
      assert Quad(s[0], 0, 0)[2] == 0 && Quad(s[0], 0, 0)[3] == 0;
      assert [s[0], 0, 0][..1] == s;
    } else if |s| == 2 {
      TripleInvertsQuad(s[0], s[1], 0);
      assert Quad(s[0], s[1], 0)[3] == 0;
      assert [s[0], s[1], 0][..2] == s;
    } else if |s| >= 3 {
      var q := Quad(s[0], s[1], s[2]);
      TripleInvertsQuad(s[0], s[1], s[2]);
      LooseReadsBack(s[3..]);
      assert (q + Unpadded(s[3..]))[4..] == Unpadded(s[3..]);
      assert s == [s[0], s[1], s[2]] + s[3..];
    }
  }

  lemma NoSpaceDenotes(c: char)
    requires SextetOf(c).Some?
    ensures !IsAsciiSpace(c)
  {
  }

  lemma NoSpaceInEncoding(ds: seq<Sextet>, n: nat)
    ensures Without(Text(ds) + Padding(n), IsAsciiSpace) == Text(ds) + Padding(n)
  {
    hide Without, SextetOf, Text;
    var t, s := Text(ds), Text(ds) + Padding(n);
    TextReadsBack(ds);
    forall i | 0 <= i < |s| ensures !IsAsciiSpace(s[i]) {
      if i < |t| {
        assert s[i] == t[i];
        NoSpaceDenotes(s[i]);
      } else {
        assert s[i] == Padding(n)[i - |t|];
      }
    }
    WithoutNone(s, IsAsciiSpace);
  }

  lemma DropPaddingAfter(t: string, k: nat)
    requires t == "" || t[|t| - 1] != '='
    requires k <= 2 && (|t| + k) % 4 == 0
    ensures DropPadding(t + ['=', '='][..k]) == t
  {
    var s := t + ['=', '='][..k];
    assert s[..|t|] == t;
    if k == 1 {
      assert s[|t|] == '=' && s[|t| - 1] == t[|t| - 1];
    } else if k == 2 {
      assert s[|t|] == '=' && s[|t| + 1] == '=';
    }
  }

  lemma PaddingIsDropped(ds: seq<Sextet>, n: nat)
    requires (|ds| + |Padding(n)|) % 4 == 0
    ensures DropPadding(Text(ds) + Padding(n)) == Text(ds)
  {
    TextReadsBack(ds);
    assert Padding(n) == ['=', '='][..|Padding(n)|];
    DropPaddingAfter(Text(ds), |Padding(n)|);
  }

  lemma ForgivingReadsBack(s: seq<Byte>)
    ensures DecodeForgiving(Encode(s)) == Some(s)
  {
    hide Encode, Unpadded, DropPadding, Without, Text, AllSextets;
    EncodingShape(s);
    NoSpaceInEncoding(Unpadded(s), |s|);
    PaddingIsDropped(Unpadded(s), |s|);
    TextReadsBack(Unpadded(s));
    LooseReadsBack(s);
  }

  lemma TripleDenotes(w: Sextet, x: Sextet, y: Sextet, z: Sextet)
    ensures var b := Triple(w, x, y, z);
            (b[0] as int * 256 + b[1]) * 256 + b[2] == ((w as int * 64 + x) * 64 + y) * 64 + z
  {
  }

  /** Of two or three sextets left over the spare bits are ignored, and one alone is refused. */
  lemma LooseTails(w: Sextet, x: Sextet, y: Sextet)
    ensures DecodeLoose([]) == Some([]) && DecodeLoose([w]) == None
    ensures DecodeLoose([w, x]) == Some([(w as int * 64 + x) / 16])
    ensures DecodeLoose([w, x, y]) == Some(Triple(w, x, y, 0)[..2])
  {
    HighBits(w, x);
    assert Triple(w, x, 0, 0)[..1] == [w * 4 + x / 16];
  }

  lemma HighBits(w: int, x: int)
    ensures (w * 64 + x) / 16 == w * 4 + x / 16
  {
    assert w * 64 + x == 16 * (w * 4 + x / 16) + x % 16;
  }

  /** Groups of four sextets are three bytes each. */
  lemma LooseGroups(w: Sextet, x: Sextet, y: Sextet, z: Sextet, rest: seq<Sextet>)
    ensures DecodeLoose([w, x, y, z] + rest).Some? <==> DecodeLoose(rest).Some?
    ensures DecodeLoose(rest).Some? ==> DecodeLoose([w, x, y, z] + rest) == Some(Triple(w, x, y, z) + DecodeLoose(rest).value)
  {
    hide Triple;
    var ds := [w, x, y, z] + rest;
    assert ds[4..] == rest && ds[0] == w && ds[1] == x && ds[2] == y && ds[3] == z;
  }

  lemma {:induction false} LooseAccepts(ds: seq<Sextet>)
    ensures DecodeLoose(ds).Some? <==> |ds| % 4 != 1
  {
    if |ds| >= 4 {
      LooseAccepts(ds[4..]);
    }
  }

  /**
   The browser's decoder ignores ASCII white space wherever it stands and one or two padding characters at the end of a
   whole number of groups; of the rest it accepts exactly the texts of the alphabet whose length is not 4k + 1.
   */
  lemma ForgivingAccepts(t: string)
    ensures DecodeForgiving(t) == DecodeForgiving(Without(t, IsAsciiSpace))
    ensures var u := DropPadding(Without(t, IsAsciiSpace));
            DecodeForgiving(t).Some? <==> AllSextets(u) && |u| % 4 != 1
  {
    WithoutTwice(t, IsAsciiSpace);
    var u := DropPadding(Without(t, IsAsciiSpace));
    if AllSextets(u) {
      LooseAccepts(Sextets(u));
    }
  }

  /** Padding is dropped from whole groups only, and without it a text decodes to the same bytes. */
  lemma UnpaddedReadsBack(s: seq<Byte>)
    ensures DecodeForgiving(Text(Unpadded(s))) == Some(s)
  {
    hide Encode, Unpadded, DropPadding, Without, Text, AllSextets;
    var t := Text(Unpadded(s));
    TextReadsBack(Unpadded(s));
    NoSpaceInEncoding(Unpadded(s), 0);
    assert t + Padding(0) == t;
    NothingToDrop(t);
    LooseReadsBack(s);
  }

  lemma NothingToDrop(t: string)
    requires |t| % 4 != 0 || t == "" || t[|t| - 1] != '='
    ensures DropPadding(t) == t
  {
  }

  /** Whatever the strict decoder accepts, the forgiving one decodes to the same bytes. */
  lemma ForgivingExtendsStrict(text: string)
    ensures DecodeStrict(text).Some? ==> DecodeForgiving(text) == DecodeStrict(text)
  {
    if DecodeStrict(text).Some? {
      StrictIsEncoding(text);
      ForgivingReadsBack(DecodeStrict(text).value);
    }
  }
}
