/**
 The base32 decoders of crates/crypto-core/src/totp.rs and clients/web/src/lib/totp.ts on every
 text. Both keep at most seven leftover bits in an accumulator; the Rust one is a u32 and
 the JavaScript one a signed 32-bit integer, written out below with their wrap-around.
 The full Unicode uppercase mapping is a parameter.
 */
module Base32 {
  import opened Wrappers
  import opened Bytes
  import opened Strings

  type Digit = d: int | 0 <= d < 32

  datatype Base32Error = InvalidBase32

  const ALPHABET := "ABCDEFGHIJKLMNOPQRSTUVWXYZ234567"

  function IndexOf(c: char): (r: Option<Digit>) {
    if 'A' <= c <= 'Z' then Some((c - 'A') as int)
    else if '2' <= c <= '7' then Some((c - '2') as int + 26)
    else None
  }

  lemma AlphabetAt(d: Digit)
    ensures ALPHABET[d] == if d < 26 then 'A' + d as char else '2' + (d - 26) as char
  {
  }

  lemma IndexIsPosition(c: char, d: Digit)
    ensures IndexOf(c) == Some(d) <==> ALPHABET[d] == c
  {
    hide ALPHABET;
    AlphabetAt(d);
  }

  // ----- the number a secret denotes and its bytes -----

  function Value(ds: seq<Digit>): (r: nat) {
    if ds == [] then 0 else Value(ds[..|ds| - 1]) * 32 + ds[|ds| - 1]
  }

  function Pow2(n: nat): (p: nat)
    requires n < 8
    ensures p > 0
  {
    [1, 2, 4, 8, 16, 32, 64, 128][n]
  }

  /** `v >> n` */
  function Shr(v: nat, n: nat): (r: nat)
    requires n < 8
  {
    v / Pow2(n)
  }

  /** `v & ((1 << n) - 1)` */
  function Low(v: nat, n: nat): (r: nat)
    requires n < 8
  {
    v % Pow2(n)
  }

  /** floor(5n/8) bytes: the value of the digits without its last 5n mod 8 bits. */
  function Decoded(ds: seq<Digit>): (s: seq<Byte>)
    ensures |s| == 5 * |ds| / 8
  {
    BE(Shr(Value(ds), 5 * |ds| % 8), 5 * |ds| / 8)
  }

  lemma ValueAppend(ds: seq<Digit>, d: Digit)
    ensures Value(ds + [d]) == Value(ds) * 32 + d
  {
  }

  /** Five more bits when fewer than eight are then left over. */
  lemma ShortStep(v: nat, m: nat, d: Digit)
    requires m < 3
    ensures Shr(v * 32 + d, m + 5) == Shr(v, m)
    ensures Low(v * 32 + d, m + 5) == Low(v, m) * 32 + d
  {
  }

  /** Five more bits when a whole byte can be pushed. */
  lemma LongStep(v: nat, m: nat, d: Digit)
    requires 3 <= m < 8
    ensures var bits := Low(v, m) * 32 + d;
            && bits < 0x1000 && Shr(bits, m - 3) < 256
            && Shr(v * 32 + d, m - 3) == Shr(v, m) * 256 + Shr(bits, m - 3)
            && Low(v * 32 + d, m - 3) == Low(bits, m - 3)
  {
  }

  /** The decoded bytes denote the value of the digits without its leftover bits: nothing is truncated. */
  lemma {:induction false} DecodedValue(ds: seq<Digit>)
    ensures FromBE(Decoded(ds)) == Value(ds) / Pow2(5 * |ds| % 8)
  {
    if ds != [] {
      var n := |ds| - 1;
      DecodedValue(ds[..n]);
      DecodedStep(ds[..n], ds[n]);
      assert ds == ds[..n] + [ds[n]];
    }
  }

  /** The decoded bytes are the only ones of their length with that value. */
  lemma DecodedIsUnique(ds: seq<Digit>, s: seq<Byte>)
    requires |s| == 5 * |ds| / 8
    ensures FromBE(s) == Value(ds) / Pow2(5 * |ds| % 8) <==> s == Decoded(ds)
  {
    hide FromBE, Value, Decoded;
    DecodedValue(ds);
    if FromBE(s) == FromBE(Decoded(ds)) {
      FromBEInjective(s, Decoded(ds));
    }
  }

  /** One digit more: the bytes stay or grow by one, and so does the number they denote. */
  lemma DecodedStep(ds: seq<Digit>, d: Digit)
    ensures var m, v, next := 5 * |ds| % 8, Value(ds), ds + [d];
            var bits := Low(v, m) * 32 + d;
            if m < 3 then
              && 5 * |next| % 8 == m + 5 && Decoded(next) == Decoded(ds)
              && Shr(Value(next), m + 5) == Shr(v, m) && Low(Value(next), m + 5) == bits
            else
              && 5 * |next| % 8 == m - 3 && bits < 0x1000 && Shr(bits, m - 3) < 256
              && Decoded(next) == Decoded(ds) + [Shr(bits, m - 3)]
              && (FromBE(Decoded(ds)) == Shr(v, m) ==> FromBE(Decoded(next)) == Shr(Value(next), m - 3))
              && Low(Value(next), m - 3) == Low(bits, m - 3)
  {
    hide Value, Shr, Low, BE, FromBE;
    var m, v := 5 * |ds| % 8, Value(ds);
    ValueAppend(ds, d);
    LengthStep(|ds|);
    if m < 3 {
      ShortStep(v, m, d);
    } else {
      LongStep(v, m, d);
      var b := Shr(Low(v, m) * 32 + d, m - 3);
      BEAppend(Shr(v, m), b, 5 * |ds| / 8);
      FromBEAppend(Decoded(ds), b);
    }
  }

  lemma LengthStep(n: nat)
    ensures var m := 5 * n % 8;
            if m < 3 then 5 * (n + 1) % 8 == m + 5 && 5 * (n + 1) / 8 == 5 * n / 8
            else 5 * (n + 1) % 8 == m - 3 && 5 * (n + 1) / 8 == 5 * n / 8 + 1
  {
  }

  // ----- normalising the secret -----

  function UpperChar(c: char): (r: char) {
    if 'a' <= c <= 'z' then c - 'a' + 'A' else c
  }

  /** Uppercase of one character; a few characters become several, such as U+00DF. */
  type Upper = char -> string

  /** What is used of Unicode's mapping: ASCII, white space, and that nothing becomes white space or `=`. */
  ghost predicate Uppercases(upper: Upper) {
    && (forall c :: c < 128 as char ==> upper(c) == [UpperChar(c)])
    && (forall c :: IsSpace(c) || IsWhiteSpace(c) ==> upper(c) == [c])
    && (forall c :: upper(c) != "")
    && (forall c, i :: 0 <= i < |upper(c)| && (IsSpace(upper(c)[i]) || upper(c)[i] == '=') ==> c == upper(c)[i])
  }

  function Uppercase(s: string, upper: Upper): (r: string) {
    if s == "" then "" else upper(s[0]) + Uppercase(s[1..], upper)
  }

  function TrimPadding(s: string): (r: string) {
    if s != "" && s[|s| - 1] == '=' then TrimPadding(s[..|s| - 1]) else s
  }

  /** Rust: white space goes first, then the padding. */
  function NormalizeRust(s: string, upper: Upper): (r: string) {
    Uppercase(TrimPadding(Without(s, IsWhiteSpace)), upper)
  }

  /** Web: the padding goes first, then white space. */
  function NormalizeWeb(s: string, upper: Upper): (r: string) {
    Without(Uppercase(TrimPadding(s), upper), IsSpace)
  }

  predicate AllDigits(s: string) {
    forall i :: 0 <= i < |s| ==> IndexOf(s[i]).Some?
  }

  function Digits(s: string): (ds: seq<Digit>)
    requires AllDigits(s)
    ensures |ds| == |s|
  {
    seq(|s|, i requires 0 <= i < |s| => IndexOf(s[i]).value)
  }

  function DecodeText(s: string): (r: Result<seq<Byte>, Base32Error>) {
    if AllDigits(s) then Ok(Decoded(Digits(s))) else Err(InvalidBase32)
  }

  function DecodeRust(s: string, upper: Upper): (r: Result<seq<Byte>, Base32Error>) {
    DecodeText(NormalizeRust(s, upper))
  }

  function DecodeWeb(s: string, upper: Upper): (r: Result<seq<Byte>, Base32Error>) {
    DecodeText(NormalizeWeb(s, upper))
  }

  // ----- the two loops -----

  function U32(v: int): (r: int) {
    v % 0x1_0000_0000
  }

  function I32(v: int): (r: int) {
    (v + 0x8000_0000) % 0x1_0000_0000 - 0x8000_0000
  }

  /** The state of either loop after the first k characters. */
  ghost predicate Accumulated(s: string, k: nat, output: seq<Byte>, bits: nat, bitCount: nat) {
    && k <= |s| && AllDigits(s[..k])
    && bitCount == 5 * k % 8
    && output == Decoded(Digits(s[..k]))
    && bits == Low(Value(Digits(s[..k])), bitCount)
  }

  lemma AccumulateStep(s: string, k: nat, output: seq<Byte>, bits: nat, bitCount: nat)
    requires k < |s| && Accumulated(s, k, output, bits, bitCount) && IndexOf(s[k]).Some?
    ensures bitCount < 8 && bits * 32 + IndexOf(s[k]).value < 0x1000
    ensures var next := bits * 32 + IndexOf(s[k]).value;
            if bitCount + 5 < 8 then Accumulated(s, k + 1, output, next, bitCount + 5)
            else
              && Shr(next, bitCount - 3) < 256
              && Accumulated(s, k + 1, output + [Shr(next, bitCount - 3)], Low(next, bitCount - 3), bitCount - 3)
  {
    hide Low, Shr, Decoded, Value;
    var ds, d := Digits(s[..k]), IndexOf(s[k]).value;
    assert s[..k + 1] == s[..k] + [s[k]];
    assert Digits(s[..k + 1]) == ds + [d];
    DecodedStep(ds, d);
    LowBound(Value(ds), bitCount);
  }

  lemma LowBound(v: nat, n: nat)
    requires n < 8
    ensures Low(v, n) < 128
  {
  }

  lemma AccumulateNothing(s: string)
    ensures Accumulated(s, 0, [], 0, 0)
  {
  }

  lemma AccumulateAll(s: string, output: seq<Byte>, bits: nat, bitCount: nat)
    requires Accumulated(s, |s|, output, bits, bitCount)
    ensures DecodeText(s) == Ok(output)
  {
    assert s[..|s|] == s;
  }

  method Base32DecodeRust(secret: string, upper: Upper) returns (r: Result<seq<Byte>, Base32Error>)
    ensures r == DecodeRust(secret, upper)
  {
    var input := NormalizeRust(secret, upper);
    var bits, bitCount, output: seq<Byte> := 0, 0, [];
    AccumulateNothing(input);
    hide Accumulated, Shr, Low, Decoded;
    for k := 0 to |input|
      invariant bits >= 0 && Accumulated(input, k, output, bits, bitCount)
    {
      var val := IndexOf(input[k]);
      if val.None? {
        return Err(InvalidBase32);
      }
      AccumulateStep(input, k, output, bits, bitCount);
      bits := U32(bits * 32) + val.value;
      bitCount := bitCount + 5;
      if bitCount >= 8 {
        bitCount := bitCount - 8;
        output := output + [Shr(bits, bitCount) % 256];
        bits := Low(bits, bitCount);
      }
    }
    AccumulateAll(input, output, bits, bitCount);
    r := Ok(output);
  }

  method Base32DecodeWeb(secret: string, upper: Upper) returns (r: Result<seq<Byte>, Base32Error>)
    ensures r == DecodeWeb(secret, upper)
  {
    var s := NormalizeWeb(secret, upper);
    var bits, bitCount, out: seq<Byte> := 0, 0, [];
    AccumulateNothing(s);
    hide Accumulated, Shr, Low, Decoded;
    for k := 0 to |s|
      invariant bits >= 0 && Accumulated(s, k, out, bits, bitCount)
    {
      var val := IndexOf(s[k]);
      if val.None? {
        return Err(InvalidBase32);
      }
      AccumulateStep(s, k, out, bits, bitCount);
      bits := I32(bits * 32) + val.value;
      bitCount := bitCount + 5;
      if bitCount >= 8 {
        bitCount := bitCount - 8;
        out := out + [Shr(bits, bitCount) % 256];
        bits := Low(bits, bitCount);
      }
    }
    AccumulateAll(s, out, bits, bitCount);
    r := Ok(out);
  }

  // ----- when the two decoders agree -----

  lemma {:induction false} UppercaseConcat(a: string, b: string, upper: Upper)
    ensures Uppercase(a + b, upper) == Uppercase(a, upper) + Uppercase(b, upper)
  {
    if a == "" {
      assert a + b == b;
    } else {
      assert (a + b)[1..] == a[1..] + b;
      UppercaseConcat(a[1..], b, upper);
    }
  }

  lemma UppercaseOne(c: char, upper: Upper)
    ensures Uppercase([c], upper) == upper(c)
  {
    assert Uppercase([c][1..], upper) == "";
  }

  lemma UppercaseLast(s: string, upper: Upper)
    requires s != ""
    ensures Uppercase(s, upper) == Uppercase(s[..|s| - 1], upper) + upper(s[|s| - 1])
  {
    var n := |s| - 1;
    assert s == s[..n] + [s[n]];
    UppercaseConcat(s[..n], [s[n]], upper);
    UppercaseOne(s[n], upper);
  }

  /** The uppercase of white space is itself, and that of anything else holds none. */
  lemma DropUpperChar(c: char, upper: Upper)
    requires Uppercases(upper)
    ensures Without(upper(c), IsSpace) == if IsSpace(c) then "" else upper(c)
  {
    var u := upper(c);
    if IsSpace(c) {
      WithoutOne(c, IsSpace);
    } else {
      hide IsSpace;
      WithoutNone(u, IsSpace);
    }
  }

  lemma {:induction false} DropUppercase(s: string, upper: Upper)
    requires Uppercases(upper)
    ensures Without(Uppercase(s, upper), IsSpace) == Uppercase(Without(s, IsSpace), upper)
  {
    hide Uppercases, IsSpace;
    if s != "" {
      DropUppercase(s[1..], upper);
      DropUpperChar(s[0], upper);
      WithoutConcat(upper(s[0]), Uppercase(s[1..], upper), IsSpace);
      var rest := Without(s[1..], IsSpace);
      assert "" + rest == rest && ([s[0]] + rest)[1..] == rest;
    }
  }

  lemma {:induction false} TrimUppercase(s: string, upper: Upper)
    requires Uppercases(upper)
    ensures TrimPadding(Uppercase(s, upper)) == Uppercase(TrimPadding(s), upper)
    decreases |s|
  {
    if s != "" {
      var n := |s| - 1;
      UppercaseLast(s, upper);
      TrimUppercase(s[..n], upper);
      var u, front := upper(s[n]), Uppercase(s[..n], upper);
      if s[n] == '=' {
        assert (front + u)[..|front|] == front;
      } else {
        assert u[|u| - 1] != '=';
      }
    }
  }

  /** Removing white space from a trimmed secret leaves only padding to be trimmed again. */
  lemma {:induction false} TrimDropTrim(s: string)
    ensures TrimPadding(Without(s, IsSpace)) == TrimPadding(Without(TrimPadding(s), IsSpace))
  {
    if s != "" && s[|s| - 1] == '=' {
      var n := |s| - 1;
      TrimDropTrim(s[..n]);
      WithoutConcat(s[..n], ['='], IsSpace);
      WithoutNone(['='], IsSpace);
      assert s == s[..n] + ['='];
      var front := Without(s[..n], IsSpace);
      assert (front + ['='])[..|front|] == front;
    }
  }

  /** What Rust decodes is the web's text with its padding trimmed, unless their notions of white space differ. */
  lemma RustTrimsWeb(s: string, upper: Upper)
    requires Uppercases(upper) && BOM !in s && NEL !in s
    ensures NormalizeRust(s, upper) == TrimPadding(NormalizeWeb(s, upper))
  {
    hide Uppercases, Uppercase, TrimPadding, Without, IsSpace, IsWhiteSpace;
    forall i | 0 <= i < |s| ensures IsSpace(s[i]) == IsWhiteSpace(s[i]) {
      SpacesDiffer(s[i]);
    }
    SameKinds(s, IsSpace, IsWhiteSpace);
    TrimDropTrim(s);
    DropUppercase(TrimPadding(s), upper);
    TrimUppercase(Without(TrimPadding(s), IsSpace), upper);
  }

  lemma {:induction false} TrimKeeps(s: string, c: char)
    requires c in s && c != '='
    ensures c in TrimPadding(s)
  {
    if s[|s| - 1] == '=' {
      assert s == s[..|s| - 1] + [s[|s| - 1]];
      TrimKeeps(s[..|s| - 1], c);
    }
  }

  lemma {:induction false} UppercaseHas(s: string, upper: Upper, c: char)
    requires c in s && upper(c) == [c]
    ensures c in Uppercase(s, upper)
  {
    if s[0] == c {
      assert Uppercase(s, upper)[0] == c;
    } else {
      assert s == [s[0]] + s[1..];
      UppercaseHas(s[1..], upper, c);
    }
  }

  /** White space of the other language is no digit. */
  lemma ForeignSpace(s: string, upper: Upper)
    requires Uppercases(upper)
    ensures BOM in s ==> !AllDigits(NormalizeRust(s, upper))
    ensures NEL in s ==> !AllDigits(NormalizeWeb(s, upper))
  {
    assert upper(BOM) == [BOM] && upper(NEL) == [NEL];
    assert IndexOf(BOM).None? && IndexOf(NEL).None?;
    hide Uppercases, Uppercase, TrimPadding, Without;
    if BOM in s {
      WithoutMembers(s, IsWhiteSpace, BOM);
      TrimKeeps(Without(s, IsWhiteSpace), BOM);
      UppercaseHas(TrimPadding(Without(s, IsWhiteSpace)), upper, BOM);
    }
    if NEL in s {
      TrimKeeps(s, NEL);
      UppercaseHas(TrimPadding(s), upper, NEL);
      WithoutMembers(Uppercase(TrimPadding(s), upper), IsSpace, NEL);
    }
  }

  predicate EndsPadded(s: string) {
    s != "" && s[|s| - 1] == '='
  }

  /**
   The decoders give the same answer except on three kinds of secrets: a byte order mark that only the web
   drops, a NEXT LINE that only Rust drops, and padding that only Rust trims because white space follows it.
   Where both accept, the bytes are the same.
   */
  lemma DecodersAgree(s: string, upper: Upper)
    requires Uppercases(upper)
    ensures DecodeRust(s, upper) == DecodeWeb(s, upper)
       <==> && !(BOM in s && AllDigits(NormalizeWeb(s, upper)))
            && !((NEL in s || EndsPadded(NormalizeWeb(s, upper))) && AllDigits(NormalizeRust(s, upper)))
    ensures DecodeRust(s, upper).Ok? && DecodeWeb(s, upper).Ok? ==> DecodeRust(s, upper) == DecodeWeb(s, upper)
  {
    hide Uppercases, NormalizeRust, NormalizeWeb, Decoded, Digits;
    ForeignSpace(s, upper);
    if BOM !in s && NEL !in s {
      RustTrimsWeb(s, upper);
    }
  }

  /** Each of the three kinds exists: for every text of digits, one that only one decoder accepts. */
  lemma DecodersDiffer(t: string, upper: Upper)
    requires Uppercases(upper) && AllDigits(t)
    ensures DecodeRust(t + "= ", upper) == Ok(Decoded(Digits(t))) && DecodeWeb(t + "= ", upper).Err?
    ensures DecodeRust(t + [NEL], upper) == Ok(Decoded(Digits(t))) && DecodeWeb(t + [NEL], upper).Err?
    ensures DecodeWeb(t + [BOM], upper) == Ok(Decoded(Digits(t))) && DecodeRust(t + [BOM], upper).Err?
  {
    hide Uppercases, NormalizeRust, NormalizeWeb, Decoded, Digits, Without, Uppercase, TrimPadding;
    OnlyRustTrims(t, upper);
    OnlyOneDrops(t, upper);
    ForeignSpace(t + [NEL], upper);
    ForeignSpace(t + [BOM], upper);
  }

  lemma DigitStays(c: char, upper: Upper)
    requires Uppercases(upper) && IndexOf(c).Some?
    ensures upper(c) == [c] && !IsSpace(c) && !IsWhiteSpace(c)
  {
    assert c < 128 as char;
    assert UpperChar(c) == c;
  }

  lemma {:induction false} DigitsStay(t: string, upper: Upper)
    requires Uppercases(upper) && AllDigits(t)
    ensures Uppercase(t, upper) == t && Without(t, IsSpace) == t && Without(t, IsWhiteSpace) == t
  {
    hide Uppercases, IndexOf, IsSpace, IsWhiteSpace;
    if t != "" {
      DigitsStay(t[1..], upper);
      assert IndexOf(t[0]).Some?;
      DigitStays(t[0], upper);
      assert [t[0]] + t[1..] == t;
    }
  }

  /** The digit itself, or the small letter of a capital one. */
  predicate SameLetter(c: char, d: char) {
    c == d || ('A' <= d <= 'Z' && c as int == d as int + 32)
  }

  /** The secret shows the digits, in either letter case and with white space anywhere. */
  ghost predicate Shows(s: string, t: string) {
    if s == "" then t == ""
    else if IsSpace(s[0]) then Shows(s[1..], t)
    else t != "" && SameLetter(s[0], t[0]) && Shows(s[1..], t[1..])
  }

  lemma ShownDigit(c: char, d: char, upper: Upper)
    requires Uppercases(upper) && SameLetter(c, d) && IndexOf(d).Some?
    ensures upper(c) == [d] && c != '=' && c != NEL
  {
    assert c < 128 as char && UpperChar(c) == d;
  }

  lemma NotNelNorPadding(c: char)
    requires IsSpace(c)
    ensures c != NEL && c != '='
  {
  }

  lemma {:induction false} ShownDigits(s: string, t: string, upper: Upper)
    requires Uppercases(upper) && Shows(s, t) && AllDigits(t) && BOM !in s
    ensures Uppercase(Without(s, IsSpace), upper) == t && NEL !in s && '=' !in s
  {
    hide Uppercases, IndexOf, IsSpace, SameLetter;
    if s != "" {
      assert forall c :: c in s[1..] ==> c in s;
      assert s == [s[0]] + s[1..];
      if IsSpace(s[0]) {
        ShownDigits(s[1..], t, upper);
        NotNelNorPadding(s[0]);
        assert "" + Without(s[1..], IsSpace) == Without(s[1..], IsSpace);
        assert s[0] in s;
      } else {
        assert IndexOf(t[0]).Some?;
        ShownDigit(s[0], t[0], upper);
        ShownDigits(s[1..], t[1..], upper);
        var rest := Without(s[1..], IsSpace);
        assert ([s[0]] + rest)[1..] == rest;
        assert t == [t[0]] + t[1..];
      }
    }
  }

  function Equals(k: nat): (r: string) {
    seq(k, _ => '=')
  }

  lemma {:induction false} TrimsAll(s: string, k: nat)
    requires !EndsPadded(s)
    ensures TrimPadding(s + Equals(k)) == s
  {
    if k == 0 {
      assert s + Equals(0) == s;
    } else {
      assert (s + Equals(k))[..|s| + k - 1] == s + Equals(k - 1);
      TrimsAll(s, k - 1);
    }
  }

  /**
   Issuers write secrets in groups, in lowercase and padded: whatever shows the digits of a text, with any number of
   padding characters at the end, is decoded by both to the bytes of that text.
   */
  lemma AnySpellingDecodes(s: string, t: string, k: nat, upper: Upper)
    requires Uppercases(upper) && Shows(s, t) && AllDigits(t) && BOM !in s
    ensures DecodeRust(s + Equals(k), upper) == DecodeWeb(s + Equals(k), upper) == Ok(Decoded(Digits(t)))
  {
    hide Uppercases, Uppercase, Decoded, Digits, IsSpace, IsWhiteSpace, Shows, TrimPadding, Without, UpperChar;
    var p := s + Equals(k);
    ShownDigits(s, t, upper);
    UnpaddedEnd(s);
    TrimsAll(s, k);
    DropUppercase(s, upper);
    assert NormalizeWeb(p, upper) == t;
    RustTrimsWeb(p, upper);
    DigitsAreUnpadded(t);
  }

  lemma UnpaddedEnd(s: string)
    requires '=' !in s
    ensures !EndsPadded(s)
  {
  }

  lemma DigitsAreUnpadded(t: string)
    requires AllDigits(t)
    ensures !EndsPadded(t) && TrimPadding(t) == t
  {
    assert t != "" ==> IndexOf(t[|t| - 1]).Some?;
  }

  lemma PaddingAndSpace(kind: char -> bool, upper: Upper)
    requires kind(' ') && !kind('=') && Uppercases(upper)
    ensures Without(['=', ' '], kind) == ['='] && Uppercase(['=', ' '], upper) == ['=', ' ']
  {
    assert upper('=') == ['='] && upper(' ') == [' '];
    hide Uppercases, Without, Uppercase;
    assert ['=', ' '] == ['='] + [' '];
    WithoutConcat(['='], [' '], kind);
    WithoutOne('=', kind);
    WithoutOne(' ', kind);
    UppercaseConcat(['='], [' '], upper);
    UppercaseOne('=', upper);
    UppercaseOne(' ', upper);
  }

  lemma TrimsOne(t: string)
    requires AllDigits(t)
    ensures TrimPadding(t + ['=']) == t && TrimPadding(t + ['=', ' ']) == t + ['=', ' ']
  {
    assert (t + ['='])[..|t|] == t;
    DigitsAreUnpadded(t);
  }

  lemma OnlyRustTrims(t: string, upper: Upper)
    requires Uppercases(upper) && AllDigits(t)
    ensures NormalizeRust(t + "= ", upper) == t && !AllDigits(NormalizeWeb(t + "= ", upper))
  {
    PaddingAndSpace(IsSpace, upper);
    PaddingAndSpace(IsWhiteSpace, upper);
    hide Without, Uppercase, TrimPadding, Uppercases, IsSpace, IsWhiteSpace;
    var tail := ['=', ' '];
    assert "= " == tail;
    DigitsStay(t, upper);
    TrimsOne(t);
    WithoutConcat(t, tail, IsWhiteSpace);
    UppercaseConcat(t, tail, upper);
    WithoutConcat(t, tail, IsSpace);
    assert (t + ['='])[|t|] == '=';
  }

  lemma OnlyOneDrops(t: string, upper: Upper)
    requires Uppercases(upper) && AllDigits(t)
    ensures NormalizeRust(t + [NEL], upper) == t && NormalizeWeb(t + [BOM], upper) == t
  {
    DigitsStay(t, upper);
    assert upper(BOM) == [BOM];
    DigitsAreUnpadded(t);
    assert TrimPadding(t + [BOM]) == t + [BOM];
    hide Without, Uppercase, TrimPadding, Uppercases;
    WithoutConcat(t, [NEL], IsWhiteSpace);
    WithoutOne(NEL, IsWhiteSpace);
    UppercaseConcat(t, [BOM], upper);
    UppercaseOne(BOM, upper);
    WithoutConcat(t, [BOM], IsSpace);
    WithoutOne(BOM, IsSpace);
    assert t + "" == t;
  }
}
