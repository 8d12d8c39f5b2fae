/**
 The one-time codes of crates/crypto-core/src/totp.rs and clients/web/src/lib/totp.ts
 (section 5.3 of RFC 4226, section 4.2 of RFC 6238). HMAC-SHA1 is a parameter.
 */
module Totp {
  import opened Wrappers
  import opened Bytes
  import opened Base32
  import opened Strings

  const PERIOD: nat := 30
  const MODULUS: nat := 1_000_000

  type Hmac = (seq<Byte>, seq<Byte>) -> seq<Byte>

  ghost predicate IsSha1(mac: Hmac) {
    forall key: seq<Byte>, message: seq<Byte> :: |mac(key, message)| == 20
  }

  // ----- the counter -----

  /** Rust: the eight bytes of a u64. */
  function CounterRust(counter: nat): (r: seq<Byte>) {
    BE(counter, 8)
  }

  /** Web: four zero bytes, then `counter >>> 0`. */
  function CounterWeb(counter: nat): (r: seq<Byte>) {
    BE(0, 4) + BE(counter % 0x1_0000_0000, 4)
  }

  lemma FourBytes(v: nat)
    ensures BE(v, 4) == [v / 0x100_0000 % 256, v / 0x1_0000 % 256, v / 0x100 % 256, v % 256]
  {
    assert BE(v / 0x100_0000, 1) == BE(v / 0x1_0000_0000, 0) + [v / 0x100_0000 % 256];
    assert BE(v / 0x1_0000, 2) == BE(v / 0x100_0000, 1) + [v / 0x1_0000 % 256];
    assert BE(v / 0x100, 3) == BE(v / 0x1_0000, 2) + [v / 0x100 % 256];
  }

  lemma LowBytes(v: nat) returns (high: nat, b3: Byte, b2: Byte, b1: Byte, b0: Byte)
    ensures v == (((high * 256 + b3) * 256 + b2) * 256 + b1) * 256 + b0
  {
    b0, b1, b2, b3 := v % 256, v / 256 % 256, v / 256 / 256 % 256, v / 256 / 256 / 256 % 256;
    high := v / 256 / 256 / 256 / 256;
  }

  lemma SplitWord(v: nat, high: nat, low: nat)
    requires v == high * 0x1_0000_0000 + low && low < 0x1_0000_0000
    ensures v / 0x1_0000_0000 == high && v % 0x1_0000_0000 == low
  {
  }

  lemma EightBytes(v: nat)
    ensures BE(v, 8) == BE(v / 0x1_0000_0000, 4) + BE(v % 0x1_0000_0000, 4)
  {
    hide BE;
    var high, b3, b2, b1, b0 := LowBytes(v);
    SplitWord(v, high, ((b3 as int * 256 + b2) * 256 + b1) * 256 + b0);
    FourMore(high, 4, b3, b2, b1, b0);
    FourMore(0, 0, b3, b2, b1, b0);
    assert BE(0, 0) + [b3, b2, b1, b0] == [b3, b2, b1, b0];
  }

  lemma FourMore(q: nat, k: nat, b3: Byte, b2: Byte, b1: Byte, b0: Byte)
    ensures BE((((q * 256 + b3) * 256 + b2) * 256 + b1) * 256 + b0, k + 4) == BE(q, k) + [b3, b2, b1, b0]
  {
    hide BE;
    BEAppend(q, b3, k);
    BEAppend(q * 256 + b3, b2, k + 1);
    BEAppend((q * 256 + b3) * 256 + b2, b1, k + 2);
    BEAppend(((q * 256 + b3) * 256 + b2) * 256 + b1, b0, k + 3);
  }

  /** The two messages are the same exactly while the counter of a u64 fits 32 bits. */
  lemma CountersAgree(counter: nat)
    requires counter < 0x1_0000_0000_0000_0000
    ensures CounterRust(counter) == CounterWeb(counter) <==> counter < 0x1_0000_0000
  {
    var high, low := counter / 0x1_0000_0000, counter % 0x1_0000_0000;
    EightBytes(counter);
    FourBytes(high);
    FourBytes(0);
    hide BE;
    if CounterRust(counter) == CounterWeb(counter) {
      assert BE(high, 4) == (BE(high, 4) + BE(low, 4))[..4];
      assert BE(0, 4) == (BE(0, 4) + BE(low, 4))[..4];
      assert BE(high, 4)[0] == 0 && BE(high, 4)[1] == 0 && BE(high, 4)[2] == 0 && BE(high, 4)[3] == 0;
      assert high == 0;
    }
  }

  // ----- dynamic truncation -----

  function Offset(mac: seq<Byte>): (o: nat)
    requires |mac| == 20
    ensures o + 3 < |mac|
  {
    mac[19] % 16
  }

  /** Rust: four bytes as a big-endian u32, the first without its top bit. */
  function CodeRust(mac: seq<Byte>): (r: nat)
    requires |mac| == 20
  {
    var o := Offset(mac);
    FromBE([mac[o] % 128, mac[o + 1], mac[o + 2], mac[o + 3]]) % MODULUS
  }

  /** Web: shifts and bitwise-or of disjoint bytes in signed 32-bit integers. */
  function CodeWeb(mac: seq<Byte>): (r: int)
    requires |mac| == 20
  {
    var o := Offset(mac);
    var b0: int, b1: int, b2: int, b3: int := mac[o] % 128, mac[o + 1], mac[o + 2], mac[o + 3];
    var code := I32(I32(b0 * 0x100_0000) + I32(b1 * 0x1_0000) + I32(b2 * 0x100) + b3);
    if code >= 0 then code % MODULUS else -(-code % MODULUS)
  }

  lemma FromFourBytes(b0: Byte, b1: Byte, b2: Byte, b3: Byte)
    ensures FromBE([b0, b1, b2, b3]) == ((b0 as int * 256 + b1) * 256 + b2) * 256 + b3
  {
    FromBEAppend([], b0);
    FromBEAppend([b0], b1);
    FromBEAppend([b0, b1], b2);
    FromBEAppend([b0, b1, b2], b3);
    assert [] + [b0] == [b0] && [b0] + [b1] == [b0, b1] && [b0, b1] + [b2] == [b0, b1, b2];
    assert [b0, b1, b2] + [b3] == [b0, b1, b2, b3];
  }

  lemma FitsI32(v: int)
    requires -0x8000_0000 <= v < 0x8000_0000
    ensures I32(v) == v
  {
  }

  lemma CodesAgree(mac: seq<Byte>)
    requires |mac| == 20
    ensures CodeRust(mac) == CodeWeb(mac) < MODULUS
  {
    hide FromBE, I32;
    var o := Offset(mac);
    var b0: int, b1: int, b2: int, b3: int := mac[o] % 128, mac[o + 1], mac[o + 2], mac[o + 3];
    FromFourBytes(b0, b1, b2, b3);
    FitsI32(b0 * 0x100_0000);
    FitsI32(b1 * 0x1_0000);
    FitsI32(b2 * 0x100);
    FitsI32(b0 * 0x100_0000 + b1 * 0x1_0000 + b2 * 0x100 + b3);
  }

  /**
   Both codes are the four bytes at the offset in the low half of the last byte, read as one number without its top
   bit, modulo a million (section 5.3 of RFC 4226).
   */
  lemma TruncatedCode(mac: seq<Byte>, high: nat, offset: nat)
    requires |mac| == 20 && mac[19] == 16 * high + offset && offset < 16
    ensures CodeRust(mac) == CodeWeb(mac) == FromBE(mac[offset..offset + 4]) % 0x8000_0000 % 1_000_000
  {
    hide FromBE, CodeWeb, CodeRust, Offset;
    CodesAgree(mac);
    OffsetIs(mac, high, offset);
    CodeAt(mac, offset);
    TopBitGoes(mac[offset], mac[offset + 1], mac[offset + 2], mac[offset + 3]);
    assert mac[offset..offset + 4] == [mac[offset], mac[offset + 1], mac[offset + 2], mac[offset + 3]];
  }

  lemma OffsetIs(mac: seq<Byte>, high: nat, offset: nat)
    requires |mac| == 20 && mac[19] == 16 * high + offset && offset < 16
    ensures Offset(mac) == offset
  {
  }

  lemma CodeAt(mac: seq<Byte>, o: nat)
    requires |mac| == 20 && Offset(mac) == o
    ensures CodeRust(mac) == FromBE([mac[o] % 128, mac[o + 1], mac[o + 2], mac[o + 3]]) % 1_000_000
  {
    hide FromBE, Offset;
  }

  lemma TopBitGoes(b0: Byte, b1: Byte, b2: Byte, b3: Byte)
    ensures FromBE([b0, b1, b2, b3]) % 0x8000_0000 == FromBE([b0 % 128, b1, b2, b3])
  {
    hide FromBE;
    FromFourBytes(b0, b1, b2, b3);
    FromFourBytes(b0 % 128, b1, b2, b3);
    WithoutTopBit(b0, b1 as int * 0x1_0000 + b2 as int * 0x100 + b3);
  }

  lemma WithoutTopBit(b: nat, low: nat)
    requires b < 256 && low < 0x100_0000
    ensures (b * 0x100_0000 + low) % 0x8000_0000 == b % 128 * 0x100_0000 + low
  {
    assert b == b / 128 * 128 + b % 128;
  }

  /** The message authentication code and the six digits of section 5.4 of RFC 4226. */
  lemma SampleCode()
    ensures var mac: seq<Byte> := [0x1f, 0x86, 0x98, 0x69, 0x0e, 0x02, 0xca, 0x16, 0x61, 0x85,
                                   0x50, 0xef, 0x7f, 0x19, 0xda, 0x8e, 0x94, 0x5b, 0x55, 0x5a];
            CodeRust(mac) == CodeWeb(mac) == 872921
  {
    hide CodeRust, CodeWeb, FromBE;
    var mac: seq<Byte> := [0x1f, 0x86, 0x98, 0x69, 0x0e, 0x02, 0xca, 0x16, 0x61, 0x85,
                           0x50, 0xef, 0x7f, 0x19, 0xda, 0x8e, 0x94, 0x5b, 0x55, 0x5a];
    TruncatedCode(mac, 5, 10);
    assert mac[10..14] == [0x50, 0xef, 0x7f, 0x19];
    FromFourBytes(0x50, 0xef, 0x7f, 0x19);
  }

  // ----- six digits -----

  function Decimal(n: nat): (r: string) {
    if n < 10 then [n as char + '0'] else Decimal(n / 10) + [(n % 10) as char + '0']
  }

  function Zeros(k: nat): (r: string) {
    seq(k, _ => '0')
  }

  function PadSix(s: string): (r: string) {
    if |s| < 6 then Zeros(6 - |s|) + s else s
  }

  function DigitValue(c: char): (r: int) {
    c as int - '0' as int
  }

  /** The number a digit string denotes. */
  function Number(s: string): (r: int) {
    if s == "" then 0 else Number(s[..|s| - 1]) * 10 + DigitValue(s[|s| - 1])
  }

  predicate IsDigits(s: string) {
    forall i :: 0 <= i < |s| ==> '0' <= s[i] <= '9'
  }

  lemma {:induction false} DecimalDenotes(n: nat)
    ensures IsDigits(Decimal(n)) && Number(Decimal(n)) == n && |Decimal(n)| >= 1
  {
    if n >= 10 {
      DecimalDenotes(n / 10);
      assert Decimal(n)[..|Decimal(n)| - 1] == Decimal(n / 10);
    } else {
      assert Decimal(n)[..0] == "";
    }
  }

  function Pow10(k: nat): (r: nat) {
    if k == 0 then 1 else 10 * Pow10(k - 1)
  }

  lemma {:induction false} DecimalLength(n: nat, k: nat)
    requires k > 0 && n < Pow10(k)
    ensures |Decimal(n)| <= k
  {
    if n >= 10 {
      assert Pow10(1) == 10 * Pow10(0);
      DecimalLength(n / 10, k - 1);
    }
  }

  lemma {:induction false} ZerosDenoteNothing(k: nat, s: string)
    ensures Number(Zeros(k) + s) == Number(s)
    decreases |s|, k
  {
    if s == "" {
      assert Zeros(k) + s == Zeros(k);
      if k > 0 {
        assert Zeros(k)[..k - 1] == Zeros(k - 1);
        ZerosDenoteNothing(k - 1, s);
        assert Zeros(k - 1) + s == Zeros(k - 1);
      }
    } else {
      var n := |s| - 1;
      ZerosDenoteNothing(k, s[..n]);
      assert (Zeros(k) + s)[..k + n] == Zeros(k) + s[..n];
    }
  }

  lemma PaddedCode(code: nat)
    requires code < MODULUS
    ensures |PadSix(Decimal(code))| == 6 && IsDigits(PadSix(Decimal(code))) && Number(PadSix(Decimal(code))) == code
  {
    assert Pow10(6) == MODULUS by {
      assert Pow10(1) == 10 && Pow10(2) == 100 && Pow10(3) == 1000;
      assert Pow10(4) == 10000 && Pow10(5) == 100000;
    }
    DecimalLength(code, 6);
    DecimalDenotes(code);
    ZerosDenoteNothing(6 - |Decimal(code)|, Decimal(code));
  }

  // ----- the generators -----

  /** A secret that does not decode, or the refusal of the Web Cryptography API to import a key of no bytes. */
  datatype TotpError = BadSecret | EmptyKey

  /** Rust: HMAC takes a key of any length. */
  function TotpRust(secret: string, timestamp: nat, upper: Upper, mac: Hmac): (r: Result<string, TotpError>)
    requires IsSha1(mac)
  {
    var key := DecodeRust(secret, upper);
    if key.Err? then Err(BadSecret)
    else Ok(PadSix(Decimal(CodeRust(mac(key.value, CounterRust(timestamp / PERIOD))))))
  }

  function TotpWeb(secret: string, timestamp: nat, upper: Upper, mac: Hmac): (r: Result<string, TotpError>)
    requires IsSha1(mac)
  {
    var key := DecodeWeb(secret, upper);
    if key.Err? then Err(BadSecret)
    else if key.value == [] then Err(EmptyKey)
    else
      var code := CodeWeb(mac(key.value, CounterWeb(timestamp / PERIOD)));
      CodesAgree(mac(key.value, CounterWeb(timestamp / PERIOD)));
      Ok(PadSix(Decimal(code)))
  }

  /** Without white space and padding the secret is at least two digits, and no byte order mark is among what was dropped. */
  ghost predicate GoodSecret(secret: string, upper: Upper) {
    AllDigits(NormalizeWeb(secret, upper)) && |NormalizeWeb(secret, upper)| >= 2 && BOM !in secret
  }

  /**
   Both generators succeed exactly on the good secrets, and before the counter leaves 32 bits they then return the
   same six digits: the truncated code of the number of whole half minutes, as eight bytes, under the secret's bytes.
   */
  lemma GeneratorsAgree(secret: string, timestamp: nat, upper: Upper, mac: Hmac, high: nat, offset: nat)
    requires IsSha1(mac) && Uppercases(upper) && offset < 16
    ensures var rust, web := TotpRust(secret, timestamp, upper, mac), TotpWeb(secret, timestamp, upper, mac);
            && (rust.Ok? && web.Ok? <==> GoodSecret(secret, upper))
            && (rust.Ok? && web.Ok? && timestamp / 30 < 0x1_0000_0000 ==>
                  && rust == web && |rust.value| == 6 && IsDigits(rust.value)
                  && var tag := mac(Decoded(Digits(NormalizeWeb(secret, upper))), BE(timestamp / 30, 8));
                     tag[19] == 16 * high + offset ==>
                       Number(rust.value) == FromBE(tag[offset..offset + 4]) % 0x8000_0000 % 1_000_000)
  {
    hide NormalizeWeb, CodeRust, CodeWeb, CounterWeb, PadSix, Decimal, IsSha1, Uppercases, Decoded, Digits;
    BothDecode(secret, upper);
    hide AllDigits;
    if GoodSecret(secret, upper) && timestamp / PERIOD < 0x1_0000_0000 {
      var key := DecodeWeb(secret, upper).value;
      CountersAgree(timestamp / PERIOD);
      SameCode(key, timestamp / PERIOD, mac);
      var tag := mac(key, CounterRust(timestamp / PERIOD));
      if tag[19] == 16 * high + offset {
        TruncatedCode(tag, high, offset);
      }
    }
  }

  lemma BothDecode(secret: string, upper: Upper)
    requires Uppercases(upper)
    ensures var rust, web := DecodeRust(secret, upper), DecodeWeb(secret, upper);
            && (rust.Ok? && web.Ok? && web.value != [] <==> GoodSecret(secret, upper))
            && (rust.Ok? && web.Ok? ==> rust == web)
  {
    hide NormalizeWeb, NormalizeRust, Uppercases;
    DecodersAgree(secret, upper);
    ForeignSpace(secret, upper);
    var w := NormalizeWeb(secret, upper);
    if AllDigits(w) {
      DigitsAreUnpadded(w);
    }
  }

  lemma SameCode(key: seq<Byte>, counter: nat, mac: Hmac)
    requires IsSha1(mac) && CounterRust(counter) == CounterWeb(counter)
    ensures |mac(key, CounterRust(counter))| == 20
    ensures var code := CodeRust(mac(key, CounterRust(counter)));
            && CodeWeb(mac(key, CounterWeb(counter))) == code
            && |PadSix(Decimal(code))| == 6 && IsDigits(PadSix(Decimal(code))) && Number(PadSix(Decimal(code))) == code
  {
    hide CodeRust, CodeWeb, PadSix, Decimal;
    var tag := mac(key, CounterRust(counter));
    CodesAgree(tag);
    PaddedCode(CodeRust(tag));
  }

  /** A secret without a whole byte: Rust computes a code, the web refuses the key. */
  lemma EmptyKeyDiffers(timestamp: nat, upper: Upper, mac: Hmac)
    requires IsSha1(mac) && Uppercases(upper)
    ensures TotpRust("", timestamp, upper, mac).Ok? && TotpWeb("", timestamp, upper, mac) == Err(EmptyKey)
    ensures TotpRust("A", timestamp, upper, mac).Ok? && TotpWeb("A", timestamp, upper, mac) == Err(EmptyKey)
  {
    hide PadSix, Decimal, CodeRust, CodeWeb;
    assert IndexOf('A').Some? && AllDigits("") && AllDigits("A");
    NoByte("", upper);
    NoByte("A", upper);
  }

  lemma NoByte(t: string, upper: Upper)
    requires Uppercases(upper) && AllDigits(t) && |t| < 2
    ensures DecodeRust(t, upper) == Ok([]) && DecodeWeb(t, upper) == Ok([])
  {
    hide Uppercases;
    DigitsStay(t, upper);
    DigitsAreUnpadded(t);
    assert Decoded(Digits(t)) == [];
  }
}
