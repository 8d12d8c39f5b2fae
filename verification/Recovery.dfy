/**
 The recovery phrase of crates/crypto-core/src/recovery.rs and the key wrapping of
 crates/crypto-core/src/keys.rs. HKDF and the cipher are parameters.
 */
module Recovery {
  import opened Wrappers
  import opened Bytes
  import opened EncString
  import opened Strings

  function HexDigit(d: nat): (r: char)
    requires d < 16
  {
    if d < 10 then '0' + d as char else 'a' + (d - 10) as char
  }

  lemma HexDigits(c: char, d: nat)
    requires d < 16
    ensures DigitOf(c, 16) == Some(d) <==> LowerChar(c) == HexDigit(d)
    ensures DigitOf(c, 16).Some? ==> DigitOf(c, 16).value < 16
    ensures !IsWhiteSpace(HexDigit(d))
  {
  }

  // ----- printing -----

  /** Two digits for each byte. */
  function Hex(entropy: seq<Byte>): (s: string)
    ensures |s| == 2 * |entropy|
    ensures forall i :: 0 <= i < |s| ==> s[i] == HexDigit(if i % 2 == 0 then entropy[i / 2] / 16 else entropy[i / 2] % 16)
  {
    seq(2 * |entropy|, i requires 0 <= i < 2 * |entropy| =>
      HexDigit(if i % 2 == 0 then entropy[i / 2] / 16 else entropy[i / 2] % 16))
  }

  /** Groups of eight characters separated by spaces. */
  function Grouped(s: string): (r: string) {
    if |s| <= 8 then s else s[..8] + " " + Grouped(s[8..])
  }

  function EntropyToPhrase(entropy: seq<Byte>): (r: string) {
    Grouped(Hex(entropy))
  }

  // ----- parsing -----

  predicate AllHex(s: string) {
    forall i :: 0 <= i < |s| ==> DigitOf(s[i], 16).Some?
  }

  /** The byte two digits denote. */
  function ByteOf(hex: string, k: nat): (r: Option<int>)
    requires 2 * k + 1 < |hex|
  {
    var hi, lo := DigitOf(hex[2 * k], 16), DigitOf(hex[2 * k + 1], 16);
    if hi.None? || lo.None? then None else Some(hi.value * 16 + lo.value)
  }

  lemma PairIsByte(hex: string, k: nat)
    requires 2 * k + 1 < |hex| && AllHex(hex)
    ensures ByteOf(hex, k).Some? && 0 <= ByteOf(hex, k).value < 256
  {
  }

  lemma DigitPair(hex: string, k: nat, b: Byte)
    requires 2 * k + 1 < |hex|
    ensures ByteOf(hex, k) == Some(b) <==>
            LowerChar(hex[2 * k]) == HexDigit(b / 16) && LowerChar(hex[2 * k + 1]) == HexDigit(b % 16)
  {
    hide DigitOf, LowerChar, HexDigit;
    HexDigits(hex[2 * k], b / 16);
    HexDigits(hex[2 * k + 1], b % 16);
  }

  lemma BytesAreHex(hex: string, entropy: seq<Byte>)
    requires |hex| == 2 * |entropy|
    ensures (forall k :: 0 <= k < |entropy| ==> ByteOf(hex, k) == Some(entropy[k])) <==> Lower(hex) == Hex(entropy)
  {
    hide LowerChar, HexDigit, ByteOf;
    if forall k :: 0 <= k < |entropy| ==> ByteOf(hex, k) == Some(entropy[k]) {
      forall i | 0 <= i < |hex| ensures LowerChar(hex[i]) == Hex(entropy)[i] {
        DigitPair(hex, i / 2, entropy[i / 2]);
      }
    }
    if Lower(hex) == Hex(entropy) {
      forall k | 0 <= k < |entropy| ensures ByteOf(hex, k) == Some(entropy[k]) {
        assert Lower(hex)[2 * k] == Hex(entropy)[2 * k];
        assert Lower(hex)[2 * k + 1] == Hex(entropy)[2 * k + 1];
        DigitPair(hex, k, entropy[k]);
      }
    }
  }

  /** Exactly 64 hexadecimal digits once white space is gone; each pair is a byte. */
  function Parsed(phrase: string): (r: Result<seq<Byte>, CryptoError>) {
    var hex := Without(phrase, IsWhiteSpace);
    if |hex| == 64 && AllHex(hex) then
      Ok(seq(32, k requires 0 <= k < 32 => (PairIsByte(hex, k); ByteOf(hex, k).value)))
    else Err(InvalidRecoveryPhrase)
  }

  method PhraseToEntropy(phrase: string) returns (r: Result<seq<Byte>, CryptoError>)
    ensures r == Parsed(phrase)
  {
    var hex := Without(phrase, IsWhiteSpace);
    if |hex| != 64 || !AllHex(hex) {
      return Err(InvalidRecoveryPhrase);
    }
    var entropy := new Byte[32](_ => 0);
    for i := 0 to 32
      invariant forall k :: 0 <= k < i ==> ByteOf(hex, k) == Some(entropy[k])
    {
      PairIsByte(hex, i);
      entropy[i] := ByteOf(hex, i).value;
    }
    assert entropy[..] == Parsed(phrase).value;
    r := Ok(entropy[..]);
  }

  /** A phrase denotes an entropy exactly when its characters, without white space and in lowercase, are its digits. */
  lemma PhraseDenotes(phrase: string, entropy: seq<Byte>)
    requires |entropy| == 32
    ensures Parsed(phrase) == Ok(entropy) <==> Lower(Without(phrase, IsWhiteSpace)) == Hex(entropy)
  {
    var hex := Without(phrase, IsWhiteSpace);
    if |hex| == 64 {
      BytesAreHex(hex, entropy);
      if Lower(hex) == Hex(entropy) {
        forall i | 0 <= i < |hex| ensures DigitOf(hex[i], 16).Some? {
          var b := entropy[i / 2];
          assert Lower(hex)[i] == Hex(entropy)[i];
          HexDigits(hex[i], if i % 2 == 0 then b / 16 else b % 16);
        }
        assert Parsed(phrase).Ok? && Parsed(phrase).value == entropy;
      }
    } else {
      assert |Lower(hex)| != |Hex(entropy)|;
    }
  }

  // ----- the printed phrase -----

  lemma {:induction false} GroupedDrops(s: string)
    requires forall i :: 0 <= i < |s| ==> !IsWhiteSpace(s[i])
    ensures Without(Grouped(s), IsWhiteSpace) == s
  {
    if |s| <= 8 {
      WithoutNone(s, IsWhiteSpace);
    } else {
      GroupedDrops(s[8..]);
      var rest := Grouped(s[8..]);
      assert Grouped(s) == s[..8] + (" " + rest);
      WithoutConcat(s[..8], " " + rest, IsWhiteSpace);
      WithoutNone(s[..8], IsWhiteSpace);
      assert (" " + rest)[1..] == rest;
      assert s == s[..8] + s[8..];
    }
  }

  /** Eight groups of eight: a space at every ninth place and the digits in between. */
  lemma {:induction false} GroupsOfEight(s: string, n: nat)
    requires |s| == 8 * n && n > 0
    ensures |Grouped(s)| == 9 * n - 1
    ensures forall i :: 0 <= i < 9 * n - 1 ==> Grouped(s)[i] == if i % 9 == 8 then ' ' else s[i / 9 * 8 + i % 9]
  {
    if n > 1 {
      var rest := Grouped(s[8..]);
      GroupsOfEight(s[8..], n - 1);
      forall i | 0 <= i < 9 * n - 1
        ensures Grouped(s)[i] == if i % 9 == 8 then ' ' else s[i / 9 * 8 + i % 9]
      {
        if i >= 9 {
          var j := i - 9;
          assert Grouped(s)[i] == rest[j];
          assert j / 9 == i / 9 - 1 && j % 9 == i % 9;
        }
      }
    }
  }

  lemma PrintedPhrase(entropy: seq<Byte>)
    requires |entropy| == 32
    ensures Parsed(EntropyToPhrase(entropy)) == Ok(entropy)
    ensures var p, hex := EntropyToPhrase(entropy), Hex(entropy);
            |p| == 71 && forall i :: 0 <= i < 71 ==> p[i] == if i % 9 == 8 then ' ' else hex[i / 9 * 8 + i % 9]
  {
    var hex := Hex(entropy);
    forall i | 0 <= i < |hex| ensures !IsWhiteSpace(hex[i]) && LowerChar(hex[i]) == hex[i] {
      var d := if i % 2 == 0 then entropy[i / 2] / 16 else entropy[i / 2] % 16;
      HexDigits(hex[i], d);
    }
    assert Lower(hex) == hex;
    GroupedDrops(hex);
    PhraseDenotes(Grouped(hex), entropy);
    GroupsOfEight(hex, 8);
  }

  // ----- wrapping a user key -----

  type Expand = seq<Byte> -> seq<Byte>

  ghost predicate Gives64(hkdf: Expand) {
    forall prk: seq<Byte> :: |hkdf(prk)| == 64
  }

  function UserKeyFromBytes(raw: seq<Byte>): (r: Result<seq<Byte>, CryptoError>) {
    if |raw| != 64 then Err(InvalidKeyLength) else Ok(raw)
  }

  /** A 64-byte key encrypted under the key expanded from a secret: the entropy, or the master key. */
  function Wrap(c: Cipher, hkdf: Expand, secret: seq<Byte>, iv: seq<Byte>, userKey: seq<Byte>): (r: Result<EncString, CryptoError>) {
    var sym := KeyFromBytes(hkdf(secret));
    if sym.Err? then Err(sym.error) else Ok(Encrypt(c, sym.value, iv, userKey))
  }

  function Unwrap(c: Cipher, hkdf: Expand, secret: seq<Byte>, e: EncString): (r: Result<seq<Byte>, CryptoError>) {
    var sym := KeyFromBytes(hkdf(secret));
    if sym.Err? then Err(sym.error)
    else
      var raw := Decrypt(c, sym.value, e);
      if raw.Err? then raw else UserKeyFromBytes(raw.value)
  }

  function UnwrapWithPhrase(c: Cipher, hkdf: Expand, phrase: string, e: EncString): (r: Result<seq<Byte>, CryptoError>) {
    var entropy := Parsed(phrase);
    if entropy.Err? then Err(entropy.error) else Unwrap(c, hkdf, entropy.value, e)
  }

  /** What the master key or the entropy wrapped, the same secret unwraps. */
  lemma WrapUnwrap(c: Cipher, hkdf: Expand, secret: seq<Byte>, iv: seq<Byte>, userKey: seq<Byte>)
    requires Lawful(c) && Gives64(hkdf) && |userKey| == 64
    ensures var w := Wrap(c, hkdf, secret, iv, userKey);
            w.Ok? && Unwrap(c, hkdf, secret, w.value) == Ok(userKey)
  {
  }

  /** Unwrapping fails exactly for a wrong phrase, a MAC that does not match, a ciphertext that does not decrypt or a key of another length. */
  lemma WhyUnwrapFails(c: Cipher, hkdf: Expand, phrase: string, e: EncString, entropy: seq<Byte>)
    requires Gives64(hkdf) && |entropy| == 32 && Lower(Without(phrase, IsWhiteSpace)) == Hex(entropy)
    ensures var r := UnwrapWithPhrase(c, hkdf, phrase, e);
            var raw := hkdf(entropy);
            var plain := c.decrypt(raw[..32], e.iv, e.ct);
            && (r == Err(MacMismatch) <==> c.mac(raw[32..], e.iv + e.ct) != e.mac)
            && (r == Err(Decryption) <==> c.mac(raw[32..], e.iv + e.ct) == e.mac && plain == None)
            && (r == Err(InvalidKeyLength) <==> c.mac(raw[32..], e.iv + e.ct) == e.mac && plain.Some? && |plain.value| != 64)
            && (r.Ok? ==> Some(r.value) == plain)
  {
    hide Parsed, Without, Hex;
    PhraseDenotes(phrase, entropy);
  }

  lemma WrongPhrase(c: Cipher, hkdf: Expand, phrase: string, e: EncString)
    requires forall entropy: seq<Byte> :: |entropy| == 32 ==> Lower(Without(phrase, IsWhiteSpace)) != Hex(entropy)
    ensures UnwrapWithPhrase(c, hkdf, phrase, e) == Err(InvalidRecoveryPhrase)
  {
    if Parsed(phrase).Ok? {
      PhraseDenotes(phrase, Parsed(phrase).value);
    }
  }

  /** Any phrase showing the entropy's digits, with any white space and letter case, recovers the user key from storage. */
  lemma RecoveryRoundTrip(c: Cipher, hkdf: Expand, entropy: seq<Byte>, iv: seq<Byte>, userKey: seq<Byte>, phrase: string)
    requires Lawful(c) && Gives64(hkdf) && |entropy| == 32 && |iv| == 16 && |userKey| == 64
    requires Lower(Without(phrase, IsWhiteSpace)) == Hex(entropy)
    ensures var w := Wrap(c, hkdf, entropy, iv, userKey);
            && w.Ok? && ParseRust(Print(w.value)).Ok?
            && UnwrapWithPhrase(c, hkdf, phrase, ParseRust(Print(w.value)).value) == Ok(userKey)
  {
    hide Parsed, Without, Hex, Print, ParseRust;
    PhraseDenotes(phrase, entropy);
    WrapUnwrap(c, hkdf, entropy, iv, userKey);
    PrintParse(Wrap(c, hkdf, entropy, iv, userKey).value);
  }
}
