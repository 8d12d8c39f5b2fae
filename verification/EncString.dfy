/**
 The encrypted field format `2.{iv}|{ct}|{mac}` of crates/crypto-core/src/enc_string.rs and
 clients/extension/src/lib/vault-crypto.ts: one printer, two parsers, encrypt-then-MAC.
 AES-256-CBC and HMAC-SHA256 are parameters with their one inverse law.
 */
module EncString {
  import opened Wrappers
  import opened Bytes
  import opened Base64
  import opened Strings
  import Utf8

  datatype CryptoError =
    | MissingType | InvalidType | UnsupportedType | ExpectedThreeParts | BadBase64 | IvLength | MacLength
    | MacMismatch | Decryption | InvalidKeyLength | InvalidRecoveryPhrase

  datatype EncString = EncString(iv: seq<Byte>, ct: seq<Byte>, mac: seq<Byte>)

  predicate WellFormed(e: EncString) {
    |e.iv| == 16 && |e.mac| == 32
  }

  function Print(e: EncString): (r: string) {
    "2" + ['.'] + (Encode(e.iv) + ['|'] + (Encode(e.ct) + ['|'] + Encode(e.mac)))
  }

  // ----- splitting -----

  lemma FindSeparator(a: string, c: char, b: string)
    requires c !in a
    ensures Find(a + [c] + b, c) == |a|
    ensures (a + [c] + b)[..|a|] == a && (a + [c] + b)[|a| + 1..] == b
  {
    hide Find;
    var s := a + [c] + b;
    assert s[..|a|] == a && s[|a|] == c;
    assert forall k :: 0 <= k < |a| ==> s[k] == a[k];
    FirstIsFind(s, c, |a|);
  }

  lemma FirstIsFind(s: string, c: char, k: nat)
    requires k < |s| && s[k] == c && forall i :: 0 <= i < k ==> s[i] != c
    ensures Find(s, c) == k
  {
  }

  /** Rust: `splitn(3, '|')`, the third part taking whatever follows. */
  function SplitN(s: string): (r: Option<(string, string, string)>) {
    var i := Find(s, '|');
    if i == |s| then None
    else
      var rest := s[i + 1..];
      var j := Find(rest, '|');
      if j == |rest| then None else Some((s[..i], rest[..j], rest[j + 1..]))
  }

  /** TypeScript: `split("|")` must give exactly three parts. */
  function SplitExactly(s: string): (r: Option<(string, string, string)>) {
    var parts := SplitN(s);
    if parts.None? || '|' in parts.value.2 then None else parts
  }

  // ----- the type prefix -----

  function DigitOf(c: char, radix: nat): (d: Option<nat>)
    ensures d.Some? ==> d.value < radix
  {
    var v :=
      if '0' <= c <= '9' then (c - '0') as int
      else if 'a' <= c <= 'f' then (c - 'a') as int + 10
      else if 'A' <= c <= 'F' then (c - 'A') as int + 10
      else 36;
    if v < radix && v < 36 then Some(v) else None
  }

  predicate AllDigits(s: string, radix: nat) {
    forall i :: 0 <= i < |s| ==> DigitOf(s[i], radix).Some?
  }

  function Number(s: string, radix: nat): (r: nat)
    requires AllDigits(s, radix)
  {
    if s == "" then 0 else Number(s[..|s| - 1], radix) * radix + DigitOf(s[|s| - 1], radix).value
  }

  /** The longest prefix of digits. */
  function DigitPrefix(s: string, radix: nat): (p: string)
    ensures AllDigits(p, radix)
    ensures AllDigits(s, radix) ==> p == s
  {
    if s == "" || DigitOf(s[0], radix).None? then ""
    else
      assert AllDigits(s, radix) ==> AllDigits(s[1..], radix);
      [s[0]] + DigitPrefix(s[1..], radix)
  }

  /** Rust: `str::parse::<u8>`. */
  function ParseU8(s: string): (r: Option<nat>) {
    var ds := if |s| > 1 && s[0] == '+' then s[1..] else s;
    if ds != "" && AllDigits(ds, 10) && Number(ds, 10) < 256 then Some(Number(ds, 10)) else None
  }

  /** The number at the front of a text, in hexadecimal after 0x. */
  function ParseMagnitude(u: string): (r: Option<nat>) {
    var hex := |u| > 1 && u[0] == '0' && (u[1] == 'x' || u[1] == 'X');
    var digits := if hex then DigitPrefix(u[2..], 16) else DigitPrefix(u, 10);
    if digits == "" then None else Some(Number(digits, if hex then 16 else 10))
  }

  /** JavaScript: `parseInt`, None for NaN. */
  function ParseInt(s: string): (r: Option<int>) {
    var t := TrimStart(s);
    var n := ParseMagnitude(if t != "" && (t[0] == '-' || t[0] == '+') then t[1..] else t);
    if n.None? then None
    else
      var v: int := n.value;
      Some(if t != "" && t[0] == '-' then -v else v)
  }

  /** Every type text Rust reads as a number is the same number to parseInt. */
  lemma ParseIntExtendsU8(s: string)
    requires ParseU8(s).Some?
    ensures ParseInt(s) == Some(ParseU8(s).value)
  {
    var ds := if |s| > 1 && s[0] == '+' then s[1..] else s;
    assert DigitOf(ds[0], 10).Some?;
    assert !IsSpace(s[0]);
    if |ds| > 1 {
      assert DigitOf(ds[1], 10).Some?;
    }
  }

  lemma {:induction false} DigitPrefixStops(ds: string, rest: string, radix: nat)
    requires AllDigits(ds, radix) && (rest == "" || DigitOf(rest[0], radix).None?)
    ensures DigitPrefix(ds + rest, radix) == ds
  {
    if ds == "" {
      assert ds + rest == rest;
    } else {
      assert DigitOf(ds[0], radix).Some? && (ds + rest)[1..] == ds[1..] + rest;
      DigitPrefixStops(ds[1..], rest, radix);
    }
  }

  lemma {:induction false} TrimStartPeels(a: string, s: string)
    requires AllSpaces(a) && (s == "" || !IsSpace(s[0]))
    ensures TrimStart(a + s) == s
  {
    hide IsSpace;
    if a == "" {
      assert a + s == s;
    } else {
      assert (a + s)[1..] == a[1..] + s;
      TrimStartPeels(a[1..], s);
    }
  }

  lemma MagnitudeReads(ds: string, rest: string)
    requires ds != "" && AllDigits(ds, 10) && (rest == "" || DigitOf(rest[0], 10).None?)
    requires ds == "0" ==> rest == "" || (rest[0] != 'x' && rest[0] != 'X')
    ensures ParseMagnitude(ds + rest) == Some(Number(ds, 10))
  {
    hide Number;
    var u := ds + rest;
    assert u[0] == ds[0];
    DigitPrefixStops(ds, rest, 10);
    if |u| > 1 {
      assert |ds| > 1 ==> u[1] == ds[1] && DigitOf(ds[1], 10).Some?;
      assert |ds| == 1 ==> u[1] == rest[0] && (ds[0] == '0' ==> ds == "0");
    }
  }

  /** parseInt skips white space, takes a sign, reads decimal digits and ignores what follows them. */
  lemma ParseIntReadsDecimal(a: string, ds: string, rest: string)
    requires AllSpaces(a) && ds != "" && AllDigits(ds, 10) && (rest == "" || DigitOf(rest[0], 10).None?)
    requires ds == "0" ==> rest == "" || (rest[0] != 'x' && rest[0] != 'X')
    ensures ParseInt(a + (ds + rest)) == Some(Number(ds, 10))
    ensures ParseInt(a + (['-'] + (ds + rest))) == Some(-(Number(ds, 10) as int))
  {
    var u := ds + rest;
    assert DigitOf(ds[0], 10).Some? && u[0] == ds[0];
    MagnitudeReads(ds, rest);
    hide ParseMagnitude, ParseInt, Number;
    SignedReads(a, u, ds);
  }

  lemma SignedReads(a: string, u: string, ds: string)
    requires AllSpaces(a) && u != "" && DigitOf(u[0], 10).Some? && AllDigits(ds, 10)
    ensures ParseMagnitude(u) == Some(Number(ds, 10)) ==>
              && ParseInt(a + u) == Some(Number(ds, 10))
              && ParseInt(a + (['-'] + u)) == Some(-(Number(ds, 10) as int))
  {
    assert u[0] != '-' && u[0] != '+';
    NoSpaceInNumbers(u[0]);
    NoSpaceInNumbers('-');
    hide Number, IsSpace, TrimStart, ParseMagnitude, DigitOf, AllDigits;
    TrimStartPeels(a, u);
    TrimStartPeels(a, ['-'] + u);
    assert (['-'] + u)[1..] == u;
  }

  lemma NoSpaceInNumbers(c: char)
    requires DigitOf(c, 10).Some? || c == '-' || c == '0'
    ensures !IsSpace(c)
  {
  }

  /** After 0x it reads hexadecimal digits. */
  lemma ParseIntReadsHex(ds: string, rest: string)
    requires ds != "" && AllDigits(ds, 16) && (rest == "" || DigitOf(rest[0], 16).None?)
    ensures ParseInt(['0', 'x'] + (ds + rest)) == Some(Number(ds, 16))
  {
    hide Number, IsSpace;
    var s := ['0', 'x'] + (ds + rest);
    NoSpaceInNumbers('0');
    DigitPrefixStops(ds, rest, 16);
    assert s[2..] == ds + rest;
  }

  /** Rust reads decimal digits below 256, with or without a plus sign, and nothing else. */
  lemma U8Reads(ds: string, s: string)
    requires ds != "" && AllDigits(ds, 10)
    ensures ParseU8(ds) == ParseU8(['+'] + ds) == if Number(ds, 10) <= 255 then Some(Number(ds, 10)) else None
    ensures ParseU8(s).Some? ==> s != "" && (AllDigits(s, 10) || (s[0] == '+' && |s| > 1 && AllDigits(s[1..], 10)))
  {
    hide Number;
    assert DigitOf(ds[0], 10).Some? && ds[0] != '+';
    assert (['+'] + ds)[1..] == ds;
  }

  // ----- the two parsers -----

  function Assemble(iv: Option<seq<Byte>>, ct: Option<seq<Byte>>, mac: Option<seq<Byte>>): (r: Result<EncString, CryptoError>)
    ensures r.Ok? ==> WellFormed(r.value)
  {
    if iv.None? || ct.None? || mac.None? then Err(BadBase64)
    else if |iv.value| != 16 then Err(IvLength)
    else if |mac.value| != 32 then Err(MacLength)
    else Ok(EncString(iv.value, ct.value, mac.value))
  }

  function ParseRust(s: string): (r: Result<EncString, CryptoError>)
    ensures r.Ok? ==> WellFormed(r.value)
  {
    var dot := Find(s, '.');
    if dot == |s| then Err(MissingType)
    else
      var encType := ParseU8(s[..dot]);
      if encType.None? then Err(InvalidType)
      else if encType.value != 2 then Err(UnsupportedType)
      else
        var parts := SplitN(s[dot + 1..]);
        if parts.None? then Err(ExpectedThreeParts)
        else Assemble(DecodeStrict(parts.value.0), DecodeStrict(parts.value.1), DecodeStrict(parts.value.2))
  }

  function ParseTs(s: string): (r: Result<EncString, CryptoError>)
    ensures r.Ok? ==> WellFormed(r.value)
  {
    var dot := Find(s, '.');
    if dot == |s| then Err(MissingType)
    else if ParseInt(s[..dot]) != Some(2) then Err(UnsupportedType)
    else
      var parts := SplitExactly(s[dot + 1..]);
      if parts.None? then Err(ExpectedThreeParts)
      else Assemble(DecodeForgiving(parts.value.0), DecodeForgiving(parts.value.1), DecodeForgiving(parts.value.2))
  }

  lemma NoBarInEncoding(s: seq<Byte>)
    ensures '|' !in Encode(s)
  {
  }

  lemma PrintSplits(e: EncString)
    ensures |Print(e)| > 2 && Find(Print(e), '.') == 1 && Print(e)[..1] == "2"
    ensures SplitN(Print(e)[2..]) == Some((Encode(e.iv), Encode(e.ct), Encode(e.mac)))
    ensures SplitExactly(Print(e)[2..]) == SplitN(Print(e)[2..])
  {
    hide Encode;
    NoBarInEncoding(e.iv);
    NoBarInEncoding(e.ct);
    NoBarInEncoding(e.mac);
    var tail := Encode(e.ct) + ['|'] + Encode(e.mac);
    FindSeparator("2", '.', Encode(e.iv) + ['|'] + tail);
    FindSeparator(Encode(e.iv), '|', tail);
    FindSeparator(Encode(e.ct), '|', Encode(e.mac));
  }

  lemma TypeTwo()
    ensures ParseU8("2") == Some(2) && ParseInt("2") == Some(2)
  {
  }

  /** Each parser recovers exactly the fields that were printed. */
  lemma PrintParse(e: EncString)
    requires WellFormed(e)
    ensures ParseRust(Print(e)) == Ok(e) && ParseTs(Print(e)) == Ok(e)
  {
    hide Print, Encode, DecodeStrict, DecodeForgiving, SplitN, SplitExactly, ParseU8, ParseInt;
    PrintSplits(e);
    TypeTwo();
    StrictReadsBack(e.iv);
    StrictReadsBack(e.ct);
    StrictReadsBack(e.mac);
    ForgivingReadsBack(e.iv);
    ForgivingReadsBack(e.ct);
    ForgivingReadsBack(e.mac);
  }

  /** Every text the Rust parser accepts, the TypeScript parser accepts with the same fields. */
  lemma TsExtendsRust(s: string)
    ensures ParseRust(s).Ok? ==> ParseTs(s) == ParseRust(s)
  {
    hide DecodeStrict, DecodeForgiving, ParseU8, ParseInt, Find;
    if ParseRust(s).Ok? {
      var dot := Find(s, '.');
      ParseIntExtendsU8(s[..dot]);
      var parts := SplitN(s[dot + 1..]).value;
      StrictIsEncoding(parts.2);
      NoBarInEncoding(DecodeStrict(parts.2).value);
      ForgivingExtendsStrict(parts.0);
      ForgivingExtendsStrict(parts.1);
      ForgivingExtendsStrict(parts.2);
    }
  }

  /** The text is the encoding of what it decodes to: no white space, full padding, zero spare bits. */
  predicate Canonical(t: string) {
    DecodeForgiving(t).Some? && t == Encode(DecodeForgiving(t).value)
  }

  lemma StrictIffCanonical(t: string)
    ensures DecodeStrict(t).Some? <==> Canonical(t)
  {
    hide DecodeStrict, DecodeForgiving, Encode;
    ForgivingExtendsStrict(t);
    if DecodeStrict(t).Some? {
      StrictIsEncoding(t);
    }
    if Canonical(t) {
      StrictReadsBack(DecodeForgiving(t).value);
    }
  }

  /** The type is written as Rust writes numbers, and the three parts are canonical. */
  predicate StrictlyWritten(s: string) {
    var dot := Find(s, '.');
    && dot < |s| && ParseU8(s[..dot]).Some?
    && var parts := SplitExactly(s[dot + 1..]);
       parts.Some? && Canonical(parts.value.0) && Canonical(parts.value.1) && Canonical(parts.value.2)
  }

  /** Rust accepts exactly the texts that TypeScript accepts and that are strictly written, with the same fields. */
  lemma RustAcceptsIff(s: string)
    ensures ParseRust(s).Ok? <==> ParseTs(s).Ok? && StrictlyWritten(s)
    ensures ParseRust(s).Ok? ==> ParseTs(s) == ParseRust(s)
  {
    hide DecodeStrict, DecodeForgiving, Canonical, Encode, ParseU8, ParseInt, Find, SplitN;
    TsExtendsRust(s);
    var dot := Find(s, '.');
    if dot < |s| {
      var parts := SplitN(s[dot + 1..]);
      if ParseU8(s[..dot]).Some? {
        ParseIntExtendsU8(s[..dot]);
      }
      if parts.Some? {
        StrictPart(parts.value.0);
        StrictPart(parts.value.1);
        StrictPart(parts.value.2);
      }
    }
  }

  lemma StrictPart(t: string)
    ensures DecodeStrict(t).Some? <==> Canonical(t)
    ensures DecodeStrict(t).Some? ==> DecodeForgiving(t) == DecodeStrict(t) && '|' !in t
  {
    hide DecodeStrict, DecodeForgiving, Canonical, Encode;
    StrictIffCanonical(t);
    ForgivingExtendsStrict(t);
    if DecodeStrict(t).Some? {
      StrictIsEncoding(t);
      NoBarInEncoding(DecodeStrict(t).value);
    }
  }

  /** For every value there are texts only TypeScript accepts: a type with a trailing letter is 2 to parseInt. */
  lemma TsAcceptsMore(e: EncString)
    requires WellFormed(e)
    ensures var text := "2x" + ['.'] + Print(e)[2..];
            ParseTs(text) == Ok(e) && ParseRust(text) == Err(InvalidType)
  {
    PrintParse(e);
    PrintSplits(e);
    hide Print, Encode, DecodeForgiving, DecodeStrict, SplitN, SplitExactly, Find, ParseInt, ParseU8;
    FindSeparator("2x", '.', Print(e)[2..]);
    TypeTwo();
    TypeTwoX();
  }

  lemma TypeTwoX()
    ensures ParseInt("2x") == Some(2) && ParseU8("2x").None?
  {
    TypeTwo();
    hide Number;
    assert DigitOf('x', 10).None? && "2x"[1] == 'x';
    assert "2x"[1..] == "x" && "2"[1..] == "";
    assert DigitPrefix("x", 10) == "";
    assert DigitPrefix("2x", 10) == "2" == DigitPrefix("2", 10);
    assert TrimStart("2x") == "2x" && TrimStart("2") == "2";
  }

  lemma PrintIs(iv: seq<Byte>, ct: seq<Byte>, mac: seq<Byte>)
    ensures Print(EncString(iv, ct, mac)) == "2." + Encode(iv) + "|" + Encode(ct) + "|" + Encode(mac)
  {
    hide Encode;
  }

  /** Three encodings behind a 2 and a dot are the fields, in the order iv, ciphertext, MAC, when their lengths are right. */
  lemma FieldsInOrder(iv: seq<Byte>, ct: seq<Byte>, mac: seq<Byte>)
    ensures var text := "2." + Encode(iv) + "|" + Encode(ct) + "|" + Encode(mac);
            && text == Print(EncString(iv, ct, mac))
            && ParseRust(text) == ParseTs(text)
            && (|iv| == 16 && |mac| == 32 ==> ParseRust(text) == Ok(EncString(iv, ct, mac)))
            && (|iv| != 16 ==> ParseRust(text) == Err(IvLength))
            && (|iv| == 16 && |mac| != 32 ==> ParseRust(text) == Err(MacLength))
  {
    hide Print, Encode, DecodeStrict, DecodeForgiving, SplitN, SplitExactly, ParseU8, ParseInt, Find;
    PrintIs(iv, ct, mac);
    PrintSplits(EncString(iv, ct, mac));
    TypeTwo();
    StrictReadsBack(iv);
    StrictReadsBack(ct);
    StrictReadsBack(mac);
    ForgivingReadsBack(iv);
    ForgivingReadsBack(ct);
    ForgivingReadsBack(mac);
  }

  /** How many bars a text holds. */
  ghost function Bars(s: string): (n: nat)
    ensures n > 0 <==> '|' in s
  {
    if s == "" then 0
    else
      assert s == [s[0]] + s[1..];
      (if s[0] == '|' then 1 else 0) + Bars(s[1..])
  }

  lemma {:induction false} BarsAround(s: string)
    ensures var i := Find(s, '|');
            if i == |s| then Bars(s) == 0 else Bars(s) == 1 + Bars(s[i + 1..])
  {
    if s != "" && s[0] != '|' {
      BarsAround(s[1..]);
      var i := Find(s[1..], '|');
      assert i < |s| - 1 ==> s[1..][i + 1..] == s[i + 2..];
    }
  }

  /** Why Rust refuses a text before it decodes a part: the last part may hold further bars. */
  lemma WhyRustRefuses(s: string)
    ensures ParseRust(s) == Err(MissingType) <==> '.' !in s
    ensures '.' in s ==>
              var kind, rest := s[..Find(s, '.')], s[Find(s, '.') + 1..];
              && (ParseRust(s) == Err(InvalidType) <==> ParseU8(kind) == None)
              && (ParseRust(s) == Err(UnsupportedType) <==> ParseU8(kind) != None && ParseU8(kind) != Some(2))
              && (ParseRust(s) == Err(ExpectedThreeParts) <==> ParseU8(kind) == Some(2) && Bars(rest) < 2)
  {
    hide DecodeStrict, ParseU8, Find, SplitN, SplitExactly, Bars;
    if '.' in s {
      PartsByBars(s[Find(s, '.') + 1..]);
    }
  }

  /** Why TypeScript does: the bars must be exactly two. */
  lemma WhyTsRefuses(s: string)
    ensures ParseTs(s) == Err(MissingType) <==> '.' !in s
    ensures '.' in s ==>
              var kind, rest := s[..Find(s, '.')], s[Find(s, '.') + 1..];
              && (ParseTs(s) == Err(UnsupportedType) <==> ParseInt(kind) != Some(2))
              && (ParseTs(s) == Err(ExpectedThreeParts) <==> ParseInt(kind) == Some(2) && Bars(rest) != 2)
  {
    hide DecodeForgiving, ParseInt, Find, SplitN, SplitExactly, Bars;
    if '.' in s {
      PartsByBars(s[Find(s, '.') + 1..]);
    }
  }

  lemma PartsByBars(s: string)
    ensures SplitN(s).Some? <==> Bars(s) >= 2
    ensures SplitExactly(s).Some? <==> Bars(s) == 2
  {
    hide Find;
    BarsAround(s);
    var i := Find(s, '|');
    if i < |s| {
      var rest := s[i + 1..];
      BarsAround(rest);
      if Find(rest, '|') < |rest| {
        assert SplitN(s).value.2 == rest[Find(rest, '|') + 1..];
      }
    }
  }

  /** Parsing, printing and parsing again changes nothing, for either parser. */
  lemma ParsePrintParse(s: string)
    ensures ParseRust(s).Ok? ==> ParseRust(Print(ParseRust(s).value)) == ParseRust(s)
    ensures ParseTs(s).Ok? ==> ParseTs(Print(ParseTs(s).value)) == ParseTs(s)
  {
    hide Print, ParseRust, ParseTs;
    if ParseRust(s).Ok? {
      PrintParse(ParseRust(s).value);
    }
    if ParseTs(s).Ok? {
      PrintParse(ParseTs(s).value);
    }
  }

  // ----- encrypt-then-MAC -----

  datatype Cipher = Cipher(
    encrypt: (seq<Byte>, seq<Byte>, seq<Byte>) -> seq<Byte>,
    decrypt: (seq<Byte>, seq<Byte>, seq<Byte>) -> Option<seq<Byte>>,
    mac: (seq<Byte>, seq<Byte>) -> seq<Byte>)

  ghost predicate Lawful(c: Cipher) {
    && (forall key: seq<Byte>, iv: seq<Byte>, p: seq<Byte> ::
          c.decrypt(key, iv, c.encrypt(key, iv, p)) == Some(p))
    && (forall key: seq<Byte>, message: seq<Byte> :: |c.mac(key, message)| == 32)
  }

  datatype SymmetricKey = SymmetricKey(encKey: seq<Byte>, macKey: seq<Byte>)

  function KeyFromBytes(bytes: seq<Byte>): (r: Result<SymmetricKey, CryptoError>) {
    if |bytes| != 64 then Err(InvalidKeyLength) else Ok(SymmetricKey(bytes[..32], bytes[32..]))
  }

  /** The first 32 bytes encrypt, the last 32 authenticate; any other length is refused. */
  lemma KeyHalves(enc: seq<Byte>, mac: seq<Byte>, bytes: seq<Byte>)
    ensures |enc| == 32 && |mac| == 32 ==> KeyFromBytes(enc + mac) == Ok(SymmetricKey(enc, mac))
    ensures KeyFromBytes(bytes) == Err(InvalidKeyLength) <==> |bytes| != 64
    ensures KeyFromBytes(bytes).Err? <==> |bytes| != 64
  {
    assert |enc| == 32 ==> (enc + mac)[..32] == enc && (enc + mac)[32..] == mac;
  }

  function Encrypt(c: Cipher, key: SymmetricKey, iv: seq<Byte>, plaintext: seq<Byte>): (r: EncString) {
    var ct := c.encrypt(key.encKey, iv, plaintext);
    EncString(iv, ct, c.mac(key.macKey, iv + ct))
  }

  function Decrypt(c: Cipher, key: SymmetricKey, e: EncString): (r: Result<seq<Byte>, CryptoError>) {
    if c.mac(key.macKey, e.iv + e.ct) != e.mac then Err(MacMismatch)
    else
      var p := c.decrypt(key.encKey, e.iv, e.ct);
      if p.None? then Err(Decryption) else Ok(p.value)
  }

  /** The comparison that folds the differences of all bytes before it answers. */
  method ConstantTimeEqual(a: seq<Byte>, b: seq<Byte>) returns (r: bool)
    ensures r <==> a == b
  {
    if |a| != |b| {
      return false;
    }
    var diff := 0;
    for i := 0 to |a|
      invariant diff >= 0 && (diff == 0 <==> a[..i] == b[..i])
    {
      OrXorVanishes(diff, a[i], b[i]);
      diff := BitOr(diff, BitXor(a[i], b[i]));
      assert a[..i + 1] == a[..i] + [a[i]] && b[..i + 1] == b[..i] + [b[i]];
    }
    assert a[..|a|] == a && b[..|b|] == b;
    r := diff == 0;
  }

  function BitXor(a: nat, b: nat): (r: nat) {
    if a == 0 && b == 0 then 0 else 2 * BitXor(a / 2, b / 2) + (a % 2 + b % 2) % 2
  }

  function BitOr(a: nat, b: nat): (r: nat) {
    if a == 0 && b == 0 then 0 else 2 * BitOr(a / 2, b / 2) + if a % 2 + b % 2 > 0 then 1 else 0
  }

  lemma {:induction false} XorVanishes(a: nat, b: nat)
    ensures BitXor(a, b) == 0 <==> a == b
  {
    if a != 0 || b != 0 {
      XorVanishes(a / 2, b / 2);
    }
  }

  lemma {:induction false} XorUndoes(a: nat, b: nat)
    ensures BitXor(BitXor(a, b), b) == a
  {
    if a != 0 || b != 0 {
      XorUndoes(a / 2, b / 2);
      XorUndoesStep(a / 2, a % 2, b / 2, b % 2);
    }
  }

  lemma XorUndoesStep(a: nat, x: nat, b: nat, y: nat)
    requires x < 2 && y < 2 && BitXor(BitXor(a, b), b) == a
    ensures BitXor(BitXor(2 * a + x, 2 * b + y), 2 * b + y) == 2 * a + x
  {
    hide BitXor;
    Halves(b, y);
    XorLast(a, x, 2 * b + y);
    XorLast(BitXor(a, b), (x + y) % 2, 2 * b + y);
    BitsUndo(x, y);
  }

  lemma Halves(b: nat, y: nat)
    requires y < 2
    ensures (2 * b + y) / 2 == b && (2 * b + y) % 2 == y
  {
  }

  lemma BitsUndo(x: nat, y: nat)
    requires x < 2 && y < 2
    ensures ((x + y) % 2 + y) % 2 == x
  {
  }

  lemma XorLast(high: nat, bit: nat, b: nat)
    requires bit < 2
    ensures BitXor(2 * high + bit, b) == 2 * BitXor(high, b / 2) + (bit + b % 2) % 2
  {
    var a := 2 * high + bit;
    assert a / 2 == high && a % 2 == bit;
  }

  lemma {:induction false} OrAbsorbs(a: nat, b: nat)
    ensures BitOr(a, b) >= a && BitOr(a, b) >= b && BitOr(a, a) == a
  {
    if a != 0 || b != 0 {
      OrAbsorbs(a / 2, b / 2);
    }
  }

  lemma {:induction false} OrVanishes(a: nat, b: nat)
    ensures BitOr(a, b) == 0 <==> a == 0 && b == 0
  {
    if a != 0 || b != 0 {
      OrVanishes(a / 2, b / 2);
    }
  }

  lemma OrXorVanishes(diff: nat, a: nat, b: nat)
    ensures BitOr(diff, BitXor(a, b)) == 0 <==> diff == 0 && a == b
  {
    XorVanishes(a, b);
    OrVanishes(diff, BitXor(a, b));
  }

  method DecryptChecked(c: Cipher, key: SymmetricKey, e: EncString) returns (r: Result<seq<Byte>, CryptoError>)
    ensures r == Decrypt(c, key, e)
    ensures r == Err(MacMismatch) <==> c.mac(key.macKey, e.iv + e.ct) != e.mac
    ensures r.Ok? <==> c.mac(key.macKey, e.iv + e.ct) == e.mac && c.decrypt(key.encKey, e.iv, e.ct).Some?
    ensures r.Ok? ==> Some(r.value) == c.decrypt(key.encKey, e.iv, e.ct)
  {
    var same := ConstantTimeEqual(c.mac(key.macKey, e.iv + e.ct), e.mac);
    if !same {
      return Err(MacMismatch);
    }
    var p := c.decrypt(key.encKey, e.iv, e.ct);
    r := if p.None? then Err(Decryption) else Ok(p.value);
  }

  // ----- text fields -----

  function EncryptField(c: Cipher, key: SymmetricKey, iv: seq<Byte>, value: string): (text: string) {
    Print(Encrypt(c, key, iv, Utf8.Encode(value)))
  }

  /** An absent or empty field is null. */
  function DecryptField(c: Cipher, key: SymmetricKey, text: Option<string>): (r: Result<Option<string>, CryptoError>) {
    if text.None? || text.value == "" then Ok(None)
    else
      var e := ParseTs(text.value);
      if e.Err? then Err(e.error)
      else
        var bytes := Decrypt(c, key, e.value);
        if bytes.Err? then Err(bytes.error) else Ok(Some(Utf8.DecodeText(bytes.value)))
  }

  /** Only an absent or empty field is null; any other is refused if it does not parse or does not decrypt, and else a text. */
  lemma FieldIsNull(c: Cipher, key: SymmetricKey, text: string)
    ensures DecryptField(c, key, None) == DecryptField(c, key, Some("")) == Ok(None)
    ensures text != "" ==>
              var r, parsed := DecryptField(c, key, Some(text)), ParseTs(text);
              && r != Ok(None)
              && (parsed.Err? ==> r == Err(parsed.error))
              && (parsed.Ok? && c.mac(key.macKey, parsed.value.iv + parsed.value.ct) != parsed.value.mac ==> r == Err(MacMismatch))
  {
    hide ParseTs, Utf8.DecodeText;
  }

  /** A text field comes back as it was, if and only if it does not begin with a byte order mark, which is dropped. */
  lemma TextFieldRoundTrip(c: Cipher, key: SymmetricKey, iv: seq<Byte>, value: string)
    requires Lawful(c) && |iv| == 16
    ensures var back := DecryptField(c, key, Some(EncryptField(c, key, iv, value)));
            && back == Ok(Some(if value != "" && value[0] == BOM then value[1..] else value))
            && (back == Ok(Some(value)) <==> value == "" || value[0] != BOM)
  {
    hide Print, ParseTs, ParseRust, Utf8.DecodeText, Utf8.Encode;
    FieldRoundTrip(c, key, iv, Utf8.Encode(value));
    PrintSplits(Encrypt(c, key, iv, Utf8.Encode(value)));
    Utf8.TextReadsBack(value);
  }

  /** A field encrypted and printed on either side is read and decrypted on either side. */
  lemma FieldRoundTrip(c: Cipher, key: SymmetricKey, iv: seq<Byte>, plaintext: seq<Byte>)
    requires Lawful(c) && |iv| == 16
    ensures var text := Print(Encrypt(c, key, iv, plaintext));
            && ParseRust(text).Ok? && Decrypt(c, key, ParseRust(text).value) == Ok(plaintext)
            && ParseTs(text).Ok? && Decrypt(c, key, ParseTs(text).value) == Ok(plaintext)
  {
    hide Print, ParseRust, ParseTs;
    PrintParse(Encrypt(c, key, iv, plaintext));
  }
}
