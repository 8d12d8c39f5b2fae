/**
 The password generators of clients/web/src/lib/password-gen.ts and
 crates/crypto-core/src/password_gen.rs. The random source is a function giving the k-th index
 below a bound; every such function is a possible behaviour.
 */
module PasswordGen {
  import opened Wrappers
  import opened Shuffle
  import opened Strings

  datatype Class = Upper | Lower | Number | Symbol

  function Pool(cls: Class): (r: string) {
    match cls
    case Upper => "ABCDEFGHIJKLMNOPQRSTUVWXYZ"
    case Lower => "abcdefghijklmnopqrstuvwxyz"
    case Number => "0123456789"
    case Symbol => "!@#$%^&*()_+-=[]{}|;:,.<>?"
  }

  predicate IsAmbiguous(c: char) {
    c == 'I' || c == 'l' || c == '1' || c == 'O' || c == '0'
  }

  /** The alphabets in order, the ten digits, and the five characters that look like others. */
  lemma PoolsAre(i: nat, c: char)
    ensures |Pool(Upper)| == |Pool(Lower)| == 26 && |Pool(Number)| == 10
    ensures i < 26 ==> Pool(Upper)[i] == 'A' + i as char && Pool(Lower)[i] == 'a' + i as char
    ensures i < 10 ==> Pool(Number)[i] == '0' + i as char
    ensures IsAmbiguous(c) <==> c in "Il1O0"
  {
  }

  /** The 26 symbols are ASCII punctuation without quotes, slashes, backquote and tilde. */
  lemma SymbolsAre(c: char)
    ensures |Pool(Symbol)| == 26
    ensures c in Pool(Symbol) <==>
              || c == '!' || '#' <= c <= '&' || '(' <= c <= '.' || ':' <= c <= '@'
              || c == '[' || ']' <= c <= '_' || '{' <= c <= '}'
  {
  }

  datatype Config = Config(
    length: int, uppercase: bool, lowercase: bool, numbers: bool, symbols: bool, avoidAmbiguous: bool,
    minUppercase: int, minLowercase: int, minNumbers: int, minSpecial: int)
  {
    predicate Enabled(cls: Class) {
      match cls
      case Upper => uppercase
      case Lower => lowercase
      case Number => numbers
      case Symbol => symbols
    }

    function Min(cls: Class): (r: int) {
      match cls
      case Upper => minUppercase
      case Lower => minLowercase
      case Number => minNumbers
      case Symbol => minSpecial
    }
  }

  datatype GenError = NoCharset | TooShort(length: int)

  /** The k-th draw below m. */
  type Source = (nat, nat) -> nat

  ghost predicate InRange(rng: Source) {
    forall k: nat, m: nat :: m > 0 ==> rng(k, m) < m
  }

  function FilterAmbiguous(pool: string, avoid: bool): (r: string) {
    if avoid then Without(pool, IsAmbiguous) else pool
  }

  lemma FilterKeeps(pool: string, avoid: bool, c: char)
    ensures c in FilterAmbiguous(pool, avoid) <==> c in pool && (avoid ==> !IsAmbiguous(c))
  {
    WithoutMembers(pool, IsAmbiguous, c);
  }

  // ----- what a password must satisfy -----

  predicate NoClass(cfg: Config) {
    !cfg.uppercase && !cfg.lowercase && !cfg.numbers && !cfg.symbols
  }

  /** A character of an enabled class; an ambiguous one only if they are not avoided. */
  predicate Allowed(cfg: Config, c: char) {
    exists cls: Class :: cfg.Enabled(cls) && c in Pool(cls) && (cfg.avoidAmbiguous ==> !IsAmbiguous(c))
  }

  function Count(s: string, pool: string): (r: nat) {
    if s == "" then 0 else (if s[0] in pool then 1 else 0) + Count(s[1..], pool)
  }

  ghost predicate Meets(cfg: Config, pw: string) {
    && (forall i :: 0 <= i < |pw| ==> Allowed(cfg, pw[i]))
    && (forall cls: Class :: cfg.Enabled(cls) ==> Count(pw, Pool(cls)) >= cfg.Min(cls))
  }

  function Demand(cfg: Config, cls: Class): (r: nat) {
    if cfg.Enabled(cls) && cfg.Min(cls) > 0 then cfg.Min(cls) else 0
  }

  function Demanded(cfg: Config): (r: nat) {
    Demand(cfg, Upper) + Demand(cfg, Lower) + Demand(cfg, Number) + Demand(cfg, Symbol)
  }

  /** The minima of the enabled classes, negative ones counting as none. */
  lemma DemandedIs(cfg: Config)
    ensures Demanded(cfg)
         == (if cfg.uppercase && cfg.minUppercase > 0 then cfg.minUppercase else 0)
            + (if cfg.lowercase && cfg.minLowercase > 0 then cfg.minLowercase else 0)
            + (if cfg.numbers && cfg.minNumbers > 0 then cfg.minNumbers else 0)
            + (if cfg.symbols && cfg.minSpecial > 0 then cfg.minSpecial else 0)
  {
  }

  // ----- counting is blind to order -----

  lemma {:induction false} CountConcat(a: string, b: string, pool: string)
    ensures Count(a + b, pool) == Count(a, pool) + Count(b, pool)
  {
    if a == "" {
      assert a + b == b;
    } else {
      assert (a + b)[1..] == a[1..] + b;
      CountConcat(a[1..], b, pool);
    }
  }

  lemma {:induction false} CountAll(s: string, pool: string)
    requires forall i :: 0 <= i < |s| ==> s[i] in pool
    ensures Count(s, pool) == |s|
  {
    if s != "" {
      CountAll(s[1..], pool);
    }
  }

  lemma CountRemoved(b: string, j: nat, pool: string)
    requires j < |b|
    ensures Count(b, pool) == Count(b[..j] + b[j + 1..], pool) + if b[j] in pool then 1 else 0
  {
    var after := b[j..];
    assert b == b[..j] + after;
    assert after[1..] == b[j + 1..];
    CountConcat(b[..j], after, pool);
    CountConcat(b[..j], b[j + 1..], pool);
  }

  lemma RemovedMultiset(b: string, j: nat)
    requires j < |b|
    ensures multiset(b[..j] + b[j + 1..]) == multiset(b) - multiset{b[j]}
  {
    assert b == b[..j] + [b[j]] + b[j + 1..];
  }

  /** The first character of a permutation, found in the other one; without it they are permutations still. */
  lemma Counterpart(a: string, b: string) returns (j: nat)
    requires a != "" && multiset(a) == multiset(b)
    ensures j < |b| && b[j] == a[0] && multiset(a[1..]) == multiset(b[..j] + b[j + 1..])
  {
    j := Occurrence(a, b);
    SameRest(a, b, j);
  }

  lemma Occurrence(a: string, b: string) returns (j: nat)
    requires a != "" && multiset(a) == multiset(b)
    ensures j < |b| && b[j] == a[0]
  {
    assert a[0] in multiset(a);
    assert a[0] in b;
    j :| 0 <= j < |b| && b[j] == a[0];
  }

  lemma SameRest(a: string, b: string, j: nat)
    requires a != "" && multiset(a) == multiset(b) && j < |b| && b[j] == a[0]
    ensures multiset(a[1..]) == multiset(b[..j] + b[j + 1..])
  {
    RemovedMultiset(a, 0);
    RemovedMultiset(b, j);
    assert a[..0] + a[1..] == a[1..];
  }

  lemma {:induction false} CountPermuted(a: string, b: string, pool: string)
    requires multiset(a) == multiset(b)
    ensures Count(a, pool) == Count(b, pool)
  {
    if a == "" {
      assert |b| == |multiset(b)| == |multiset(a)| == 0;
    } else {
      var j := Counterpart(a, b);
      CountPermuted(a[1..], b[..j] + b[j + 1..], pool);
      CountRemoved(b, j, pool);
    }
  }

  lemma PermutedMeets(cfg: Config, a: string, b: string)
    requires Meets(cfg, a) && multiset(a) == multiset(b)
    ensures Meets(cfg, b)
  {
    hide Pool;
    forall cls: Class | cfg.Enabled(cls) ensures Count(b, Pool(cls)) >= cfg.Min(cls) {
      CountPermuted(a, b, Pool(cls));
    }
    forall i | 0 <= i < |b| ensures Allowed(cfg, b[i]) {
      assert b[i] in multiset(b);
      assert b[i] in a;
    }
  }

  // ----- the character set -----

  /** Symbols hold no ambiguous character and are not filtered. */
  function ClassPool(cfg: Config, cls: Class): (r: string) {
    if cls == Symbol then Pool(cls) else FilterAmbiguous(Pool(cls), cfg.avoidAmbiguous)
  }

  function Contributed(cfg: Config, cls: Class): (r: string) {
    if cfg.Enabled(cls) then ClassPool(cfg, cls) else ""
  }

  function Charset(cfg: Config): (r: string) {
    Contributed(cfg, Upper) + Contributed(cfg, Lower) + Contributed(cfg, Number) + Contributed(cfg, Symbol)
  }

  lemma SymbolsAreUnambiguous(c: char)
    requires c in Pool(Symbol)
    ensures !IsAmbiguous(c)
  {
  }

  lemma ClassPoolMembers(cfg: Config, cls: Class, c: char)
    ensures c in ClassPool(cfg, cls) <==> c in Pool(cls) && (cfg.avoidAmbiguous ==> !IsAmbiguous(c))
  {
    hide Pool;
    FilterKeeps(Pool(cls), cfg.avoidAmbiguous, c);
    if c in Pool(Symbol) {
      SymbolsAreUnambiguous(c);
    }
  }

  /** The full pools of the enabled classes, one after the other. */
  function EnabledPools(cfg: Config): (r: string) {
    (if cfg.uppercase then Pool(Upper) else "") + (if cfg.lowercase then Pool(Lower) else "")
    + (if cfg.numbers then Pool(Number) else "") + (if cfg.symbols then Pool(Symbol) else "")
  }

  lemma FilterConcat(a: string, b: string, avoid: bool)
    ensures FilterAmbiguous(a + b, avoid) == FilterAmbiguous(a, avoid) + FilterAmbiguous(b, avoid)
  {
    WithoutConcat(a, b, IsAmbiguous);
  }

  /** The character set is the enabled pools in order, filtered as a whole. */
  lemma CharsetIsFiltered(cfg: Config)
    ensures Charset(cfg) == FilterAmbiguous(EnabledPools(cfg), cfg.avoidAmbiguous)
  {
    hide Pool, FilterAmbiguous;
    var avoid := cfg.avoidAmbiguous;
    var u := if cfg.uppercase then Pool(Upper) else "";
    var l := if cfg.lowercase then Pool(Lower) else "";
    var n := if cfg.numbers then Pool(Number) else "";
    var s := if cfg.symbols then Pool(Symbol) else "";
    FilterConcat(u, l, avoid);
    FilterConcat(u + l, n, avoid);
    FilterConcat(u + l + n, s, avoid);
    FilterNothing(avoid);
    SymbolsUnfiltered(avoid);
  }

  lemma FilterNothing(avoid: bool)
    ensures FilterAmbiguous("", avoid) == ""
  {
  }

  lemma SymbolsUnfiltered(avoid: bool)
    ensures FilterAmbiguous(Pool(Symbol), avoid) == Pool(Symbol)
  {
    hide Pool, IsAmbiguous;
    forall i | 0 <= i < |Pool(Symbol)| ensures !IsAmbiguous(Pool(Symbol)[i]) {
      SymbolsAreUnambiguous(Pool(Symbol)[i]);
    }
    WithoutNone(Pool(Symbol), IsAmbiguous);
  }

  function Sample(cls: Class): (r: char) {
    match cls
    case Upper => 'A'
    case Lower => 'a'
    case Number => '2'
    case Symbol => '!'
  }

  lemma SampleInPool(cls: Class)
    ensures Sample(cls) in Pool(cls)
  {
  }

  lemma ClassPoolIsNotEmpty(cfg: Config, cls: Class)
    ensures ClassPool(cfg, cls) != ""
  {
    hide Pool, FilterAmbiguous;
    SampleInPool(cls);
    ClassPoolMembers(cfg, cls, Sample(cls));
  }

  lemma CharsetIsAllowed(cfg: Config, c: char)
    ensures c in Charset(cfg) <==> Allowed(cfg, c)
  {
    hide Pool, ClassPool;
    ClassPoolMembers(cfg, Upper, c);
    ClassPoolMembers(cfg, Lower, c);
    ClassPoolMembers(cfg, Number, c);
    ClassPoolMembers(cfg, Symbol, c);
    assert c in Charset(cfg) <==>
      c in Contributed(cfg, Upper) || c in Contributed(cfg, Lower) || c in Contributed(cfg, Number) || c in Contributed(cfg, Symbol);
    if Allowed(cfg, c) {
      var cls: Class :| cfg.Enabled(cls) && c in Pool(cls) && (cfg.avoidAmbiguous ==> !IsAmbiguous(c));
      ClassPoolMembers(cfg, cls, c);
      assert c in Contributed(cfg, cls);
    }
  }

  lemma CharsetEmptyIffNoClass(cfg: Config)
    ensures Charset(cfg) == "" <==> NoClass(cfg)
  {
    hide ClassPool;
    ClassPoolIsNotEmpty(cfg, Upper);
    ClassPoolIsNotEmpty(cfg, Lower);
    ClassPoolIsNotEmpty(cfg, Number);
    ClassPoolIsNotEmpty(cfg, Symbol);
  }

  // ----- the generators -----

  function Positive(n: int): (r: nat) {
    if n > 0 then n else 0
  }

  /** What n draws from position k of the source pick out of a pool. */
  function Picks(pool: string, n: nat, rng: Source, k: nat): (r: string)
    requires pool != "" && InRange(rng)
    ensures |r| == n && forall i :: 0 <= i < n ==> r[i] == pool[rng(k + i, |pool|)]
  {
    seq(n, i requires 0 <= i < n => pool[rng(k + i, |pool|)])
  }

  /** A loop pushing `count` random characters of a pool. */
  method PushPicks(buf: string, pool: string, count: int, rng: Source, k: nat) returns (r: string, next: nat)
    requires pool != "" && InRange(rng)
    ensures r == buf + Picks(pool, Positive(count), rng, k) && next == k + Positive(count)
    ensures buf <= r && forall j :: |buf| <= j < |r| ==> r[j] == pool[rng(k + j - |buf|, |pool|)]
  {
    r, next := buf, k;
    var i := 0;
    while i < count
      invariant 0 <= i <= Positive(count) && next == k + i
      invariant r == buf + Picks(pool, i, rng, k)
    {
      r := r + [pool[rng(next, |pool|)]];
      next := next + 1;
      i := i + 1;
    }
  }

  /** The characters a class must contribute, picked from position k of the source. */
  function Required(cfg: Config, cls: Class, rng: Source, k: nat): (r: string)
    requires InRange(rng)
    ensures |r| == Demand(cfg, cls)
  {
    ClassPoolIsNotEmpty(cfg, cls);
    Picks(ClassPool(cfg, cls), Demand(cfg, cls), rng, k)
  }

  method PushClass(cfg: Config, cls: Class, buf: string, rng: Source, k: nat) returns (r: string, next: nat)
    requires InRange(rng)
    ensures r == buf + Required(cfg, cls, rng, k) && next == k + Demand(cfg, cls)
  {
    hide ClassPool;
    r, next := buf, k;
    if cfg.Enabled(cls) {
      ClassPoolIsNotEmpty(cfg, cls);
      r, next := PushPicks(buf, ClassPool(cfg, cls), cfg.Min(cls), rng, k);
    }
  }

  function WantedLength(cfg: Config): (r: nat) {
    if cfg.length > Demanded(cfg) then cfg.length else Demanded(cfg)
  }

  /**
   The buffer before the shuffle: one draw for each character, first the required ones of the four classes in
   order, then the rest from the whole character set.
   */
  function Drawn(cfg: Config, rng: Source): (r: string)
    requires InRange(rng) && !NoClass(cfg)
    ensures |r| == WantedLength(cfg)
  {
    CharsetEmptyIffNoClass(cfg);
    var u, l, n := Demand(cfg, Upper), Demand(cfg, Lower), Demand(cfg, Number);
    Required(cfg, Upper, rng, 0) + Required(cfg, Lower, rng, u) + Required(cfg, Number, rng, u + l)
    + Required(cfg, Symbol, rng, u + l + n)
    + Picks(Charset(cfg), WantedLength(cfg) - Demanded(cfg), rng, Demanded(cfg))
  }

  /** The pool whose turn it is at position i of the buffer. */
  function PoolAt(cfg: Config, i: nat): (pool: string) {
    var u, l, n, s := Demand(cfg, Upper), Demand(cfg, Lower), Demand(cfg, Number), Demand(cfg, Symbol);
    if i < u then ClassPool(cfg, Upper)
    else if i < u + l then ClassPool(cfg, Lower)
    else if i < u + l + n then ClassPool(cfg, Number)
    else if i < u + l + n + s then ClassPool(cfg, Symbol)
    else Charset(cfg)
  }

  /** Draw i picks character i, out of the pool whose turn it is. */
  lemma DrawnAt(cfg: Config, rng: Source, i: nat)
    requires InRange(rng) && !NoClass(cfg) && i < WantedLength(cfg)
    ensures PoolAt(cfg, i) != "" && Drawn(cfg, rng)[i] == PoolAt(cfg, i)[rng(i, |PoolAt(cfg, i)|)]
  {
    hide Pool, ClassPool, Charset, Demand;
    CharsetEmptyIffNoClass(cfg);
    ClassPoolIsNotEmpty(cfg, Upper);
    ClassPoolIsNotEmpty(cfg, Lower);
    ClassPoolIsNotEmpty(cfg, Number);
    ClassPoolIsNotEmpty(cfg, Symbol);
  }

  lemma RequiredAllowed(cfg: Config, cls: Class, rng: Source, k: nat, i: nat)
    requires InRange(rng) && i < Demand(cfg, cls)
    ensures Required(cfg, cls, rng, k)[i] in Pool(cls) && Allowed(cfg, Required(cfg, cls, rng, k)[i])
  {
    hide Pool, ClassPool;
    ClassPoolIsNotEmpty(cfg, cls);
    ClassPoolMembers(cfg, cls, Required(cfg, cls, rng, k)[i]);
  }

  predicate AllAllowed(cfg: Config, s: string) {
    forall i :: 0 <= i < |s| ==> Allowed(cfg, s[i])
  }

  lemma RequiredMeets(cfg: Config, cls: Class, rng: Source, k: nat)
    requires InRange(rng)
    ensures AllAllowed(cfg, Required(cfg, cls, rng, k))
    ensures Count(Required(cfg, cls, rng, k), Pool(cls)) == Demand(cfg, cls)
  {
    hide Pool, Required, Allowed;
    var r := Required(cfg, cls, rng, k);
    forall i | 0 <= i < |r| ensures r[i] in Pool(cls) && Allowed(cfg, r[i]) {
      RequiredAllowed(cfg, cls, rng, k, i);
    }
    CountAll(r, Pool(cls));
  }

  lemma PicksAllowed(cfg: Config, n: nat, rng: Source, k: nat)
    requires InRange(rng) && Charset(cfg) != ""
    ensures AllAllowed(cfg, Picks(Charset(cfg), n, rng, k))
  {
    hide Pool, ClassPool, Charset, Allowed;
    var r := Picks(Charset(cfg), n, rng, k);
    forall i | 0 <= i < n ensures Allowed(cfg, r[i]) {
      CharsetIsAllowed(cfg, r[i]);
    }
  }

  lemma CountOfFive(a: string, b: string, c: string, d: string, e: string, pool: string)
    ensures Count(a + b + c + d + e, pool)
         == Count(a, pool) + Count(b, pool) + Count(c, pool) + Count(d, pool) + Count(e, pool)
  {
    hide Count;
    CountConcat(a, b, pool);
    CountConcat(a + b, c, pool);
    CountConcat(a + b + c, d, pool);
    CountConcat(a + b + c + d, e, pool);
  }

  lemma AllowedConcat(cfg: Config, a: string, b: string)
    requires AllAllowed(cfg, a) && AllAllowed(cfg, b)
    ensures AllAllowed(cfg, a + b)
  {
    hide Allowed;
  }

  lemma PartsAllowed(cfg: Config, a: string, b: string, c: string, d: string, e: string)
    requires AllAllowed(cfg, a) && AllAllowed(cfg, b) && AllAllowed(cfg, c) && AllAllowed(cfg, d) && AllAllowed(cfg, e)
    ensures AllAllowed(cfg, a + b + c + d + e)
  {
    hide AllAllowed;
    AllowedConcat(cfg, a, b);
    AllowedConcat(cfg, a + b, c);
    AllowedConcat(cfg, a + b + c, d);
    AllowedConcat(cfg, a + b + c + d, e);
  }

  /** Five parts of allowed characters, the first four holding what each class demands. */
  lemma PartsMeet(cfg: Config, a: string, b: string, c: string, d: string, e: string, s: string)
    requires AllAllowed(cfg, s)
    requires forall cls: Class :: Count(s, Pool(cls))
               == Count(a, Pool(cls)) + Count(b, Pool(cls)) + Count(c, Pool(cls)) + Count(d, Pool(cls)) + Count(e, Pool(cls))
    requires Count(a, Pool(Upper)) == Demand(cfg, Upper) && Count(b, Pool(Lower)) == Demand(cfg, Lower)
    requires Count(c, Pool(Number)) == Demand(cfg, Number) && Count(d, Pool(Symbol)) == Demand(cfg, Symbol)
    ensures Meets(cfg, s)
  {
    hide Pool, Allowed, Count;
    forall cls: Class | cfg.Enabled(cls) ensures Count(s, Pool(cls)) >= cfg.Min(cls) {
      match cls
      case Upper =>
      case Lower =>
      case Number =>
      case Symbol =>
    }
  }

  /** Whatever the source draws, the buffer meets the requirements. */
  lemma DrawnMeets(cfg: Config, rng: Source)
    requires InRange(rng) && !NoClass(cfg)
    ensures Meets(cfg, Drawn(cfg, rng))
  {
    hide Pool, Required, Picks, Count, Charset, AllAllowed, Meets, Demand, InRange, NoClass;
    CharsetEmptyIffNoClass(cfg);
    var u, l, n := Demand(cfg, Upper), Demand(cfg, Lower), Demand(cfg, Number);
    var rest := WantedLength(cfg) - Demanded(cfg);
    RequiredMeets(cfg, Upper, rng, 0);
    RequiredMeets(cfg, Lower, rng, u);
    RequiredMeets(cfg, Number, rng, u + l);
    RequiredMeets(cfg, Symbol, rng, u + l + n);
    PicksAllowed(cfg, rest, rng, Demanded(cfg));
    var a, b := Required(cfg, Upper, rng, 0), Required(cfg, Lower, rng, u);
    var c, d := Required(cfg, Number, rng, u + l), Required(cfg, Symbol, rng, u + l + n);
    var e := Picks(Charset(cfg), rest, rng, Demanded(cfg));
    PartsAllowed(cfg, a, b, c, d, e);
    forall cls: Class
      ensures Count(a + b + c + d + e, Pool(cls))
           == Count(a, Pool(cls)) + Count(b, Pool(cls)) + Count(c, Pool(cls)) + Count(d, Pool(cls)) + Count(e, Pool(cls))
    {
      CountOfFive(a, b, c, d, e, Pool(cls));
    }
    PartsMeet(cfg, a, b, c, d, e, a + b + c + d + e);
  }

  /** Required characters of the four classes, then random characters up to the wanted length. */
  method Fill(cfg: Config, rng: Source) returns (r: string, next: nat)
    requires InRange(rng) && !NoClass(cfg)
    ensures r == Drawn(cfg, rng) && next == |r|
  {
    hide Pool, ClassPool, Charset, Required, Picks, Demand, NoClass, InRange;
    CharsetEmptyIffNoClass(cfg);
    var r1, k1 := PushClass(cfg, Upper, "", rng, 0);
    var r2, k2 := PushClass(cfg, Lower, r1, rng, k1);
    var r3, k3 := PushClass(cfg, Number, r2, rng, k2);
    var r4, k4 := PushClass(cfg, Symbol, r3, rng, k3);
    r, next := PushPicks(r4, Charset(cfg), cfg.length - |r4|, rng, k4);
  }

  function ChoicesFrom(rng: Source, k: nat, top: nat): (js: seq<nat>)
    requires InRange(rng)
    ensures ValidChoices(js, top) && forall i :: 0 <= i < top ==> js[i] == rng(k + i, top - i + 1)
  {
    seq(top, i requires 0 <= i < top => rng(k + i, top - i + 1))
  }

  method ShuffleString(s: string, rng: Source, k: nat) returns (r: string)
    requires InRange(rng)
    ensures multiset(r) == multiset(s) && |r| == |s|
    ensures r == Shuffled(s, ChoicesFrom(rng, k, Top(s)))
  {
    var a := new char[|s|](i requires 0 <= i < |s| => s[i]);
    assert a[..] == s;
    ShuffleInPlace(a, ChoicesFrom(rng, k, Top(s)));
    r := a[..];
    if s != "" {
      ShuffleKeeps(s, Top(s), ChoicesFrom(rng, k, Top(s)));
    }
  }

  /** The web generator: the length grows to fit the minima of the enabled classes. */
  method GeneratePassword(cfg: Config, rng: Source) returns (r: Result<string, GenError>)
    requires InRange(rng)
    ensures r == Err(NoCharset) <==> NoClass(cfg)
    ensures r.Err? ==> r == Err(NoCharset)
    ensures r.Ok? ==>
              var drawn := Drawn(cfg, rng);
              r.value == Shuffled(drawn, ChoicesFrom(rng, |drawn|, Top(drawn)))
    ensures r.Ok? ==> Meets(cfg, r.value)
    ensures r.Ok? ==> |r.value| == if cfg.length > Demanded(cfg) then cfg.length else Demanded(cfg)
  {
    hide Pool, ClassPool, Charset, Drawn, Shuffled, ChoicesFrom, Meets;
    CharsetEmptyIffNoClass(cfg);
    if Charset(cfg) == "" {
      return Err(NoCharset);
    }
    var chars, k := Fill(cfg, rng);
    DrawnMeets(cfg, rng);
    var pw := ShuffleString(chars, rng, k);
    PermutedMeets(cfg, chars, pw);
    r := Ok(pw);
  }

  /** The sum the Rust generator compares with the length counts disabled classes too. */
  function MinTotal(cfg: Config): (r: int) {
    cfg.minUppercase + cfg.minLowercase + cfg.minNumbers + cfg.minSpecial
  }

  /** The Rust generator: sizes are unsigned, and a length below the sum of all minima is refused. */
  method GeneratePasswordRust(cfg: Config, rng: Source) returns (r: Result<string, GenError>)
    requires InRange(rng)
    requires cfg.length >= 0 && forall cls: Class :: cfg.Min(cls) >= 0
    ensures r == Err(NoCharset) <==> NoClass(cfg)
    ensures r == Err(TooShort(cfg.length)) <==>
              !NoClass(cfg) && cfg.length < cfg.minUppercase + cfg.minLowercase + cfg.minNumbers + cfg.minSpecial
    ensures r.Ok? <==> !NoClass(cfg) && cfg.length >= MinTotal(cfg)
    ensures r.Ok? ==>
              var drawn := Drawn(cfg, rng);
              r.value == Shuffled(drawn, ChoicesFrom(rng, |drawn|, Top(drawn)))
    ensures r.Ok? ==> Meets(cfg, r.value) && |r.value| == cfg.length
  {
    hide Pool, ClassPool, Charset, Drawn, Shuffled, ChoicesFrom, Meets;
    CharsetEmptyIffNoClass(cfg);
    if Charset(cfg) == "" {
      return Err(NoCharset);
    }
    if cfg.length < MinTotal(cfg) {
      return Err(TooShort(cfg.length));
    }
    assert cfg.Min(Upper) >= 0 && cfg.Min(Lower) >= 0 && cfg.Min(Number) >= 0 && cfg.Min(Symbol) >= 0;
    assert Demanded(cfg) <= cfg.length;
    var password, k := Fill(cfg, rng);
    DrawnMeets(cfg, rng);
    var pw := ShuffleString(password, rng, k);
    PermutedMeets(cfg, password, pw);
    r := Ok(pw);
  }
}
