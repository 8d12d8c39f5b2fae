/** What several of the modelled files do with texts: white space, searching, lowercase. */
module Strings {

  /** White space and line terminators of ECMAScript, as `trim`, `\s` and `parseInt` see them. */
  predicate IsSpace(c: char) {
    || '\t' <= c <= '\r' || c == ' ' || c == '\U{00A0}' || c == '\U{1680}'
    || '\U{2000}' <= c <= '\U{200A}' || c == '\U{2028}' || c == '\U{2029}'
    || c == '\U{202F}' || c == '\U{205F}' || c == '\U{3000}' || c == '\U{FEFF}'
  }

  /** The Unicode property White_Space, as Rust's `char::is_whitespace` tests it. */
  predicate IsWhiteSpace(c: char) {
    || '\t' <= c <= '\r' || c == ' ' || c == '\U{0085}' || c == '\U{00A0}' || c == '\U{1680}'
    || '\U{2000}' <= c <= '\U{200A}' || c == '\U{2028}' || c == '\U{2029}'
    || c == '\U{202F}' || c == '\U{205F}' || c == '\U{3000}'
  }

  /** The byte order mark, white space to JavaScript only. */
  const BOM := '\U{FEFF}'

  /** The control character NEXT LINE, white space to Rust only. */
  const NEL := '\U{0085}'

  lemma SpacesDiffer(c: char)
    ensures IsSpace(c) != IsWhiteSpace(c) <==> c == BOM || c == NEL
  {
  }

  /** ASCII white space of the WHATWG Infra standard. */
  predicate IsAsciiSpace(c: char) {
    c == '\t' || c == '\n' || c == '\U{000C}' || c == '\r' || c == ' '
  }

  function TrimStart(s: string): (r: string) {
    if s != "" && IsSpace(s[0]) then TrimStart(s[1..]) else s
  }

  function TrimEnd(s: string): (r: string) {
    if s != "" && IsSpace(s[|s| - 1]) then TrimEnd(s[..|s| - 1]) else s
  }

  predicate AllSpaces(s: string) {
    forall i :: 0 <= i < |s| ==> IsSpace(s[i])
  }

  /** Trimming peels white space off both ends, and nothing else. */
  lemma {:induction false} TrimPeels(a: string, core: string, b: string)
    requires AllSpaces(a) && AllSpaces(b) && core != "" && !IsSpace(core[0]) && !IsSpace(core[|core| - 1])
    ensures TrimEnd(TrimStart(a + core + b)) == core
    decreases |a| + |b|
  {
    hide IsSpace;
    var s := a + core + b;
    if a != "" {
      assert s[1..] == a[1..] + core + b;
      TrimPeels(a[1..], core, b);
    } else {
      assert s == core + b && TrimStart(s) == s;
      TrimEndPeels(core, b);
    }
  }

  lemma {:induction false} TrimEndPeels(core: string, b: string)
    requires AllSpaces(b) && (core == "" || !IsSpace(core[|core| - 1]))
    ensures TrimEnd(core + b) == core
  {
    hide IsSpace;
    if b == "" {
      assert core + b == core;
    } else {
      var n := |b| - 1;
      assert (core + b)[..|core| + n] == core + b[..n];
      TrimEndPeels(core, b[..n]);
    }
  }

  /** Exactly the texts of white space are trimmed to nothing. */
  lemma {:induction false} TrimsToNothing(s: string)
    ensures TrimEnd(TrimStart(s)) == "" <==> AllSpaces(s)
  {
    hide IsSpace;
    if s != "" {
      if IsSpace(s[0]) {
        TrimsToNothing(s[1..]);
        assert s == [s[0]] + s[1..];
      } else {
        TrimEndKeepsFirst(s);
      }
    }
  }

  lemma {:induction false} TrimEndKeepsFirst(s: string)
    requires s != "" && !IsSpace(s[0])
    ensures TrimEnd(s) != ""
  {
    hide IsSpace;
    if IsSpace(s[|s| - 1]) {
      TrimEndKeepsFirst(s[..|s| - 1]);
    }
  }

  function LowerChar(c: char): (r: char) {
    if 'A' <= c <= 'Z' then c - 'A' + 'a' else c
  }

  /** Lowercase of the ASCII letters. */
  function Lower(s: string): (r: string)
    ensures |r| == |s|
  {
    seq(|s|, i requires 0 <= i < |s| => LowerChar(s[i]))
  }

  lemma LowerPairs(i: nat, c: char)
    ensures i < 26 ==> LowerChar("ABCDEFGHIJKLMNOPQRSTUVWXYZ"[i]) == "abcdefghijklmnopqrstuvwxyz"[i]
    ensures c !in "ABCDEFGHIJKLMNOPQRSTUVWXYZ" ==> LowerChar(c) == c
  {
    assert i < 26 ==> "ABCDEFGHIJKLMNOPQRSTUVWXYZ"[i] == 'A' + i as char;
    if 'A' <= c <= 'Z' {
      assert "ABCDEFGHIJKLMNOPQRSTUVWXYZ"[(c - 'A') as int] == c;
    }
  }

  predicate IsAscii(s: string) {
    forall i :: 0 <= i < |s| ==> s[i] < 128 as char
  }

  /** The index of the first c, or the length. */
  function Find(s: string, c: char): (i: nat)
    ensures i <= |s|
    ensures i < |s| ==> s[i] == c
    ensures i == |s| <==> c !in s
    ensures c !in s[..i]
  {
    if s == "" || s[0] == c then 0
    else
      assert s == [s[0]] + s[1..];
      1 + Find(s[1..], c)
  }

  /** The text without the characters of a kind. */
  function Without(s: string, kind: char -> bool): (r: string) {
    if s == "" then "" else (if kind(s[0]) then "" else [s[0]]) + Without(s[1..], kind)
  }

  lemma {:induction false} WithoutConcat(a: string, b: string, kind: char -> bool)
    ensures Without(a + b, kind) == Without(a, kind) + Without(b, kind)
  {
    if a == "" {
      assert a + b == b;
    } else {
      assert (a + b)[1..] == a[1..] + b;
      WithoutConcat(a[1..], b, kind);
    }
  }

  lemma WithoutOne(c: char, kind: char -> bool)
    ensures Without([c], kind) == if kind(c) then "" else [c]
  {
    assert Without([c][1..], kind) == "";
  }

  lemma {:induction false} WithoutNone(s: string, kind: char -> bool)
    requires forall i :: 0 <= i < |s| ==> !kind(s[i])
    ensures Without(s, kind) == s
  {
    if s != "" {
      WithoutNone(s[1..], kind);
    }
  }

  lemma {:induction false} WithoutTwice(s: string, kind: char -> bool)
    ensures Without(Without(s, kind), kind) == Without(s, kind)
  {
    var r := Without(s, kind);
    forall i | 0 <= i < |r| ensures !kind(r[i]) {
      WithoutMembers(s, kind, r[i]);
    }
    WithoutNone(r, kind);
  }

  lemma {:induction false} WithoutMembers(s: string, kind: char -> bool, c: char)
    ensures c in Without(s, kind) <==> c in s && !kind(c)
  {
    if s != "" {
      assert s == [s[0]] + s[1..];
      WithoutMembers(s[1..], kind, c);
    }
  }

  lemma {:induction false} SameKinds(s: string, p: char -> bool, q: char -> bool)
    requires forall i :: 0 <= i < |s| ==> p(s[i]) == q(s[i])
    ensures Without(s, p) == Without(s, q)
  {
    if s != "" {
      SameKinds(s[1..], p, q);
    }
  }
}
