/**
 sanitize_data of server/src/mail.rs: every string of a JSON value loses the matches of
 the regular expression `<[^>]+>`, found leftmost first and removed in one pass.
 */
module MailSanitizer {
  import opened Strings

  datatype Json =
    | Null
    | Bool(b: bool)
    | Num(n: string)
    | Str(s: string)
    | Arr(items: seq<Json>)
    | Obj(fields: seq<(string, Json)>)

  // ----- one string -----

  /** s[i..j+1] is a match: `<`, at least one character other than `>`, then `>`. */
  predicate MatchAt(s: string, i: int, j: int) {
    0 <= i && i + 1 < j < |s| && s[i] == '<' && s[j] == '>' && forall k :: i < k < j ==> s[k] != '>'
  }

  ghost predicate HasMatch(s: string) {
    exists i, j :: MatchAt(s, i, j)
  }

  /** The length of the match at the front of s, or 0. */
  function FrontMatch(s: string): (n: nat)
    ensures n == 0 || MatchAt(s, 0, n - 1)
    ensures n == 0 ==> forall j :: !MatchAt(s, 0, j)
  {
    if |s| < 2 || s[0] != '<' then 0
    else
      var close := Find(s[1..], '>');
      assert forall k :: 0 <= k < |s| - 1 ==> s[1..][k] == s[k + 1];
      if 0 < close < |s| - 1 then close + 2 else 0
  }

  function Strip(s: string): (r: string)
    decreases |s|
  {
    if s == "" then ""
    else if FrontMatch(s) > 0 then Strip(s[FrontMatch(s)..])
    else [s[0]] + Strip(s[1..])
  }

  /** The length of the match that starts at position i, or 0. */
  function MatchLength(s: string, i: nat): (n: nat)
    requires i < |s|
    ensures i + n <= |s|
  {
    FrontMatch(s[i..])
  }

  /** Before position i nothing is left to do, once r has been written. */
  ghost predicate Stripped(s: string, i: nat, r: string) {
    i <= |s| && r + Strip(s[i..]) == Strip(s)
  }

  lemma StripStep(s: string, i: nat, r: string)
    requires i < |s| && Stripped(s, i, r)
    ensures var n := MatchLength(s, i);
            if n > 0 then Stripped(s, i + n, r) else Stripped(s, i + 1, r + [s[i]])
  {
    hide FrontMatch, MatchAt;
    var n, rest := MatchLength(s, i), s[i..];
    if n > 0 {
      assert rest[n..] == s[i + n..];
    } else {
      assert rest[1..] == s[i + 1..] && rest[0] == s[i];
      assert r + ([s[i]] + Strip(s[i + 1..])) == (r + [s[i]]) + Strip(s[i + 1..]);
    }
  }

  lemma StripEnds(s: string, r: string)
    ensures Stripped(s, 0, "")
    ensures Stripped(s, |s|, r) ==> r == Strip(s)
  {
    assert s[0..] == s && s[|s|..] == "";
    assert Strip("") == "" && r + "" == r;
  }

  method ReplaceAll(s: string) returns (r: string)
    ensures r == Strip(s)
  {
    hide *;
    r := "";
    var i := 0;
    StripEnds(s, r);
    while i < |s|
      invariant 0 <= i <= |s| && Stripped(s, i, r)
    {
      StripStep(s, i, r);
      var n := MatchLength(s, i);
      if n > 0 {
        i := i + n;
      } else {
        r := r + [s[i]];
        i := i + 1;
      }
    }
    StripEnds(s, r);
  }

  /** `<` is followed by `>` at once, or by no `>` at all. */
  predicate Harmless(rest: string) {
    '>' !in rest || rest[0] == '>'
  }

  lemma HarmlessHasNoFrontMatch(c: char, rest: string)
    requires c == '<' ==> Harmless(rest)
    ensures FrontMatch([c] + rest) == 0
  {
  }

  lemma {:induction false} MatchOfTail(c: char, rest: string, i: int, j: int)
    requires i > 0
    ensures MatchAt([c] + rest, i, j) <==> MatchAt(rest, i - 1, j - 1)
  {
    var s := [c] + rest;
    assert forall k :: 0 < k < |s| ==> s[k] == rest[k - 1];
    if MatchAt(rest, i - 1, j - 1) {
      forall k | i < k < j ensures s[k] != '>' {
        assert s[k] == rest[k - 1];
      }
    }
    if MatchAt(s, i, j) {
      forall k | i - 1 < k < j - 1 ensures rest[k] != '>' {
        assert s[k + 1] == rest[k];
      }
    }
  }

  lemma ConsHasNoMatch(c: char, rest: string)
    requires !HasMatch(rest) && (c == '<' ==> Harmless(rest))
    ensures !HasMatch([c] + rest)
  {
    HarmlessHasNoFrontMatch(c, rest);
    forall i, j ensures !MatchAt([c] + rest, i, j) {
      if i > 0 {
        MatchOfTail(c, rest, i, j);
      }
    }
  }

  lemma {:induction false} StripAddsNothing(s: string, c: char)
    requires c !in s
    ensures c !in Strip(s)
    decreases |s|
  {
    if s != "" {
      var n := FrontMatch(s);
      if n > 0 {
        assert forall x :: x in s[n..] ==> x in s;
        StripAddsNothing(s[n..], c);
      } else {
        assert forall x :: x in s[1..] ==> x in s;
        StripAddsNothing(s[1..], c);
      }
    }
  }

  /** A kept `<` is harmless in the stripped text, because nothing between it and a `>` was removed. */
  lemma KeptOpenIsHarmless(s: string)
    requires |s| > 0 && s[0] == '<' && FrontMatch(s) == 0
    ensures Harmless(Strip(s[1..]))
  {
    var rest := s[1..];
    if '>' in rest {
      var j := Find(rest, '>');
      assert forall k :: 0 <= k < |rest| ==> rest[k] == s[k + 1];
      assert !MatchAt(s, 0, j + 1);
      assert rest[0] == '>';
      assert FrontMatch(rest) == 0;
    } else {
      StripAddsNothing(rest, '>');
    }
  }

  /** One pass suffices: the result holds no match. */
  lemma {:induction false} StripRemovesAll(s: string)
    ensures !HasMatch(Strip(s))
    decreases |s|
  {
    if s != "" {
      var n := FrontMatch(s);
      if n > 0 {
        StripRemovesAll(s[n..]);
      } else {
        StripRemovesAll(s[1..]);
        if s[0] == '<' {
          KeptOpenIsHarmless(s);
        }
        ConsHasNoMatch(s[0], Strip(s[1..]));
      }
    }
  }

  /** A string without a match is left alone, and only such a string is. */
  lemma {:induction false} StripFixes(s: string)
    ensures Strip(s) == s <==> !HasMatch(s)
    decreases |s|
  {
    StripRemovesAll(s);
    if s != "" && !HasMatch(s) {
      assert s == [s[0]] + s[1..];
      forall i, j ensures !MatchAt(s[1..], i, j) {
        if i >= 0 {
          MatchOfTail(s[0], s[1..], i + 1, j + 1);
        }
      }
      StripFixes(s[1..]);
    }
  }

  ghost predicate Leftmost(s: string, i: nat, j: nat) {
    MatchAt(s, i, j) && forall i', j' :: MatchAt(s, i', j') ==> i' >= i
  }

  lemma LeftmostOfTail(s: string, i: nat, j: nat)
    requires Leftmost(s, i, j) && i > 0
    ensures FrontMatch(s) == 0 && Leftmost(s[1..], i - 1, j - 1)
  {
    assert s == [s[0]] + s[1..];
    forall i', j' | MatchAt(s[1..], i', j') ensures i' >= i - 1 {
      MatchOfTail(s[0], s[1..], i' + 1, j' + 1);
    }
    MatchOfTail(s[0], s[1..], i, j);
  }

  /** The leftmost match goes, the text before it stays, and the pass goes on behind it. */
  lemma {:induction false} LeftmostMatchGoes(s: string, i: nat, j: nat)
    requires Leftmost(s, i, j)
    ensures j < |s| && i <= j && Strip(s) == s[..i] + Strip(s[j + 1..])
    decreases |s|
  {
    hide Strip;
    if i == 0 {
      FrontMatchGoes(s, j);
      assert s[..0] + Strip(s[j + 1..]) == Strip(s[j + 1..]);
    } else {
      LeftmostOfTail(s, i, j);
      FirstCharStays(s);
      assert s[..i] == [s[0]] + s[1..][..i - 1];
      assert s[1..][j..] == s[j + 1..];
      hide MatchAt, Leftmost;
      LeftmostMatchGoes(s[1..], i - 1, j - 1);
    }
  }

  lemma FrontMatchGoes(s: string, j: nat)
    requires MatchAt(s, 0, j)
    ensures Strip(s) == Strip(s[j + 1..])
  {
    OneMatchPerStart(s, 0, j, FrontMatch(s) - 1);
  }

  lemma FirstCharStays(s: string)
    requires s != "" && FrontMatch(s) == 0
    ensures Strip(s) == [s[0]] + Strip(s[1..])
  {
  }

  lemma OneMatchPerStart(s: string, i: int, j: int, k: int)
    requires MatchAt(s, i, j) && MatchAt(s, i, k)
    ensures j == k
  {
  }

  lemma LeftmostExists(s: string) returns (i: nat, j: nat)
    requires HasMatch(s)
    ensures Leftmost(s, i, j)
    decreases |s|
  {
    if FrontMatch(s) > 0 {
      i, j := 0, FrontMatch(s) - 1;
    } else {
      var i0, j0 :| MatchAt(s, i0, j0);
      assert s == [s[0]] + s[1..];
      MatchOfTail(s[0], s[1..], i0, j0);
      i, j := LeftmostExists(s[1..]);
      i, j := LeftmostBehind(s, i, j);
    }
  }

  lemma LeftmostBehind(s: string, i: nat, j: nat) returns (i': nat, j': nat)
    requires s != "" && FrontMatch(s) == 0 && Leftmost(s[1..], i, j)
    ensures Leftmost(s, i', j')
  {
    i', j' := i + 1, j + 1;
    assert s == [s[0]] + s[1..];
    MatchOfTail(s[0], s[1..], i', j');
    forall k, l | MatchAt(s, k, l) ensures k >= i' {
      if k > 0 {
        MatchOfTail(s[0], s[1..], k, l);
      }
    }
  }

  /** r is s without its matches: up to the leftmost match the same text, and behind it the same again. */
  ghost predicate OnePass(s: string, r: string)
    decreases |s|
  {
    && (!HasMatch(s) ==> r == s)
    && forall i: nat, j: nat :: Leftmost(s, i, j) ==> s[..i] <= r && OnePass(s[j + 1..], r[i..])
  }

  lemma OneLeftmost(s: string, i: nat, j: nat, k: nat, l: nat)
    requires Leftmost(s, i, j) && Leftmost(s, k, l)
    ensures i == k && j == l
  {
    hide MatchAt;
    assert i == k;
    OneMatchPerStart(s, i, j, l);
  }

  lemma OnePassAt(s: string, r: string, i: nat, j: nat)
    requires Leftmost(s, i, j)
    ensures j < |s| && (OnePass(s, r) <==> s[..i] <= r && OnePass(s[j + 1..], r[i..]))
  {
    assert MatchAt(s, i, j) && j < |s|;
    hide MatchAt, Leftmost;
    forall k: nat, l: nat | Leftmost(s, k, l) ensures k == i && l == j {
      OneLeftmost(s, i, j, k, l);
    }
    assert HasMatch(s);
  }

  /** The removal in one pass is Strip, and nothing else. */
  lemma {:induction false} StripIsOnePass(s: string, r: string)
    ensures OnePass(s, r) <==> r == Strip(s)
    decreases |s|, 1
  {
    if HasMatch(s) {
      var i, j := LeftmostExists(s);
      StripBehind(s, r, i, j);
    } else {
      NoMatchNoPass(s, r);
    }
  }

  lemma {:induction false} StripBehind(s: string, r: string, i: nat, j: nat)
    requires Leftmost(s, i, j)
    ensures OnePass(s, r) <==> r == Strip(s)
    decreases |s|, 0
  {
    hide *;
    LeftmostMatchGoes(s, i, j);
    OnePassAt(s, r, i, j);
    if s[..i] <= r {
      StripIsOnePass(s[j + 1..], r[i..]);
      assert r == s[..i] + r[i..];
    }
    assert (s[..i] + Strip(s[j + 1..]))[i..] == Strip(s[j + 1..]);
  }

  lemma NoMatchNoPass(s: string, r: string)
    requires !HasMatch(s)
    ensures OnePass(s, r) <==> r == Strip(s)
  {
    StripFixes(s);
    forall i: nat, j: nat ensures !Leftmost(s, i, j) {
    }
  }

  // ----- a whole value -----

  function Sanitize(v: Json): (r: Json) {
    match v
    case Str(s) => Str(Strip(s))
    case Arr(items) => Arr(seq(|items|, i requires 0 <= i < |items| => Sanitize(items[i])))
    case Obj(fields) => Obj(seq(|fields|, i requires 0 <= i < |fields| => (fields[i].0, Sanitize(fields[i].1))))
    case _ => v
  }

  method SanitizeData(data: Json) returns (r: Json)
    ensures r == Sanitize(data) && Sanitized(data, r)
    decreases data
  {
    SanitizeIsOnePass(data, Sanitize(data));
    match data {
      case Str(s) =>
        var stripped := ReplaceAll(s);
        r := Str(stripped);
      case Obj(fields) =>
        var out := fields;
        for k := 0 to |fields|
          invariant |out| == |fields|
          invariant forall i :: k <= i < |fields| ==> out[i] == fields[i]
          invariant forall i :: 0 <= i < k ==> out[i] == (fields[i].0, Sanitize(fields[i].1))
        {
          var d := SanitizeData(fields[k].1);
          out := out[k := (fields[k].0, d)];
        }
        r := Obj(out);
      case Arr(items) =>
        var out := items;
        for k := 0 to |items|
          invariant |out| == |items|
          invariant forall i :: k <= i < |items| ==> out[i] == items[i]
          invariant forall i :: 0 <= i < k ==> out[i] == Sanitize(items[i])
        {
          var d := SanitizeData(items[k]);
          out := out[k := d];
        }
        r := Arr(out);
      case _ =>
        r := data;
    }
  }

  /** The same tree, every string leaf replaced by the removal in one pass. */
  ghost predicate Sanitized(v: Json, w: Json) {
    match v
    case Str(s) => w.Str? && OnePass(s, w.s)
    case Arr(items) =>
      w.Arr? && |w.items| == |items| && forall i :: 0 <= i < |items| ==> Sanitized(items[i], w.items[i])
    case Obj(fields) =>
      && w.Obj? && |w.fields| == |fields|
      && forall i :: 0 <= i < |fields| ==> w.fields[i].0 == fields[i].0 && Sanitized(fields[i].1, w.fields[i].1)
    case _ => v == w
  }

  /** Sanitizing does exactly that. */
  lemma {:induction false} SanitizeIsOnePass(v: Json, w: Json)
    ensures Sanitized(v, w) <==> w == Sanitize(v)
  {
    hide Strip, OnePass;
    match v {
      case Str(s) =>
        if w.Str? {
          StripIsOnePass(s, w.s);
        }
      case Arr(items) =>
        if w.Arr? && |w.items| == |items| {
          forall i | 0 <= i < |items| ensures Sanitized(items[i], w.items[i]) <==> w.items[i] == Sanitize(items[i]) {
            SanitizeIsOnePass(items[i], w.items[i]);
          }
        }
      case Obj(fields) =>
        if w.Obj? && |w.fields| == |fields| {
          forall i | 0 <= i < |fields| ensures Sanitized(fields[i].1, w.fields[i].1) <==> w.fields[i].1 == Sanitize(fields[i].1) {
            SanitizeIsOnePass(fields[i].1, w.fields[i].1);
          }
        }
      case _ =>
    }
  }

  /** The same tree with the same keys and the same leaves other than strings. */
  predicate SameShape(v: Json, w: Json) {
    match v
    case Str(_) => w.Str?
    case Arr(items) =>
      w.Arr? && |w.items| == |items| && forall i :: 0 <= i < |items| ==> SameShape(items[i], w.items[i])
    case Obj(fields) =>
      && w.Obj? && |w.fields| == |fields|
      && forall i :: 0 <= i < |fields| ==> w.fields[i].0 == fields[i].0 && SameShape(fields[i].1, w.fields[i].1)
    case _ => v == w
  }

  ghost predicate NoTags(v: Json) {
    match v
    case Str(s) => !HasMatch(s)
    case Arr(items) => forall i :: 0 <= i < |items| ==> NoTags(items[i])
    case Obj(fields) => forall i :: 0 <= i < |fields| ==> NoTags(fields[i].1)
    case _ => true
  }

  /** Sanitizing keeps the tree, leaves no tag in any string, and changes nothing exactly where there was none. */
  lemma {:induction false} SanitizeIsClean(v: Json)
    ensures SameShape(v, Sanitize(v)) && NoTags(Sanitize(v))
    ensures Sanitize(v) == v <==> NoTags(v)
  {
    match v {
      case Str(s) =>
        StripRemovesAll(s);
        StripFixes(s);
      case Arr(items) =>
        forall i | 0 <= i < |items|
          ensures SameShape(items[i], Sanitize(items[i])) && NoTags(Sanitize(items[i]))
          ensures Sanitize(items[i]) == items[i] <==> NoTags(items[i])
        {
          SanitizeIsClean(items[i]);
        }
        if Sanitize(v) == v {
          assert forall i :: 0 <= i < |items| ==> Sanitize(v).items[i] == Sanitize(items[i]);
        }
      case Obj(fields) =>
        forall i | 0 <= i < |fields|
          ensures SameShape(fields[i].1, Sanitize(fields[i].1)) && NoTags(Sanitize(fields[i].1))
          ensures Sanitize(fields[i].1) == fields[i].1 <==> NoTags(fields[i].1)
        {
          SanitizeIsClean(fields[i].1);
        }
        if Sanitize(v) == v {
          assert forall i :: 0 <= i < |fields| ==> Sanitize(v).fields[i] == (fields[i].0, Sanitize(fields[i].1));
        }
      case _ =>
    }
  }

  lemma SanitizeTwice(v: Json)
    ensures Sanitize(Sanitize(v)) == Sanitize(v)
  {
    SanitizeIsClean(v);
    SanitizeIsClean(Sanitize(v));
  }
}
