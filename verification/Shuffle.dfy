/**
 The random choices of clients/web/src/lib/password-gen.ts: rejection sampling of an index and the
 Fisher-Yates shuffle, each with the counting argument that makes it uniform.
 */
module Shuffle {
  import opened Wrappers

  // ----- rejection sampling -----

  const WORDS: nat := 0x1_0000_0000

  /** Draws at or above the limit are thrown away. */
  function Limit(max: nat): (r: nat)
    requires max > 0
  {
    WORDS / max * max
  }

  /** The do-while loop over a tape of 32-bit words; None when the tape ends before a word is accepted. */
  method RandomIndex(max: nat, tape: seq<nat>) returns (r: Option<(nat, nat)>)
    requires 0 < max <= WORDS
    ensures r.None? ==> forall i :: 0 <= i < |tape| ==> tape[i] >= Limit(max)
    ensures r.Some? ==>
              && r.value.1 < |tape| && tape[r.value.1] < Limit(max)
              && (forall i :: 0 <= i < r.value.1 ==> tape[i] >= Limit(max))
              && r.value.0 == tape[r.value.1] % max < max
  {
    var limit := WORDS / max * max;
    for k := 0 to |tape|
      invariant forall i :: 0 <= i < k ==> tape[i] >= limit
    {
      if tape[k] < limit {
        return Some((tape[k] % max, k));
      }
    }
    r := None;
  }

  function ResidueBelow(q: nat, max: nat, r: nat): (result: set<nat>)
    requires r < max
  {
    set w: nat | 0 <= w < q * max && w % max == r
  }

  lemma SplitWord(q: nat, max: nat, w: nat)
    requires max > 0 && q * max <= w < (q + 1) * max
    ensures w % max == w - q * max
  {
    var d, t := w / max, w - q * max;
    assert w == d * max + w % max;
    assert (q + 1) * max == q * max + max;
    assert (d - q) * max == d * max - q * max;
    if d > q {
      MultipleGrows(d - q, max);
    } else if d < q {
      assert (q - d) * max == q * max - d * max;
      MultipleGrows(q - d, max);
    }
  }

  lemma MultipleGrows(k: nat, m: nat)
    requires k > 0
    ensures k * m >= m
  {
  }

  lemma OneResidueMore(q: nat, max: nat, r: nat)
    requires r < max && q > 0
    ensures (q - 1) * max + r !in ResidueBelow(q - 1, max, r)
    ensures ResidueBelow(q, max, r) == ResidueBelow(q - 1, max, r) + {(q - 1) * max + r}
  {
    var w := (q - 1) * max + r;
    DistributeOne(q, max);
    SplitWord(q - 1, max, w);
    forall v: nat | (q - 1) * max <= v < q * max && v % max == r ensures v == w {
      SplitWord(q - 1, max, v);
    }
  }

  lemma {:induction false} ResidueCount(q: nat, max: nat, r: nat)
    requires r < max
    ensures |ResidueBelow(q, max, r)| == q
  {
    if q == 0 {
      assert ResidueBelow(q, max, r) == {};
    } else {
      hide *;
      OneResidueMore(q, max, r);
      ResidueCount(q - 1, max, r);
    }
  }

  /** The 32-bit words that make RandomIndex return r. */
  function AcceptedWords(max: nat, r: nat): (result: set<nat>)
    requires 0 < max
  {
    set w: nat | 0 <= w < WORDS && w < Limit(max) && w % max == r
  }

  /** Every index has the same number of accepted words, and more than half of all words are accepted. */
  lemma SamplingIsUniform(max: nat, r: nat)
    requires 0 < max <= WORDS && r < max
    ensures |AcceptedWords(max, r)| == WORDS / max
    ensures Limit(max) <= WORDS < 2 * Limit(max)
  {
    var q := WORDS / max;
    assert WORDS == q * max + WORDS % max;
    assert q >= 1;
    MultipleGrows(q, max);
    assert AcceptedWords(max, r) == ResidueBelow(q, max, r);
    ResidueCount(q, max, r);
  }

  // ----- the shuffle -----

  ghost predicate Distinct<T>(s: seq<T>) {
    forall i, j :: 0 <= i < j < |s| ==> s[i] != s[j]
  }

  /** One choice 0 <= j <= i for each i from `top` down to 1. */
  predicate ValidChoices(js: seq<nat>, top: nat) {
    |js| == top && forall k :: 0 <= k < |js| ==> js[k] <= top - k
  }

  function Swap<T>(s: seq<T>, i: nat, j: nat): (r: seq<T>)
    requires i < |s| && j < |s|
    ensures |r| == |s|
  {
    s[i := s[j]][j := s[i]]
  }

  function ShuffleFrom<T>(s: seq<T>, top: nat, js: seq<nat>): (r: seq<T>)
    requires top < |s| && ValidChoices(js, top)
    ensures |r| == |s|
    decreases top
  {
    if top == 0 then s else ShuffleFrom(Swap(s, top, js[0]), top - 1, js[1..])
  }

  function Top<T>(s: seq<T>): (r: nat) {
    if s == [] then 0 else |s| - 1
  }

  function Shuffled<T>(s: seq<T>, js: seq<nat>): (r: seq<T>)
    requires ValidChoices(js, Top(s))
  {
    if s == [] then s else ShuffleFrom(s, Top(s), js)
  }

  method ShuffleInPlace<T>(a: array<T>, js: seq<nat>)
    requires ValidChoices(js, Top(a[..]))
    modifies a
    ensures a[..] == Shuffled(old(a[..]), js)
  {
    if a.Length == 0 {
      return;
    }
    var i := a.Length - 1;
    assert js[0..] == js;
    while i > 0
      invariant 0 <= i < a.Length
      invariant ValidChoices(js[a.Length - 1 - i..], i)
      invariant ShuffleFrom(a[..], i, js[a.Length - 1 - i..]) == Shuffled(old(a[..]), js)
    {
      var rest := js[a.Length - 1 - i..];
      var j := js[a.Length - 1 - i];
      assert rest[0] == j && rest[1..] == js[a.Length - i..];
      ghost var before := a[..];
      a[i], a[j] := a[j], a[i];
      assert a[..] == Swap(before, i, j);
      i := i - 1;
    }
  }

  lemma SwapIsPermutation<T>(s: seq<T>, i: nat, j: nat)
    requires i < |s| && j < |s|
    ensures Swap(s, i, j)[i] == s[j] && Swap(s, i, j)[j] == s[i]
    ensures forall k :: 0 <= k < |s| && k != i && k != j ==> Swap(s, i, j)[k] == s[k]
    ensures multiset(Swap(s, i, j)) == multiset(s)
    ensures Distinct(s) ==> Distinct(Swap(s, i, j))
  {
  }

  lemma {:induction false} ShuffleKeeps<T>(s: seq<T>, top: nat, js: seq<nat>)
    requires top < |s| && ValidChoices(js, top)
    ensures multiset(ShuffleFrom(s, top, js)) == multiset(s)
    ensures ShuffleFrom(s, top, js)[top + 1..] == s[top + 1..]
    ensures top > 0 ==> ShuffleFrom(s, top, js)[top] == s[js[0]]
    decreases top
  {
    if top > 0 {
      var next := Swap(s, top, js[0]);
      SwapIsPermutation(s, top, js[0]);
      ShuffleKeeps(next, top - 1, js[1..]);
      var r := ShuffleFrom(s, top, js);
      assert r[top..] == next[top..];
      assert r[top] == r[top..][0] && next[top] == next[top..][0];
      assert r[top + 1..] == r[top..][1..] && next[top + 1..] == next[top..][1..];
    }
  }

  lemma {:induction false} ShuffleIsInjective<T>(s: seq<T>, top: nat, js: seq<nat>, ks: seq<nat>)
    requires top < |s| && Distinct(s) && ValidChoices(js, top) && ValidChoices(ks, top)
    requires ShuffleFrom(s, top, js) == ShuffleFrom(s, top, ks)
    ensures js == ks
    decreases top
  {
    if top > 0 {
      ShuffleKeeps(s, top, js);
      ShuffleKeeps(s, top, ks);
      assert js[0] == ks[0];
      SwapIsPermutation(s, top, js[0]);
      ShuffleIsInjective(Swap(s, top, js[0]), top - 1, js[1..], ks[1..]);
      assert js == [js[0]] + js[1..] && ks == [ks[0]] + ks[1..];
    }
  }

  lemma DistinctPermutation<T>(s: seq<T>, p: seq<T>)
    requires Distinct(s) && multiset(s) == multiset(p)
    ensures Distinct(p)
  {
    forall i, j | 0 <= i < j < |p| ensures p[i] != p[j] {
      if p[i] == p[j] {
        assert p == p[..i] + [p[i]] + p[i + 1..j] + [p[j]] + p[j + 1..];
        assert multiset(p)[p[i]] >= 2;
        assert p[i] in multiset(s);
        assert p[i] in s;
        OnceInDistinct(s, p[i]);
      }
    }
  }

  lemma OnceInDistinct<T>(s: seq<T>, x: T)
    requires Distinct(s)
    ensures multiset(s)[x] <= 1
  {
    if s != [] {
      assert s == [s[0]] + s[1..];
      OnceInDistinct(s[1..], x);
      if x == s[0] {
        assert x !in s[1..];
      }
    }
  }

  lemma IndexBelow<T>(s: seq<T>, top: nat, p: seq<T>) returns (j: nat)
    requires top < |s| == |p| && Distinct(s) && multiset(s) == multiset(p) && s[top + 1..] == p[top + 1..]
    ensures j <= top && s[j] == p[top]
  {
    DistinctPermutation(s, p);
    assert p[top] in multiset(p);
    assert p[top] in s;
    forall k | top < k < |s| ensures s[k] != p[top] {
      assert p[k] == p[top + 1..][k - top - 1];
      assert s[k] == s[top + 1..][k - top - 1];
    }
    j :| 0 <= j < |s| && s[j] == p[top];
  }

  lemma {:induction false} ShuffleIsSurjective<T>(s: seq<T>, top: nat, p: seq<T>) returns (js: seq<nat>)
    requires top < |s| == |p| && Distinct(s) && multiset(s) == multiset(p) && s[top + 1..] == p[top + 1..]
    ensures ValidChoices(js, top) && ShuffleFrom(s, top, js) == p
    decreases top
  {
    hide *;
    var j := IndexBelow(s, top, p);
    if top == 0 {
      js := [];
      NothingToChoose(s, p);
    } else {
      SwapIsPermutation(s, top, j);
      AgreeAbove(s, top, j, p);
      var rest := ShuffleIsSurjective(Swap(s, top, j), top - 1, p);
      js := [j] + rest;
      FirstChoice(s, top, j, rest);
    }
  }

  lemma NothingToChoose<T>(s: seq<T>, p: seq<T>)
    requires |s| == |p| > 0 && s[0] == p[0] && s[1..] == p[1..]
    ensures ValidChoices([], 0) && ShuffleFrom(s, 0, []) == p
  {
    assert s == [s[0]] + s[1..] && p == [p[0]] + p[1..];
  }

  lemma FirstChoice<T>(s: seq<T>, top: nat, j: nat, rest: seq<nat>)
    requires 0 < top < |s| && j <= top && ValidChoices(rest, top - 1)
    ensures ValidChoices([j] + rest, top)
    ensures ShuffleFrom(s, top, [j] + rest) == ShuffleFrom(Swap(s, top, j), top - 1, rest)
  {
    assert ([j] + rest)[1..] == rest;
  }

  lemma AgreeAbove<T>(s: seq<T>, top: nat, j: nat, p: seq<T>)
    requires j <= top < |s| == |p| && s[top + 1..] == p[top + 1..] && s[j] == p[top]
    ensures Swap(s, top, j)[top..] == p[top..]
  {
  }

  /** Every permutation of a list without repeats comes from exactly one sequence of choices. */
  lemma ExactlyOneChoice<T>(s: seq<T>, p: seq<T>) returns (js: seq<nat>)
    requires Distinct(s) && multiset(s) == multiset(p)
    ensures ValidChoices(js, Top(s)) && Shuffled(s, js) == p
    ensures forall ks: seq<nat> :: ValidChoices(ks, Top(s)) && Shuffled(s, ks) == p ==> ks == js
  {
    assert |s| == |multiset(s)| == |multiset(p)| == |p|;
    if s == [] {
      js := [];
    } else {
      js := ShuffleIsSurjective(s, Top(s), p);
      forall ks: seq<nat> | ValidChoices(ks, Top(s)) && Shuffled(s, ks) == p ensures ks == js {
        ShuffleIsInjective(s, Top(s), js, ks);
      }
    }
  }

  // ----- how many choice sequences there are -----

  function Factorial(n: nat): (r: nat) {
    if n == 0 then 1 else n * Factorial(n - 1)
  }

  function AllChoices(top: nat): (r: set<seq<nat>>) {
    if top == 0 then {[]} else Prefixed(top + 1, AllChoices(top - 1))
  }

  /** The sequences [j] + js with j below m and js from a given set. */
  function Prefixed(m: nat, tails: set<seq<nat>>): (r: set<seq<nat>>) {
    if m == 0 then {} else Prefixed(m - 1, tails) + ConsAll(m - 1, tails)
  }

  function ConsAll(x: nat, tails: set<seq<nat>>): (r: set<seq<nat>>) {
    set js | js in tails :: [x] + js
  }

  lemma {:induction false} PrefixedMembers(m: nat, tails: set<seq<nat>>, js: seq<nat>)
    ensures js in Prefixed(m, tails) <==> js != [] && js[0] < m && js[1..] in tails
  {
    if m > 0 {
      PrefixedMembers(m - 1, tails, js);
      if js != [] {
        assert js == [js[0]] + js[1..];
      }
    }
  }

  lemma {:induction false} ConsImageSize(x: nat, tails: set<seq<nat>>)
    ensures |ConsAll(x, tails)| == |tails|
  {
    var image := ConsAll(x, tails);
    if tails != {} {
      var js :| js in tails;
      ConsImageSize(x, tails - {js});
      var smaller := ConsAll(x, tails - {js});
      forall ks | ks in tails - {js} ensures [x] + ks != [x] + js {
        assert ([x] + ks)[1..] == ks;
        assert ([x] + js)[1..] == js;
      }
      assert image == smaller + {[x] + js};
    }
  }

  lemma OnePrefixMore(m: nat, tails: set<seq<nat>>)
    requires m > 0
    ensures |Prefixed(m, tails)| == |Prefixed(m - 1, tails)| + |tails|
  {
    ConsImageSize(m - 1, tails);
    var smaller, image := Prefixed(m - 1, tails), ConsAll(m - 1, tails);
    forall js | js in image ensures js !in smaller {
      PrefixedMembers(m - 1, tails, js);
    }
    assert smaller !! image;
    assert |smaller + image| == |smaller| + |image|;
  }

  lemma {:induction false} PrefixedSize(m: nat, tails: set<seq<nat>>)
    ensures |Prefixed(m, tails)| == m * |tails|
  {
    if m > 0 {
      hide *;
      PrefixedSize(m - 1, tails);
      OnePrefixMore(m, tails);
      DistributeOne(m, |tails|);
    }
  }

  lemma DistributeOne(m: nat, n: nat)
    requires m > 0
    ensures m * n == (m - 1) * n + n
  {
  }

  /** There are n! choice sequences for n items, so each of the n! permutations has the same weight. */
  lemma {:induction false} ChoiceCount(top: nat)
    ensures |AllChoices(top)| == Factorial(top + 1)
  {
    hide Prefixed;
    if top == 0 {
      assert Factorial(1) == 1 * Factorial(0);
    } else {
      ChoiceCount(top - 1);
      PrefixedSize(top + 1, AllChoices(top - 1));
    }
  }

  lemma {:induction false} AllChoicesAreValid(top: nat, js: seq<nat>)
    ensures js in AllChoices(top) <==> ValidChoices(js, top)
  {
    if top > 0 {
      PrefixedMembers(top + 1, AllChoices(top - 1), js);
      if js != [] {
        AllChoicesAreValid(top - 1, js[1..]);
        ValidChoicesStep(js, top);
      }
    }
  }

  lemma ValidChoicesStep(js: seq<nat>, top: nat)
    requires js != [] && top > 0
    ensures ValidChoices(js, top) <==> js[0] <= top && ValidChoices(js[1..], top - 1)
  {
  }
}
