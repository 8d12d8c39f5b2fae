/**
 The length-prefixed frames of server/src/api/notifications.rs: the payload length in groups of
 seven bits, least significant first, the high bit marking continuation.
 */
module Frames {
  import opened Wrappers
  import opened Bytes

  function Prefix(size: nat): (r: seq<Byte>) {
    if size < 128 then [size] else [size % 128 + 128] + Prefix(size / 128)
  }

  method Serialize(payload: seq<Byte>) returns (frame: seq<Byte>)
    ensures frame == Prefix(|payload|) + payload
  {
    var size := |payload|;
    var lenBuf: seq<Byte> := [];
    while true
      invariant size >= 0
      invariant lenBuf + Prefix(size) == Prefix(|payload|)
      decreases size
    {
      ghost var whole := size;
      var sizePart := size % 128;
      size := size / 128;
      if size > 0 {
        sizePart := sizePart + 128;
      }
      lenBuf := lenBuf + [sizePart];
      if size == 0 {
        assert Prefix(whole) == [sizePart];
        break;
      }
      assert Prefix(whole) == [sizePart] + Prefix(size);
    }
    frame := lenBuf + payload;
  }

  /** Reads a length and the number of bytes it took; None when the bytes end inside it. */
  function ReadPrefix(s: seq<Byte>): (r: Option<(nat, nat)>)
    ensures r.Some? ==> 0 < r.value.1 <= |s|
  {
    if s == [] then None
    else if s[0] < 128 then Some((s[0], 1))
    else
      var rest := ReadPrefix(s[1..]);
      if rest.None? then None else Some((s[0] - 128 + 128 * rest.value.0, rest.value.1 + 1))
  }

  /** Splits a stream into payloads; None when it does not end at a frame boundary. */
  function ReadFrames(s: seq<Byte>): (r: Option<seq<seq<Byte>>>)
    decreases |s|
  {
    if s == [] then Some([])
    else
      var head := ReadPrefix(s);
      if head.None? || head.value.1 + head.value.0 > |s| then None
      else
        var (size, used) := head.value;
        var rest := ReadFrames(s[used + size..]);
        if rest.None? then None else Some([s[used..used + size]] + rest.value)
  }

  function WriteFrames(payloads: seq<seq<Byte>>): (r: seq<Byte>) {
    if payloads == [] then []
    else Prefix(|payloads[0]|) + payloads[0] + WriteFrames(payloads[1..])
  }

  /** The prefix of a length reads back as that length, whatever follows; so no prefix begins another. */
  lemma {:induction false} PrefixReadsBack(size: nat, rest: seq<Byte>)
    ensures ReadPrefix(Prefix(size) + rest) == Some((size, |Prefix(size)|))
  {
    var s := Prefix(size) + rest;
    if size >= 128 {
      PrefixReadsBack(size / 128, rest);
      assert s[1..] == Prefix(size / 128) + rest;
    }
  }

  /** Continuation bytes, then one byte below 128 that is not a superfluous zero. */
  predicate Minimal(p: seq<Byte>) {
    && p != [] && p[|p| - 1] < 128 && (|p| > 1 ==> p[|p| - 1] > 0)
    && forall i :: 0 <= i < |p| - 1 ==> p[i] >= 128
  }

  /** The prefix is the only minimal byte string that reads as the length. */
  lemma {:induction false} PrefixIsMinimal(size: nat, p: seq<Byte>)
    ensures p == Prefix(size) <==> Minimal(p) && ReadPrefix(p) == Some((size, |p|))
    decreases size
  {
    PrefixReadsBack(size, []);
    assert Prefix(size) + [] == Prefix(size);
    if size >= 128 {
      PrefixIsMinimal(size / 128, Prefix(size / 128));
      if Minimal(p) && ReadPrefix(p) == Some((size, |p|)) {
        OneByteLess(size, p);
        PrefixIsMinimal(size / 128, p[1..]);
        assert p == [p[0]] + p[1..];
      }
    } else if Minimal(p) && ReadPrefix(p) == Some((size, |p|)) {
      SmallIsOneByte(size, p);
    }
  }

  lemma OneByteLess(size: nat, p: seq<Byte>)
    requires size >= 128 && Minimal(p) && ReadPrefix(p) == Some((size, |p|))
    ensures p[0] == size % 128 + 128 && |p| > 1 && Minimal(p[1..]) && ReadPrefix(p[1..]) == Some((size / 128, |p| - 1))
  {
    MoreThanOneByte(size, p);
    MinimalTail(p);
    var rest := ReadTail(size, p);
    hide ReadPrefix, Minimal;
    SplitSeven(p[0] - 128, rest);
  }

  lemma MoreThanOneByte(size: nat, p: seq<Byte>)
    requires size >= 128 && Minimal(p) && ReadPrefix(p) == Some((size, |p|))
    ensures |p| > 1
  {
  }

  lemma MinimalTail(p: seq<Byte>)
    requires Minimal(p) && |p| > 1
    ensures p[0] >= 128 && Minimal(p[1..])
  {
    assert p[1..][|p| - 2] == p[|p| - 1];
  }

  lemma ReadTail(size: nat, p: seq<Byte>) returns (rest: nat)
    requires |p| > 1 && p[0] >= 128 && ReadPrefix(p) == Some((size, |p|))
    ensures ReadPrefix(p[1..]) == Some((rest, |p| - 1)) && size == p[0] - 128 + 128 * rest
  {
    rest := ReadPrefix(p[1..]).value.0;
  }

  lemma SplitSeven(low: nat, high: nat)
    requires low < 128
    ensures (low + 128 * high) % 128 == low && (low + 128 * high) / 128 == high
  {
  }

  lemma {:induction false} MinimalIsPositive(p: seq<Byte>)
    requires Minimal(p) && |p| > 1
    ensures ReadPrefix(p).Some? && ReadPrefix(p).value.0 >= 128
  {
    if |p| > 2 {
      MinimalIsPositive(p[1..]);
    } else {
      assert p[1..] == [p[1]] && ReadPrefix(p[1..]) == Some((p[1], 1));
    }
  }

  lemma SmallIsOneByte(size: nat, p: seq<Byte>)
    requires size < 128 && Minimal(p) && ReadPrefix(p) == Some((size, |p|))
    ensures p == [size]
  {
    if |p| > 1 {
      MinimalIsPositive(p);
    }
  }

  /** 300 is 2 * 128 + 44. */
  lemma SamplePrefix()
    ensures Prefix(300) == [0xAC, 0x02]
  {
    assert Prefix(2) == [2];
  }

  /** A concatenation of frames reads back as exactly the list of payloads. */
  lemma {:induction false} FramesReadBack(payloads: seq<seq<Byte>>)
    ensures ReadFrames(WriteFrames(payloads)) == Some(payloads)
  {
    if payloads != [] {
      var p := payloads[0];
      var rest := WriteFrames(payloads[1..]);
      var s := WriteFrames(payloads);
      var used := |Prefix(|p|)|;
      assert s == Prefix(|p|) + (p + rest);
      PrefixReadsBack(|p|, p + rest);
      assert s[used..used + |p|] == p && s[used + |p|..] == rest;
      FramesReadBack(payloads[1..]);
      assert payloads == [p] + payloads[1..];
    }
  }
}
