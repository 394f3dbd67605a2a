/** Strict UTF-8, as Python's str.encode and bytes.decode implement it: lone surrogates cannot be
    encoded, and the decoder refuses overlong forms, surrogates and values above U+10FFFF. */
module Utf8 {
  import opened Common

  /** A Python string is a sequence of code points, lone surrogates included. */
  type CodePoint = c: int | 0 <= c <= 0x10FFFF

  type Text = seq<CodePoint>

  predicate IsSurrogate(c: CodePoint) { 0xD800 <= c <= 0xDFFF }

  /** Six payload bits per continuation byte: the low six bits and what is left above them. */
  function Low(c: nat): (r: Byte)
    ensures r < 0x40
  { c % 0x40 }

  function High(c: nat): nat { c / 0x40 }

  function EncodePoint(c: CodePoint): Bytes
    requires !IsSurrogate(c)
  {
    if c < 0x80 then [c]
    else if c < 0x800 then [0xC0 + High(c), 0x80 + Low(c)]
    else if c < 0x1_0000 then [0xE0 + High(High(c)), 0x80 + Low(High(c)), 0x80 + Low(c)]
    else [0xF0 + High(High(High(c))), 0x80 + Low(High(High(c))), 0x80 + Low(High(c)), 0x80 + Low(c)]
  }

  /** None is Python's UnicodeEncodeError. */
  function Encode(text: Text): Option<Bytes> {
    if text == [] then Some([])
    else if IsSurrogate(text[0]) then None
    else
      var rest := Encode(text[1..]);
      if rest.None? then None else Some(EncodePoint(text[0]) + rest.value)
  }

  predicate IsContinuation(b: Byte) { 0x80 <= b < 0xC0 }

  /** Appends six payload bits. */
  function Push(high: nat, continuation: Byte): nat
    requires IsContinuation(continuation)
  { high * 0x40 + (continuation - 0x80) }

  /** The code point at the front of the input and the number of bytes it takes. */
  function DecodePoint(bs: Bytes): (r: Option<(CodePoint, nat)>)
    ensures r.Some? ==> 1 <= r.value.1 <= |bs|
  {
    if bs == [] then None
    else if bs[0] < 0x80 then Some((bs[0], 1))
    else if 0xC2 <= bs[0] < 0xE0 && |bs| >= 2 && IsContinuation(bs[1]) then
      Some((Push(bs[0] - 0xC0, bs[1]), 2))
    else if 0xE0 <= bs[0] < 0xF0 && |bs| >= 3 && IsContinuation(bs[1]) && IsContinuation(bs[2]) then
      var c := Push(Push(bs[0] - 0xE0, bs[1]), bs[2]);
      if 0x800 <= c && !IsSurrogate(c) then Some((c, 3)) else None
    else if 0xF0 <= bs[0] < 0xF5 && |bs| >= 4
            && IsContinuation(bs[1]) && IsContinuation(bs[2]) && IsContinuation(bs[3]) then
      var c := Push(Push(Push(bs[0] - 0xF0, bs[1]), bs[2]), bs[3]);
      if 0x1_0000 <= c <= 0x10FFFF then Some((c, 4)) else None
    else None
  }

  /** None is Python's UnicodeDecodeError. */
  function Decode(bs: Bytes): Option<Text>
    decreases |bs|
  {
    if bs == [] then Some([])
    else
      var point := DecodePoint(bs);
      if point.None? then None
      else
        var rest := Decode(bs[point.value.1..]);
        if rest.None? then None else Some([point.value.0] + rest.value)
  }

  lemma PointRoundTrip(c: CodePoint, rest: Bytes)
    requires !IsSurrogate(c)
    ensures DecodePoint(EncodePoint(c) + rest) == Some((c, |EncodePoint(c)|))
  {
    var bs := EncodePoint(c) + rest;
    assert forall i | 0 <= i < |EncodePoint(c)| :: bs[i] == EncodePoint(c)[i];
  }

  lemma PushSplits(high: nat, continuation: Byte)
    requires IsContinuation(continuation)
    ensures High(Push(high, continuation)) == high && 0x80 + Low(Push(high, continuation)) == continuation
  {
  }

  lemma PointCanonical(bs: Bytes)
    requires DecodePoint(bs).Some?
    ensures var (c, n) := DecodePoint(bs).value; !IsSurrogate(c) && EncodePoint(c) == bs[..n]
  {
    var (c, n) := DecodePoint(bs).value;
    if n == 2 {
      PushSplits(bs[0] - 0xC0, bs[1]);
    } else if n == 3 {
      var top := Push(bs[0] - 0xE0, bs[1]);
      PushSplits(bs[0] - 0xE0, bs[1]);
      PushSplits(top, bs[2]);
    } else if n == 4 {
      var top := Push(bs[0] - 0xF0, bs[1]);
      var middle := Push(top, bs[2]);
      PushSplits(bs[0] - 0xF0, bs[1]);
      PushSplits(top, bs[2]);
      PushSplits(middle, bs[3]);
    }
  }

  /** Decoding undoes encoding. */
  lemma {:induction false} RoundTrip(text: Text)
    requires Encode(text).Some?
    ensures Decode(Encode(text).value) == Some(text)
  {
    if text != [] {
      var rest := Encode(text[1..]).value;
      PointRoundTrip(text[0], rest);
      RoundTrip(text[1..]);
      var bs := EncodePoint(text[0]) + rest;
      assert bs[|EncodePoint(text[0])|..] == rest;
      assert [text[0]] + text[1..] == text;
    }
  }

  /** Only the encoder's own output is decodable. */
  lemma {:induction false} Canonical(bs: Bytes)
    requires Decode(bs).Some?
    ensures Encode(Decode(bs).value) == Some(bs)
    decreases |bs|
  {
    hide DecodePoint;
    hide EncodePoint;
    hide IsSurrogate;
    if bs != [] {
      var (c, n) := DecodePoint(bs).value;
      PointCanonical(bs);
      Canonical(bs[n..]);
      var text := Decode(bs).value;
      assert text[1..] == Decode(bs[n..]).value;
      assert bs[..n] + bs[n..] == bs;
    }
  }

  /** The examples of section 7 of RFC 3629: "A<not identical to><Alpha>." and a character outside the basic plane. */
  lemma KnownTexts()
    ensures Encode([0x41, 0x2262, 0x391, 0x2E]) == Some([0x41, 0xE2, 0x89, 0xA2, 0xCE, 0x91, 0x2E])
    ensures Encode([0x233B4]) == Some([0xF0, 0xA3, 0x8E, 0xB4])
    ensures Decode([0xC0, 0x80]).None? && Decode([0xED, 0xA0, 0x80]).None?
  {
    assert EncodePoint(0x2262) == [0xE2, 0x89, 0xA2] && EncodePoint(0x391) == [0xCE, 0x91];
    assert EncodePoint(0x233B4) == [0xF0, 0xA3, 0x8E, 0xB4];
    OneMore(0x2E, [], [], [0x2E], [0x2E]);
    OneMore(0x391, [0x2E], [0x2E], [0x391, 0x2E], [0xCE, 0x91, 0x2E]);
    OneMore(0x2262, [0x391, 0x2E], [0xCE, 0x91, 0x2E], [0x2262, 0x391, 0x2E], [0xE2, 0x89, 0xA2, 0xCE, 0x91, 0x2E]);
    OneMore(0x41, [0x2262, 0x391, 0x2E], [0xE2, 0x89, 0xA2, 0xCE, 0x91, 0x2E], [0x41, 0x2262, 0x391, 0x2E],
            [0x41, 0xE2, 0x89, 0xA2, 0xCE, 0x91, 0x2E]);
    OneMore(0x233B4, [], [], [0x233B4], [0xF0, 0xA3, 0x8E, 0xB4]);
  }

  lemma OneMore(c: CodePoint, rest: Text, encoded: Bytes, text: Text, all: Bytes)
    requires !IsSurrogate(c) && Encode(rest) == Some(encoded)
    requires text == [c] + rest && all == EncodePoint(c) + encoded
    ensures Encode(text) == Some(all)
  {
    assert text[1..] == rest;
  }

  /** Exactly the strings without lone surrogates can be encoded. */
  lemma {:induction false} EncodableIffNoSurrogate(text: Text)
    ensures Encode(text).Some? <==> forall i | 0 <= i < |text| :: !IsSurrogate(text[i])
  {
    if text != [] {
      EncodableIffNoSurrogate(text[1..]);
      assert forall i | 0 < i < |text| :: text[i] == text[1..][i - 1];
    }
  }

  lemma EncodeInjective(a: Text, b: Text)
    requires Encode(a).Some? && Encode(a) == Encode(b)
    ensures a == b
  {
    RoundTrip(a);
    RoundTrip(b);
  }
}
