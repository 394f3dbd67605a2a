/** Big-endian integers and length-prefixed fields, as used by the plaintext encoder and by the
    associated-data builders. Each piece is injective and can be peeled off the front of a byte string. */
module Framing {
  import opened Common

  const LENGTH_PREFIX_BYTES := 4

  // ---- fixed-width big-endian numbers -------------------------------------------------------

  function Pow256(k: nat): (p: nat)
    ensures p > 0
  {
    if k == 0 then 1 else 256 * Pow256(k - 1)
  }

  function BigEndian(n: nat, k: nat): (bs: Bytes)
    ensures |bs| == k
  {
    if k == 0 then [] else BigEndian(n / 256, k - 1) + [n % 256]
  }

  function FromBigEndian(bs: Bytes): nat {
    if bs == [] then 0 else 256 * FromBigEndian(bs[..|bs| - 1]) + bs[|bs| - 1]
  }

  lemma {:induction false} BigEndianRoundTrip(n: nat, k: nat)
    requires n < Pow256(k)
    ensures FromBigEndian(BigEndian(n, k)) == n
  {
    if k > 0 {
      var bs := BigEndian(n, k);
      assert bs[..k - 1] == BigEndian(n / 256, k - 1);
      BigEndianRoundTrip(n / 256, k - 1);
    }
  }

  lemma {:induction false} FromBigEndianCanonical(bs: Bytes)
    ensures FromBigEndian(bs) < Pow256(|bs|)
    ensures BigEndian(FromBigEndian(bs), |bs|) == bs
  {
    if bs != [] {
      var init := bs[..|bs| - 1];
      FromBigEndianCanonical(init);
      assert FromBigEndian(bs) / 256 == FromBigEndian(init);
      assert bs == init + [bs[|bs| - 1]];
    }
  }

  lemma Pow256Values()
    ensures Pow256(4) == 0x1_0000_0000
    ensures Pow256(8) == 0x1_0000_0000_0000_0000
  {
    assert Pow256(2) == 0x1_0000;
    assert Pow256(4) == 0x1_0000_0000;
    assert Pow256(6) == 0x1_0000_0000_0000;
  }

  // ---- length prefix ------------------------------------------------------------------------

  /** None is Python's OverflowError: the length does not fit in four bytes. */
  function LengthPrefix(value: Bytes): Option<Bytes> {
    if |value| < 0x1_0000_0000 then Some(BigEndian(|value|, LENGTH_PREFIX_BYTES) + value) else None
  }

  /** Reads a length-prefixed field at an offset; the result carries the offset behind the field. */
  function ReadLengthPrefixed(payload: Bytes, offset: nat): Option<(Bytes, nat)> {
    var lengthEnd := offset + LENGTH_PREFIX_BYTES;
    if lengthEnd > |payload| then None
    else
      var valueEnd := lengthEnd + FromBigEndian(payload[offset..lengthEnd]);
      if valueEnd > |payload| then None else Some((payload[lengthEnd..valueEnd], valueEnd))
  }

  /** A field written at an offset is read back whole, and the reader stops right behind it. */
  lemma ReadWhatWasWritten(before: Bytes, value: Bytes, after: Bytes)
    requires LengthPrefix(value).Some?
    ensures var payload := before + LengthPrefix(value).value + after;
            ReadLengthPrefixed(payload, |before|) == Some((value, |before| + 4 + |value|))
  {
    var field := LengthPrefix(value).value;
    var payload := before + field + after;
    Pow256Values();
    BigEndianRoundTrip(|value|, 4);
    assert payload[|before|..|before| + 4] == BigEndian(|value|, 4);
    assert payload[|before| + 4..|before| + 4 + |value|] == value;
  }

  /** Whatever the reader accepts is exactly what the writer would have produced for that value. */
  lemma ReadIsCanonical(payload: Bytes, offset: nat)
    requires ReadLengthPrefixed(payload, offset).Some?
    ensures var (value, end) := ReadLengthPrefixed(payload, offset).value;
            offset < end <= |payload| && LengthPrefix(value) == Some(payload[offset..end])
  {
    var (value, end) := ReadLengthPrefixed(payload, offset).value;
    var header := payload[offset..offset + 4];
    Pow256Values();
    FromBigEndianCanonical(header);
    assert payload[offset..end] == header + payload[offset + 4..end];
  }

  /** A length-prefixed field determines itself and everything behind it. */
  lemma LengthPrefixPeel(a: Bytes, b: Bytes, restA: Bytes, restB: Bytes)
    requires LengthPrefix(a).Some? && LengthPrefix(b).Some?
    requires LengthPrefix(a).value + restA == LengthPrefix(b).value + restB
    ensures a == b && restA == restB
  {
    var whole := LengthPrefix(a).value + restA;
    ReadWhatWasWritten([], a, restA);
    ReadWhatWasWritten([], b, restB);
    assert [] + LengthPrefix(a).value + restA == whole;
    assert [] + LengthPrefix(b).value + restB == whole;
    assert restA == whole[4 + |a|..];
    assert restB == whole[4 + |b|..];
  }

  // ---- signed 64-bit integers ---------------------------------------------------------------

  /** Two's complement in eight bytes; None is Python's OverflowError. */
  function Int64(value: int): Option<Bytes> {
    if -0x8000_0000_0000_0000 <= value < 0x8000_0000_0000_0000
    then Some(BigEndian(if value < 0 then value + 0x1_0000_0000_0000_0000 else value, 8))
    else None
  }

  lemma Int64Peel(a: int, b: int, restA: Bytes, restB: Bytes)
    requires Int64(a).Some? && Int64(b).Some?
    requires Int64(a).value + restA == Int64(b).value + restB
    ensures a == b && restA == restB
  {
    var whole := Int64(a).value + restA;
    assert whole[..8] == Int64(a).value && whole[8..] == restA;
    assert whole[..8] == Int64(b).value && whole[8..] == restB;
    Pow256Values();
    BigEndianRoundTrip(if a < 0 then a + 0x1_0000_0000_0000_0000 else a, 8);
    BigEndianRoundTrip(if b < 0 then b + 0x1_0000_0000_0000_0000 else b, 8);
  }

  lemma {:induction false} ZeroBytes(k: nat)
    ensures BigEndian(0, k) == seq(k, _ => 0)
  {
    if k > 0 { ZeroBytes(k - 1); }
  }

  lemma SmallNumber(n: nat, k: nat)
    requires n < 256 && k > 0
    ensures BigEndian(n, k) == seq(k - 1, _ => 0) + [n]
  {
    ZeroBytes(k - 1);
  }

  lemma {:induction false} AllOnes(k: nat)
    ensures BigEndian(Pow256(k) - 1, k) == seq(k, _ => 255)
  {
    if k > 0 {
      assert (Pow256(k) - 1) / 256 == Pow256(k - 1) - 1 && (Pow256(k) - 1) % 256 == 255;
      AllOnes(k - 1);
    }
  }

  /** Most significant byte first, and negative numbers in two's complement. */
  lemma KnownFrames()
    ensures LengthPrefix([7, 8, 9]) == Some([0, 0, 0, 3, 7, 8, 9])
    ensures Int64(0x0102) == Some([0, 0, 0, 0, 0, 0, 1, 2])
    ensures Int64(-1) == Some([255, 255, 255, 255, 255, 255, 255, 255])
  {
    hide BigEndian;
    SmallNumber(3, 4);
    assert BigEndian(3, 4) == [0, 0, 0, 3];
    SmallNumber(1, 7);
    LastByte(0x0102, 8);
    assert BigEndian(0x0102, 8) == [0, 0, 0, 0, 0, 0, 1, 2];
    Pow256Values();
    AllOnes(8);
    assert seq(8, _ => 255) == [255, 255, 255, 255, 255, 255, 255, 255];
    var three: Bytes := [7, 8, 9];
    assert |three| == 3 && LengthPrefix(three).value == [0, 0, 0, 3] + three;
    assert [0, 0, 0, 3] + three == [0, 0, 0, 3, 7, 8, 9];
  }

  lemma LastByte(n: nat, k: nat)
    requires k > 0
    ensures BigEndian(n, k) == BigEndian(n / 256, k - 1) + [n % 256]
  {
  }

  // ---- joins of optional parts --------------------------------------------------------------

  /** Concatenation that fails as soon as one part cannot be encoded. */
  function Join(parts: seq<Option<Bytes>>): Option<Bytes> {
    if parts == [] then Some([])
    else if parts[0].None? then None
    else
      var rest := Join(parts[1..]);
      if rest.None? then None else Some(parts[0].value + rest.value)
  }

  lemma JoinCons(first: Option<Bytes>, rest: seq<Option<Bytes>>)
    ensures Join([first] + rest) == if first.None? || Join(rest).None? then None
                                    else Some(first.value + Join(rest).value)
  {
    assert ([first] + rest)[1..] == rest;
  }
}
