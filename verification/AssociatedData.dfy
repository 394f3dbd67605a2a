/** Associated data and fingerprint framing. Two different records never share associated data,
    and two different field tuples never share a fingerprint preimage. */
module AssociatedData {
  import opened Common
  import opened Framing
  import opened ResponseCodec
  import Utf8

  const FINGERPRINT_DOMAIN: Bytes := Ascii("vinctor:idempotency-fingerprint:v1")
  const RESPONSE_AAD_DOMAIN: Bytes := Ascii("vinctor:idempotency-response-aad:v1")
  const ENVELOPE_AAD_DOMAIN: Bytes := Ascii("vinctor:idempotency-envelope:v1")
  const ENVELOPE_FORMAT_VERSION := 1
  const JSON_CONTENT_TYPE: Text := Ascii("application/json")

  datatype ResponseAadInput = ResponseAadInput(
    formatVersion: int,
    workspaceId: Text,
    principal: Text,
    operation: Text,
    keyHash: Bytes,
    requestFingerprint: Bytes,
    statusCode: int,
    contentType: Text,
    cipherKeyVersion: Text,
    createdAtEpoch: int,
    expiresAtEpoch: int)

  function AadFields(m: ResponseAadInput): seq<Option<Bytes>> {
    [Int64(m.formatVersion), EncodeText(m.workspaceId), EncodeText(m.principal), EncodeText(m.operation),
     LengthPrefix(m.keyHash), LengthPrefix(m.requestFingerprint), Int64(m.statusCode), EncodeText(m.contentType),
     EncodeText(m.cipherKeyVersion), Int64(m.createdAtEpoch), Int64(m.expiresAtEpoch)]
  }

  /** None covers the wrong digest lengths and every value that does not fit its frame. */
  function BuildResponseAad(m: ResponseAadInput): Option<Bytes> {
    if |m.keyHash| != 32 || |m.requestFingerprint| != 32 then None
    else
      var fields := Join(AadFields(m));
      if fields.None? then None else Some(RESPONSE_AAD_DOMAIN + fields.value)
  }

  function BuildEnvelopeAad(formatVersion: int, version: Text, aad: Bytes): Option<Bytes> {
    var fields := Join([Int64(formatVersion), EncodeText(version), LengthPrefix(aad)]);
    if fields.None? then None else Some(ENVELOPE_AAD_DOMAIN + fields.value)
  }

  function FingerprintParts(fields: seq<Bytes>): (parts: seq<Option<Bytes>>)
    ensures |parts| == |fields|
    ensures forall i | 0 <= i < |fields| :: parts[i] == LengthPrefix(fields[i])
  {
    seq(|fields|, i requires 0 <= i < |fields| => LengthPrefix(fields[i]))
  }

  function EncodeFingerprintFields(fields: seq<Bytes>): Option<Bytes> {
    var parts := Join(FingerprintParts(fields));
    if parts.None? then None else Some(FINGERPRINT_DOMAIN + parts.value)
  }

  // ---- peeling one field at a time ----------------------------------------------------------

  /** Two frames are self-delimiting against each other when equal concatenations split equally. */
  ghost predicate Peels(a: Option<Bytes>, b: Option<Bytes>) {
    forall restA: Bytes, restB: Bytes ::
      a.Some? && b.Some? && a.value + restA == b.value + restB ==> a == b && restA == restB
  }

  lemma PrefixedPeels(a: Bytes, b: Bytes)
    ensures Peels(LengthPrefix(a), LengthPrefix(b))
  {
    forall restA: Bytes, restB: Bytes
      | LengthPrefix(a).Some? && LengthPrefix(b).Some?
        && LengthPrefix(a).value + restA == LengthPrefix(b).value + restB
      ensures LengthPrefix(a) == LengthPrefix(b) && restA == restB
    {
      LengthPrefixPeel(a, b, restA, restB);
    }
  }

  lemma Int64Peels(a: int, b: int)
    ensures Peels(Int64(a), Int64(b))
  {
    forall restA: Bytes, restB: Bytes
      | Int64(a).Some? && Int64(b).Some? && Int64(a).value + restA == Int64(b).value + restB
      ensures Int64(a) == Int64(b) && restA == restB
    {
      Int64Peel(a, b, restA, restB);
    }
  }

  lemma TextPeels(a: Text, b: Text)
    ensures Peels(EncodeText(a), EncodeText(b))
  {
    if EncodeText(a).Some? && EncodeText(b).Some? {
      PrefixedPeels(Utf8.Encode(a).value, Utf8.Encode(b).value);
    }
  }

  /** A join of pairwise self-delimiting frames determines every frame. */
  lemma {:induction false} JoinPeels(a: seq<Option<Bytes>>, b: seq<Option<Bytes>>)
    requires |a| == |b| && (forall i | 0 <= i < |a| :: Peels(a[i], b[i]))
    requires Join(a).Some? && Join(a) == Join(b)
    ensures a == b
  {
    if a != [] {
      assert Peels(a[0], b[0]);
      assert Join(a[1..]) == Join(b[1..]);
      forall i | 0 <= i < |a[1..]| ensures Peels(a[1..][i], b[1..][i]) {
        assert Peels(a[i + 1], b[i + 1]);
      }
      JoinPeels(a[1..], b[1..]);
      assert a == [a[0]] + a[1..] && b == [b[0]] + b[1..];
    }
  }

  lemma {:induction false} JoinNeedsEveryPart(parts: seq<Option<Bytes>>, i: nat)
    requires Join(parts).Some? && i < |parts|
    ensures parts[i].Some?
  {
    if i > 0 { JoinNeedsEveryPart(parts[1..], i - 1); }
  }

  lemma SameField(a: Text, b: Text)
    requires EncodeText(a).Some? && EncodeText(a) == EncodeText(b)
    ensures a == b
  {
    var x, y := Utf8.Encode(a).value, Utf8.Encode(b).value;
    LengthPrefixPeel(x, y, [], []);
    Utf8.EncodeInjective(a, b);
  }

  lemma SameInt(a: int, b: int)
    requires Int64(a).Some? && Int64(a) == Int64(b)
    ensures a == b
  {
    Int64Peel(a, b, [], []);
  }

  lemma AadFieldsPeel(m: ResponseAadInput, n: ResponseAadInput)
    ensures forall i | 0 <= i < 11 :: Peels(AadFields(m)[i], AadFields(n)[i])
  {
    hide Peels;
    Int64Peels(m.formatVersion, n.formatVersion);
    TextPeels(m.workspaceId, n.workspaceId);
    TextPeels(m.principal, n.principal);
    TextPeels(m.operation, n.operation);
    PrefixedPeels(m.keyHash, n.keyHash);
    PrefixedPeels(m.requestFingerprint, n.requestFingerprint);
    Int64Peels(m.statusCode, n.statusCode);
    TextPeels(m.contentType, n.contentType);
    TextPeels(m.cipherKeyVersion, n.cipherKeyVersion);
    Int64Peels(m.createdAtEpoch, n.createdAtEpoch);
    Int64Peels(m.expiresAtEpoch, n.expiresAtEpoch);
  }

  /** Equal associated data means equal metadata in all eleven fields. */
  lemma ResponseAadInjective(m: ResponseAadInput, n: ResponseAadInput)
    requires BuildResponseAad(m).Some? && BuildResponseAad(m) == BuildResponseAad(n)
    ensures m == n
  {
    var a, b := AadFields(m), AadFields(n);
    assert BuildResponseAad(m).value[|RESPONSE_AAD_DOMAIN|..] == Join(a).value;
    assert BuildResponseAad(n).value[|RESPONSE_AAD_DOMAIN|..] == Join(b).value;
    hide Peels;
    AadFieldsPeel(m, n);
    JoinPeels(a, b);
    forall i | 0 <= i < 11 ensures a[i].Some? && a[i] == b[i] { JoinNeedsEveryPart(a, i); }
    assert a[0] == b[0] && a[1] == b[1] && a[2] == b[2] && a[3] == b[3] && a[4] == b[4] && a[5] == b[5];
    assert a[6] == b[6] && a[7] == b[7] && a[8] == b[8] && a[9] == b[9] && a[10] == b[10];
    SameInt(m.formatVersion, n.formatVersion);
    SameField(m.workspaceId, n.workspaceId);
    SameField(m.principal, n.principal);
    SameField(m.operation, n.operation);
    LengthPrefixPeel(m.keyHash, n.keyHash, [], []);
    LengthPrefixPeel(m.requestFingerprint, n.requestFingerprint, [], []);
    SameInt(m.statusCode, n.statusCode);
    SameField(m.contentType, n.contentType);
    SameField(m.cipherKeyVersion, n.cipherKeyVersion);
    SameInt(m.createdAtEpoch, n.createdAtEpoch);
    SameInt(m.expiresAtEpoch, n.expiresAtEpoch);
  }

  /** The envelope around the associated data determines format, key version and inner data. */
  lemma EnvelopeAadInjective(f1: int, v1: Text, a1: Bytes, f2: int, v2: Text, a2: Bytes)
    requires BuildEnvelopeAad(f1, v1, a1).Some?
    requires BuildEnvelopeAad(f1, v1, a1) == BuildEnvelopeAad(f2, v2, a2)
    ensures f1 == f2 && v1 == v2 && a1 == a2
  {
    var a := [Int64(f1), EncodeText(v1), LengthPrefix(a1)];
    var b := [Int64(f2), EncodeText(v2), LengthPrefix(a2)];
    assert BuildEnvelopeAad(f1, v1, a1).value[|ENVELOPE_AAD_DOMAIN|..] == Join(a).value;
    assert BuildEnvelopeAad(f2, v2, a2).value[|ENVELOPE_AAD_DOMAIN|..] == Join(b).value;
    hide Peels;
    Int64Peels(f1, f2);
    TextPeels(v1, v2);
    PrefixedPeels(a1, a2);
    JoinPeels(a, b);
    forall i | 0 <= i < 3 ensures a[i].Some? && a[i] == b[i] { JoinNeedsEveryPart(a, i); }
    assert a[0] == b[0] && a[1] == b[1] && a[2] == b[2];
    SameInt(f1, f2);
    SameField(v1, v2);
    LengthPrefixPeel(a1, a2, [], []);
  }

  lemma PrefixedNonEmpty(value: Bytes)
    requires LengthPrefix(value).Some?
    ensures |LengthPrefix(value).value| >= 4
  {
  }

  /** Field tuples of any length, also of different lengths, have different preimages. */
  lemma {:induction false} FingerprintPartsInjective(a: seq<Bytes>, b: seq<Bytes>)
    requires Join(FingerprintParts(a)).Some? && Join(FingerprintParts(a)) == Join(FingerprintParts(b))
    ensures a == b
  {
    var p, q := FingerprintParts(a), FingerprintParts(b);
    if a != [] && b != [] {
      assert p[1..] == FingerprintParts(a[1..]) && q[1..] == FingerprintParts(b[1..]);
      LengthPrefixPeel(a[0], b[0], Join(p[1..]).value, Join(q[1..]).value);
      FingerprintPartsInjective(a[1..], b[1..]);
      assert a == [a[0]] + a[1..] && b == [b[0]] + b[1..];
    } else if a != [] {
      PrefixedNonEmpty(a[0]);
    } else if b != [] {
      PrefixedNonEmpty(b[0]);
    }
  }

  lemma FingerprintInjective(a: seq<Bytes>, b: seq<Bytes>)
    requires EncodeFingerprintFields(a).Some? && EncodeFingerprintFields(a) == EncodeFingerprintFields(b)
    ensures a == b
  {
    assert EncodeFingerprintFields(a).value[|FINGERPRINT_DOMAIN|..] == Join(FingerprintParts(a)).value;
    assert EncodeFingerprintFields(b).value[|FINGERPRINT_DOMAIN|..] == Join(FingerprintParts(b)).value;
    FingerprintPartsInjective(a, b);
  }

  // ---- which records have associated data, and how it is laid out ---------------------------

  predicate Signed64(n: int) { -0x8000_0000_0000_0000 <= n < 0x8000_0000_0000_0000 }

  lemma {:induction false} JoinNeedsAll(parts: seq<Option<Bytes>>)
    ensures Join(parts).Some? <==> forall i | 0 <= i < |parts| :: parts[i].Some?
  {
    if parts != [] {
      JoinNeedsAll(parts[1..]);
      assert forall i | 0 < i < |parts| :: parts[i] == parts[1..][i - 1];
    }
  }

  lemma TextFrames(text: Text)
    ensures EncodeText(text).Some? <==> EncodableText(Some(text))
  {
    EncodableMeansNoSurrogate(Some(text));
  }

  /** A record has associated data exactly when both digests have 32 bytes, every number fits in 64 bits and every
      text can be encoded and framed. */
  lemma ResponseAadExists(m: ResponseAadInput)
    ensures BuildResponseAad(m).Some? <==>
      && |m.keyHash| == 32 && |m.requestFingerprint| == 32
      && Signed64(m.formatVersion) && Signed64(m.statusCode)
      && Signed64(m.createdAtEpoch) && Signed64(m.expiresAtEpoch)
      && EncodableText(Some(m.workspaceId)) && EncodableText(Some(m.principal)) && EncodableText(Some(m.operation))
      && EncodableText(Some(m.contentType)) && EncodableText(Some(m.cipherKeyVersion))
  {
    hide EncodeText;
    hide EncodableText;
    hide Join;
    var parts := AadFields(m);
    JoinNeedsAll(parts);
    TextFrames(m.workspaceId);
    TextFrames(m.principal);
    TextFrames(m.operation);
    TextFrames(m.contentType);
    TextFrames(m.cipherKeyVersion);
    assert (forall i | 0 <= i < |parts| :: parts[i].Some?) <==>
      && parts[0].Some? && parts[1].Some? && parts[2].Some? && parts[3].Some? && parts[4].Some? && parts[5].Some?
      && parts[6].Some? && parts[7].Some? && parts[8].Some? && parts[9].Some? && parts[10].Some?;
  }

  lemma {:induction false} NextPart(parts: seq<Option<Bytes>>, first: Option<Bytes>, rest: seq<Option<Bytes>>)
    requires parts == [first] + rest && Join(parts).Some?
    ensures first.Some? && Join(rest).Some? && Join(parts).value == first.value + Join(rest).value
  {
    JoinCons(first, rest);
  }

  /** The layout: the domain, and behind it each field in this order. */
  lemma ResponseAadLayout(m: ResponseAadInput) returns (head: Bytes, tail: Bytes)
    requires BuildResponseAad(m).Some?
    ensures Int64(m.formatVersion).Some? && EncodeText(m.workspaceId).Some? && EncodeText(m.principal).Some?
    ensures EncodeText(m.operation).Some? && LengthPrefix(m.keyHash).Some? && LengthPrefix(m.requestFingerprint).Some?
    ensures Int64(m.statusCode).Some? && EncodeText(m.contentType).Some? && EncodeText(m.cipherKeyVersion).Some?
    ensures Int64(m.createdAtEpoch).Some? && Int64(m.expiresAtEpoch).Some?
    ensures BuildResponseAad(m).value == Ascii("vinctor:idempotency-response-aad:v1") + (head + tail)
    ensures head == Int64(m.formatVersion).value + (EncodeText(m.workspaceId).value + (
                    EncodeText(m.principal).value + (EncodeText(m.operation).value + (
                    LengthPrefix(m.keyHash).value + LengthPrefix(m.requestFingerprint).value))))
    ensures tail == Int64(m.statusCode).value + (EncodeText(m.contentType).value + (
                    EncodeText(m.cipherKeyVersion).value + (
                    Int64(m.createdAtEpoch).value + Int64(m.expiresAtEpoch).value)))
  {
    hide Int64;
    hide EncodeText;
    hide LengthPrefix;
    hide Join;
    var f := AadFields(m);
    JoinNeedsAll(f);
    tail := TailLayout(f[6..]);
    head := HeadLayout(f, tail);
  }

  lemma TailLayout(f: seq<Option<Bytes>>) returns (tail: Bytes)
    requires |f| == 5 && forall i | 0 <= i < 5 :: f[i].Some?
    ensures Join(f) == Some(tail)
    ensures tail == f[0].value + (f[1].value + (f[2].value + (f[3].value + f[4].value)))
  {
    hide Join;
    JoinNeedsAll(f);
    tail := Join(f).value;
    NextPart(f, f[0], f[1..]);
    NextPart(f[1..], f[1], f[2..]);
    NextPart(f[2..], f[2], f[3..]);
    NextPart(f[3..], f[3], f[4..]);
    NextPart(f[4..], f[4], []);
    EmptyJoin();
    assert f[4].value + [] == f[4].value;
  }

  lemma EmptyJoin()
    ensures Join([]) == Some([])
  {
  }

  lemma HeadLayout(f: seq<Option<Bytes>>, tail: Bytes) returns (head: Bytes)
    requires |f| == 11 && (forall i | 0 <= i < 11 :: f[i].Some?) && Join(f[6..]) == Some(tail)
    ensures Join(f) == Some(head + tail)
    ensures head == f[0].value + (f[1].value + (f[2].value + (f[3].value + (f[4].value + f[5].value))))
  {
    hide Join;
    JoinNeedsAll(f);
    NextPart(f, f[0], f[1..]);
    NextPart(f[1..], f[1], f[2..]);
    NextPart(f[2..], f[2], f[3..]);
    NextPart(f[3..], f[3], f[4..]);
    NextPart(f[4..], f[4], f[5..]);
    NextPart(f[5..], f[5], f[6..]);
    var h4 := f[4].value + f[5].value;
    var h3 := f[3].value + h4;
    var h2 := f[2].value + h3;
    var h1 := f[1].value + h2;
    head := f[0].value + h1;
    assert f[4].value + (f[5].value + tail) == h4 + tail;
    assert f[3].value + (h4 + tail) == h3 + tail;
    assert f[2].value + (h3 + tail) == h2 + tail;
    assert f[1].value + (h2 + tail) == h1 + tail;
    assert f[0].value + (h1 + tail) == head + tail;
  }
}
