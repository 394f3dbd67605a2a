/** The stored response plaintext: what a completed request saves and what a retry reads back. */
module ResponseCodec {
  import opened Common
  import opened Framing
  import Utf8

  type Text = Utf8.Text

  /** A serialized HTTP response; its content type is always application/json. */
  datatype Response = Response(status: int, body: Bytes, errorCode: Option<Text>, decision: Option<Text>)

  const RESPONSE_PLAINTEXT_DOMAIN: Bytes := Ascii("vinctor:idempotency-response-plaintext:v1")

  function EncodeText(text: Text): Option<Bytes> {
    var encoded := Utf8.Encode(text);
    if encoded.None? then None else LengthPrefix(encoded.value)
  }

  function EncodeOptionalText(value: Option<Text>): Option<Bytes> {
    match value
    case None => Some([0])
    case Some(text) =>
      var field := EncodeText(text);
      if field.None? then None else Some([1] + field.value)
  }

  function EncodePlaintext(response: Response): Option<Bytes> {
    Join([Some(RESPONSE_PLAINTEXT_DOMAIN), LengthPrefix(response.body),
          EncodeOptionalText(response.errorCode), EncodeOptionalText(response.decision)])
  }

  function ReadOptionalText(payload: Bytes, offset: nat): Option<(Option<Text>, nat)> {
    if offset >= |payload| then None
    else if payload[offset] == 0 then Some((None, offset + 1))
    else if payload[offset] == 1 then
      var field := ReadLengthPrefixed(payload, offset + 1);
      if field.None? then None
      else
        var text := Utf8.Decode(field.value.0);
        if text.None? then None else Some((Some(text.value), field.value.1))
    else None
  }

  /** Body, error code and decision, with nothing behind them. */
  function DecodeFields(status: int, payload: Bytes, offset: nat): Option<Response> {
    var body := ReadLengthPrefixed(payload, offset);
    if body.None? then None
    else
      var errorCode := ReadOptionalText(payload, body.value.1);
      if errorCode.None? then None
      else
        var decision := ReadOptionalText(payload, errorCode.value.1);
        if decision.None? || decision.value.1 != |payload| then None
        else Some(Response(status, body.value.0, errorCode.value.0, decision.value.0))
  }

  function DecodePlaintext(status: int, plaintext: Bytes): Option<Response> {
    if RESPONSE_PLAINTEXT_DOMAIN <= plaintext
    then DecodeFields(status, plaintext, |RESPONSE_PLAINTEXT_DOMAIN|)
    else None
  }

  lemma JoinOfFour(a: Option<Bytes>, b: Option<Bytes>, c: Option<Bytes>, d: Option<Bytes>)
    ensures Join([a, b, c, d]) == if a.None? || b.None? || c.None? || d.None? then None
                                  else Some(a.value + b.value + c.value + d.value)
  {
    assert [a, b, c, d] == [a] + [b, c, d] && [b, c, d] == [b] + [c, d] && [c, d] == [c] + [d] && [d] == [d] + [];
    JoinCons(a, [b, c, d]);
    JoinCons(b, [c, d]);
    JoinCons(c, [d]);
    JoinCons(d, []);
    if !(a.None? || b.None? || c.None? || d.None?) {
      assert a.value + (b.value + (c.value + (d.value + []))) == a.value + b.value + c.value + d.value;
    }
  }

  lemma OptionalTextReadBack(before: Bytes, value: Option<Text>, after: Bytes)
    requires EncodeOptionalText(value).Some?
    ensures var field := EncodeOptionalText(value).value;
            ReadOptionalText(before + field + after, |before|) == Some((value, |before| + |field|))
  {
    var field := EncodeOptionalText(value).value;
    var payload := before + field + after;
    assert payload[|before|] == field[0];
    if value.Some? {
      var encoded := Utf8.Encode(value.value).value;
      assert ReadLengthPrefixed(payload, |before| + 1) == Some((encoded, |before| + |field|)) by {
        var prefixed := LengthPrefix(encoded).value;
        assert payload == (before + [1]) + prefixed + after;
        ReadWhatWasWritten(before + [1], encoded, after);
      }
      assert Utf8.Decode(encoded) == Some(value.value) by { Utf8.RoundTrip(value.value); }
    }
  }

  lemma BodyReadBack(before: Bytes, body: Bytes, after: Bytes, payload: Bytes)
    requires LengthPrefix(body).Some?
    requires payload == before + LengthPrefix(body).value + after
    ensures ReadLengthPrefixed(payload, |before|) == Some((body, |before| + |LengthPrefix(body).value|))
  {
    ReadWhatWasWritten(before, body, after);
  }

  lemma OptionalTextReadAt(before: Bytes, value: Option<Text>, after: Bytes, payload: Bytes, offset: nat)
    requires EncodeOptionalText(value).Some? && offset == |before|
    requires payload == before + EncodeOptionalText(value).value + after
    ensures ReadOptionalText(payload, offset) == Some((value, offset + |EncodeOptionalText(value).value|))
  {
    OptionalTextReadBack(before, value, after);
  }

  lemma OptionalTextCanonical(payload: Bytes, offset: nat)
    requires ReadOptionalText(payload, offset).Some?
    ensures var (value, end) := ReadOptionalText(payload, offset).value;
            offset < end <= |payload| && EncodeOptionalText(value) == Some(payload[offset..end])
  {
    var (value, end) := ReadOptionalText(payload, offset).value;
    if value.Some? {
      ReadIsCanonical(payload, offset + 1);
      Utf8.Canonical(ReadLengthPrefixed(payload, offset + 1).value.0);
      assert payload[offset..end] == [1] + payload[offset + 1..end];
    } else {
      assert payload[offset..end] == [0];
    }
  }

  lemma FieldsReadBack(before: Bytes, response: Response, payload: Bytes)
    requires LengthPrefix(response.body).Some?
    requires EncodeOptionalText(response.errorCode).Some? && EncodeOptionalText(response.decision).Some?
    requires payload == before + LengthPrefix(response.body).value
                        + EncodeOptionalText(response.errorCode).value + EncodeOptionalText(response.decision).value
    ensures DecodeFields(response.status, payload, |before|) == Some(response)
  {
    var body := LengthPrefix(response.body).value;
    var errorCode := EncodeOptionalText(response.errorCode).value;
    var decision := EncodeOptionalText(response.decision).value;
    var bodyEnd, errorEnd := |before| + |body|, |before| + |body| + |errorCode|;
    assert ReadLengthPrefixed(payload, |before|) == Some((response.body, bodyEnd)) by {
      BodyReadBack(before, response.body, errorCode + decision, payload);
    }
    assert ReadOptionalText(payload, bodyEnd) == Some((response.errorCode, errorEnd)) by {
      OptionalTextReadAt(before + body, response.errorCode, decision, payload, bodyEnd);
    }
    OptionalTextReadAt(before + body + errorCode, response.decision, [], payload, errorEnd);
  }

  /** Decoding a stored plaintext gives back the first response, field by field. */
  lemma PlaintextRoundTrip(response: Response)
    requires EncodePlaintext(response).Some?
    ensures DecodePlaintext(response.status, EncodePlaintext(response).value) == Some(response)
  {
    JoinOfFour(Some(RESPONSE_PLAINTEXT_DOMAIN), LengthPrefix(response.body),
               EncodeOptionalText(response.errorCode), EncodeOptionalText(response.decision));
    FieldsReadBack(RESPONSE_PLAINTEXT_DOMAIN, response, EncodePlaintext(response).value);
  }

  lemma FieldsCanonical(status: int, payload: Bytes, offset: nat)
    requires DecodeFields(status, payload, offset).Some?
    ensures var r := DecodeFields(status, payload, offset).value;
            && r.status == status && offset <= |payload|
            && LengthPrefix(r.body).Some?
            && EncodeOptionalText(r.errorCode).Some? && EncodeOptionalText(r.decision).Some?
            && payload == payload[..offset] + LengthPrefix(r.body).value
                          + EncodeOptionalText(r.errorCode).value + EncodeOptionalText(r.decision).value
  {
    hide LengthPrefix;
    hide EncodeOptionalText;
    hide ReadLengthPrefixed;
    hide ReadOptionalText;
    var (body, bodyEnd) := ReadLengthPrefixed(payload, offset).value;
    var (errorCode, errorEnd) := ReadOptionalText(payload, bodyEnd).value;
    var (decision, end) := ReadOptionalText(payload, errorEnd).value;
    assert offset < bodyEnd <= |payload| && LengthPrefix(body) == Some(payload[offset..bodyEnd]) by {
      ReadIsCanonical(payload, offset);
    }
    assert bodyEnd < errorEnd <= |payload| && EncodeOptionalText(errorCode) == Some(payload[bodyEnd..errorEnd]) by {
      OptionalTextCanonical(payload, bodyEnd);
    }
    assert EncodeOptionalText(decision) == Some(payload[errorEnd..end]) by {
      OptionalTextCanonical(payload, errorEnd);
    }
    assert payload == payload[..offset] + payload[offset..bodyEnd] + payload[bodyEnd..errorEnd] + payload[errorEnd..];
  }

  /** The decoder accepts canonical encodings only: accepted bytes re-encode to themselves. */
  lemma PlaintextCanonical(status: int, plaintext: Bytes)
    requires DecodePlaintext(status, plaintext).Some?
    ensures EncodePlaintext(DecodePlaintext(status, plaintext).value) == Some(plaintext)
    ensures DecodePlaintext(status, plaintext).value.status == status
  {
    var response := DecodePlaintext(status, plaintext).value;
    FieldsCanonical(status, plaintext, |RESPONSE_PLAINTEXT_DOMAIN|);
    assert plaintext[..|RESPONSE_PLAINTEXT_DOMAIN|] == RESPONSE_PLAINTEXT_DOMAIN;
    JoinOfFour(Some(RESPONSE_PLAINTEXT_DOMAIN), LengthPrefix(response.body),
               EncodeOptionalText(response.errorCode), EncodeOptionalText(response.decision));
  }

  predicate EncodableText(text: Option<Text>) {
    text.Some? ==>
      && (forall i | 0 <= i < |text.value| :: !Utf8.IsSurrogate(text.value[i]))
      && Utf8.Encode(text.value).Some? && |Utf8.Encode(text.value).value| < 0x1_0000_0000
  }

  lemma EncodableMeansNoSurrogate(text: Option<Text>)
    ensures EncodableText(text) <==> text.Some? ==>
      Utf8.Encode(text.value).Some? && |Utf8.Encode(text.value).value| < 0x1_0000_0000
  {
    if text.Some? { Utf8.EncodableIffNoSurrogate(text.value); }
  }

  /** Encoding fails exactly when a length needs more than four bytes or a text holds a lone surrogate. */
  lemma PlaintextEncodable(response: Response)
    ensures EncodePlaintext(response).Some? <==>
            |response.body| < 0x1_0000_0000 && EncodableText(response.errorCode) && EncodableText(response.decision)
  {
    EncodableMeansNoSurrogate(response.errorCode);
    EncodableMeansNoSurrogate(response.decision);
    JoinOfFour(Some(RESPONSE_PLAINTEXT_DOMAIN), LengthPrefix(response.body),
               EncodeOptionalText(response.errorCode), EncodeOptionalText(response.decision));
  }

  /** The stored bytes of one response: the domain, the body behind its length, a marker for the missing error code,
      and a marker and the text behind its length for the decision. */
  lemma KnownPlaintext()
    ensures EncodePlaintext(Response(200, [7, 8, 9], None, Some([111, 107]))) ==
      Some(Ascii("vinctor:idempotency-response-plaintext:v1")
           + ([0, 0, 0, 3, 7, 8, 9] + ([0] + [1, 0, 0, 0, 2, 111, 107])))
  {
    hide LengthPrefix;
    hide Ascii;
    KnownFrames();
    ShortText();
    var a, b, c := RESPONSE_PLAINTEXT_DOMAIN, [0, 0, 0, 3, 7, 8, 9], [1, 0, 0, 0, 2, 111, 107];
    JoinOfFour(Some(a), LengthPrefix([7, 8, 9]), Some([0]), Some(c));
    assert EncodeOptionalText(Some([111, 107])) == Some(c);
    assert a + b + [0] + c == a + (b + ([0] + c));
  }

  lemma ShortText()
    ensures EncodeOptionalText(Some([111, 107])) == Some([1, 0, 0, 0, 2, 111, 107])
  {
    Utf8.OneMore(107, [], [], [107], [107]);
    Utf8.OneMore(111, [107], [107], [111, 107], [111, 107]);
    SmallNumber(2, 4);
    assert BigEndian(2, 4) == [0, 0, 0, 2];
    var ok: Bytes := [111, 107];
    assert |ok| == 2 && LengthPrefix(ok) == Some([0, 0, 0, 2] + ok);
    assert [1] + ([0, 0, 0, 2] + ok) == [1, 0, 0, 0, 2, 111, 107];
  }
}
