/** A run in which a version is closed with an epoch older than a result stored under it: a reservation that ends in a
    nonce collision disables with the epoch its request started with, and another request has completed meanwhile. */
module IdempotencyLateDisable {
  import opened Common
  import opened Framing
  import opened ResponseCodec
  import opened AssociatedData
  import opened IdempotencyModel
  import opened IdempotencyTransactions
  import opened IdempotencyRuns
  import opened IdempotencyCalls
  import Utf8

  function Zeros(n: nat): (bs: Bytes)
    ensures |bs| == n
  {
    if n == 0 then [] else [0] + Zeros(n - 1)
  }

  const WORD: Text := [65]
  const DIGEST := Zeros(32)
  const LABEL := Label(WORD)
  const KEY := KeyVersion(LABEL, DIGEST)
  const RING := Keyring(LABEL, [KEY])
  const NONCE := Zeros(NONCE_BYTES)
  const REQUEST := Invocation(ResultId(WORD, WORD, WORD, DIGEST), DIGEST, 60)
  const ANSWER := Response(200, [], None, None)

  // ---- what is sealed fits its frames -------------------------------------------------------

  predicate Fits(part: Option<Bytes>) { part.Some? && |part.value| <= 100 }

  lemma {:induction false} PlainTextFits(text: Text)
    requires forall i | 0 <= i < |text| :: text[i] < 0x80
    ensures Utf8.Encode(text).Some? && |Utf8.Encode(text).value| == |text|
  {
    if text != [] {
      forall i | 0 <= i < |text[1..]| ensures text[1..][i] < 0x80 { assert text[1..][i] == text[i + 1]; }
      PlainTextFits(text[1..]);
    }
  }

  lemma {:induction false} JoinFits(parts: seq<Option<Bytes>>)
    requires forall i | 0 <= i < |parts| :: Fits(parts[i])
    ensures Join(parts).Some? && |Join(parts).value| <= 100 * |parts|
  {
    if parts != [] {
      assert Fits(parts[0]);
      forall i | 0 <= i < |parts[1..]| ensures Fits(parts[1..][i]) { assert parts[1..][i] == parts[i + 1]; }
      JoinFits(parts[1..]);
    }
  }

  lemma TextFieldFits(text: Text)
    requires |text| <= 64 && forall i | 0 <= i < |text| :: text[i] < 0x80
    ensures Fits(EncodeText(text))
  {
    PlainTextFits(text);
  }

  function Inner(created: Epoch, expires: Epoch): ResponseAadInput {
    ResponseAadInput(ENVELOPE_FORMAT_VERSION, WORD, WORD, WORD, DIGEST, DIGEST, 200, JSON_CONTENT_TYPE, WORD,
                     created, expires)
  }

  lemma NumberFits(n: int)
    requires 0 <= n < 0x8000_0000_0000_0000
    ensures Fits(Int64(n))
  {
  }

  lemma DigestFits()
    ensures Fits(LengthPrefix(DIGEST))
  {
  }

  lemma WordsFit()
    ensures Fits(EncodeText(WORD)) && Fits(EncodeText(JSON_CONTENT_TYPE))
  {
    TextFieldFits(WORD);
    TextFieldFits(JSON_CONTENT_TYPE);
  }

  lemma FieldsFit(created: Epoch, expires: Epoch)
    requires 0 <= created <= expires < 0x8000_0000_0000_0000
    ensures var fields := AadFields(Inner(created, expires)); forall i | 0 <= i < |fields| :: Fits(fields[i])
  {
    hide Fits;
    hide EncodeText;
    hide LengthPrefix;
    hide Int64;
    WordsFit();
    DigestFits();
    NumberFits(1);
    NumberFits(200);
    NumberFits(created);
    NumberFits(expires);
  }

  lemma InnerAadFits(created: Epoch, expires: Epoch)
    requires 0 <= created <= expires < 0x8000_0000_0000_0000
    ensures var aad := BuildResponseAad(Inner(created, expires)); aad.Some? && |aad.value| < 0x1_0000_0000
  {
    hide Fits;
    hide AadFields;
    hide Join;
    FieldsFit(created, expires);
    AadIsShort();
    JoinFits(AadFields(Inner(created, expires)));
    ElevenFields(Inner(created, expires));
  }

  lemma AadIsShort()
    ensures |RESPONSE_AAD_DOMAIN| < 100 && |DIGEST| == 32
  {
  }

  lemma ElevenFields(m: ResponseAadInput)
    ensures |AadFields(m)| == 11
  {
  }

  lemma EnvelopeFits(aad: Bytes)
    requires |aad| < 0x1_0000_0000
    ensures BuildEnvelopeAad(ENVELOPE_FORMAT_VERSION, WORD, aad).Some?
  {
    hide EncodeText;
    hide Int64;
    WordsFit();
    NumberFits(1);
    var a, b, c := Int64(ENVELOPE_FORMAT_VERSION), EncodeText(WORD), LengthPrefix(aad);
    assert [a, b, c] == [a] + [b, c] && [b, c] == [b] + [c] && [c] == [c] + [];
    JoinCons(c, []);
    JoinCons(b, [c]);
    JoinCons(a, [b, c]);
  }

  lemma AadFits(created: Epoch, expires: Epoch)
    requires 0 <= created <= expires < 0x8000_0000_0000_0000
    ensures RowAad(REQUEST.ReservationOwner(), ENVELOPE_FORMAT_VERSION, 200, LABEL, created, expires).Some?
  {
    hide BuildResponseAad;
    hide BuildEnvelopeAad;
    InnerAadFits(created, expires);
    EnvelopeFits(BuildResponseAad(Inner(created, expires)).value);
  }

  lemma AnswerEncodes()
    ensures EncodePlaintext(ANSWER).Some?
  {
    PlaintextEncodable(ANSWER);
  }

  lemma AnswerSeals(now: Epoch)
    requires 0 <= now && now + 60 < 0x8000_0000_0000_0000
    ensures SealOutcome(Some(RING), REQUEST.ReservationOwner(), Reservation(LABEL, 1, NONCE, now), ANSWER, now,
                        now + 60).WasSealed?
  {
    hide RowAad;
    hide EncodePlaintext;
    AadFits(now, now + 60);
    AnswerEncodes();
  }

  // ---- the run ------------------------------------------------------------------------------

  /** The registered key and nothing else. */
  function Registered(): Db { Db(map[LABEL := FreshVersion(KEY, 0)], map[], []) }

  function Completed(): Option<Outcome> { Some(Outcome(ANSWER, None)) }

  function ReservationAt(now: Epoch): Reservation { Reservation(LABEL, 1, NONCE, now) }

  /** The database after one reservation. */
  function ReservedAt(now: Epoch): Db {
    Db(map[LABEL := FreshVersion(KEY, 0).(slots := 1)],
       map[NonceId(LABEL, NONCE) := NonceRow(1, now, REQUEST.ReservationOwner(), None)], [])
  }

  lemma RingIsValid()
    ensures ValidKeyring(RING) && ValidOwner(REQUEST.ReservationOwner())
    ensures RegisterKeys(Db(map[], map[], []), RING.keys, 0) == Ok(Registered())
    ensures Ready(Registered(), Some(RING))
  {
    assert RING.keys[1..] == [] && RING.keys[0].version == RING.active;
  }

  /** Request 0 has looked up at time 0 and is about to reserve; meanwhile the clock has moved on. */
  lemma Prepared(late: Epoch)
    requires late > 0
    ensures Run(Start(0), [OpenStore(RING), Execute(0, Some(RING), REQUEST), LookUp(0), Tick(late)])
         == World(Registered(), late, map[0 := Reserving(Some(RING), REQUEST, 0)], [], [], [])
  {
    hide Run;
    hide ValidKeyring;
    hide ValidOwner;
    hide Ready;
    hide RegisterKeys;
    RingIsValid();
    var w := Start(0);
    FourSteps(w, OpenStore(RING), Execute(0, Some(RING), REQUEST), LookUp(0), Tick(late));
    var filled := Next(w, OpenStore(RING));
    assert filled == w.(db := Registered());
    var started := Next(filled, Execute(0, Some(RING), REQUEST));
    assert started == filled.(callers := map[0 := Looking(Some(RING), REQUEST, 0)]);
    var looked := Next(started, LookUp(0));
    assert looked == filled.(callers := map[0 := Reserving(Some(RING), REQUEST, 0)]);
  }

  lemma ReservesFirst(now: Epoch)
    requires now >= 0
    ensures Reserve(Registered(), Some(RING), REQUEST, now, Some(NONCE)) ==
      (ReservedAt(now), Reserved(ReservationAt(now)))
  {
    hide ValidOwner;
    RingIsValid();
    var db, id, owner := Registered(), NonceId(LABEL, NONCE), REQUEST.ReservationOwner();
    assert LedgerAccepts(db, id, 1, owner, now);
    assert db.versions[LABEL := FreshVersion(KEY, 0).(slots := 1)] == ReservedAt(now).versions;
    assert db.ledger[id := NonceRow(1, now, owner, None)] == ReservedAt(now).ledger;
  }

  /** Another request with the same nonce completes in one go. */
  lemma CompletesMeanwhile(late: Epoch)
    requires 0 < late && late + 60 < 0x8000_0000_0000_0000
    ensures var t := ExecuteCall(Registered(), Some(RING), REQUEST, Completed(), Some(NONCE), late, late, late, late);
      var db := t.db;
      && db.versions == ReservedAt(late).versions && NonceId(LABEL, NONCE) in db.ledger
      && |db.results| == 1 && db.results[0].version == LABEL && db.results[0].created == late
  {
    hide ValidOwner;
    hide SealOutcome;
    hide Reserve;
    RingIsValid();
    ReservesFirst(late);
    AnswerSeals(late);
    ClaimsFirst(late);
  }

  lemma ClaimsFirst(now: Epoch)
    ensures var r := Claim(ReservedAt(now), REQUEST, ReservationAt(now), now);
      && r.Ok? && r.value.versions == ReservedAt(now).versions && r.value.results == []
      && MayComplete(r.value, REQUEST.ReservationOwner(), ReservationAt(now))
  {
  }

  /** What belongs to one caller. */
  predicate By(step: Step, d: nat) {
    && !step.Tick? && !step.OpenStore? && !step.Gc? && !step.OperatorDisable? && !step.Drain? && !step.RetireKey?
    && step.caller == d
  }

  lemma OthersStay(w: World, step: Step, d: nat, c: nat)
    requires By(step, d) && c != d
    ensures Next(w, step).PcOf(c) == w.PcOf(c)
  {
    hide Ready;
    hide Classify;
    hide Reserve;
    hide Claim;
    hide Complete;
    hide WriteDisable;
  }

  lemma {:induction false} OthersStayThroughout(w: World, steps: seq<Step>, d: nat, c: nat)
    requires (forall step | step in steps :: By(step, d)) && c != d
    ensures Run(w, steps).PcOf(c) == w.PcOf(c)
    decreases |steps|
  {
    hide Next;
    hide By;
    if steps != [] {
      OthersStay(w, steps[0], d, c);
      OthersStayThroughout(Next(w, steps[0]), steps[1..], d, c);
    }
  }

  lemma Collides(db: Db)
    requires db.versions == ReservedAt(0).versions && NonceId(LABEL, NONCE) in db.ledger
    ensures Reserve(db, Some(RING), REQUEST, 0, Some(NONCE)) == (db, DisableNeeded(LABEL, NonceCollision))
    ensures var after := WriteDisable(db, LABEL, NonceCollision, 0);
      LABEL in after.versions && after.versions[LABEL].writeDisabled == Some(0) && after.results == db.results
  {
    hide ValidOwner;
  }

  /** Request 0 meets the nonce that is taken by now and disables the version as of time 0. */
  lemma CollidesAtLast(w: World)
    requires w.PcOf(0) == Reserving(Some(RING), REQUEST, 0)
    requires w.db.versions == ReservedAt(w.clock).versions && NonceId(LABEL, NONCE) in w.db.ledger
    ensures var n := Run(w, [ReserveNonce(0, Some(NONCE)), DisableAfterRefusal(0)]);
      && LABEL in n.db.versions && n.db.versions[LABEL].writeDisabled == Some(0) && n.db.results == w.db.results
  {
    hide Run;
    hide Reserve;
    hide WriteDisable;
    Collides(w.db);
    var reserve, disable := ReserveNonce(0, Some(NONCE)), DisableAfterRefusal(0);
    var refused := Next(w, reserve);
    assert refused == w.Go(0, Disabling(LABEL, NonceCollision, 0));
    assert [reserve, disable] == [reserve] + [disable];
    InParts(w, [reserve], [disable]);
    OneStep(w, reserve);
    OneStep(refused, disable);
  }

  function LateSteps(late: Epoch): seq<Step> {
    [OpenStore(RING), Execute(0, Some(RING), REQUEST), LookUp(0), Tick(late)]
    + (CallSteps(1, Some(RING), REQUEST, Completed(), Some(NONCE))
       + [ReserveNonce(0, Some(NONCE)), DisableAfterRefusal(0)])
  }

  /** The epoch of a write disable may be older than a result of its version, by as much as the refused request took. */
  lemma DisableEpochCanPredateAResult(late: Epoch)
    requires 0 < late && late + 60 < 0x8000_0000_0000_0000
    ensures var db := Run(Start(0), LateSteps(late)).db;
      && LABEL in db.versions && db.versions[LABEL].writeDisabled == Some(0)
      && exists r | r in db.results :: r.version == LABEL && r.created == late
  {
    hide Run;
    hide Next;
    hide Ready;
    hide CallSteps;
    hide ExecuteCall;
    var first := [OpenStore(RING), Execute(0, Some(RING), REQUEST), LookUp(0), Tick(late)];
    var call := CallSteps(1, Some(RING), REQUEST, Completed(), Some(NONCE));
    var last := [ReserveNonce(0, Some(NONCE)), DisableAfterRefusal(0)];
    var w := Run(Start(0), first);
    var n := Run(w, call);
    InParts(Start(0), first, call + last);
    InParts(w, call, last);
    Prepared(late);
    RingIsValid();
    UndisturbedCall(w, 1, Some(RING), REQUEST, Completed(), Some(NONCE));
    CompletesMeanwhile(late);
    CallIsByOne();
    OthersStayThroughout(w, call, 1, 0);
    CollidesAtLast(n);
    assert n.db.results[0] in n.db.results;
  }

  lemma CallIsByOne()
    ensures forall step | step in CallSteps(1, Some(RING), REQUEST, Completed(), Some(NONCE)) :: By(step, 1)
  {
  }
}
