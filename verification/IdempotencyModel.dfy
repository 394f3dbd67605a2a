/** Values of the encrypted idempotency store: invocations, keyrings, the three tables, and the ideal
    AEAD that seals stored responses. */
module IdempotencyModel {
  import opened Common
  import opened ResponseCodec
  import opened AssociatedData

  datatype Label = Label(text: Text)
  type Epoch = int

  const SOFT_SLOT_LIMIT := 0x80_0000
  const HARD_SLOT_LIMIT := 0x100_0000
  const NONCE_BYTES := 12
  const MAX_TERMINAL_TTL_SECONDS := 86_400
  const REMOVAL_WINDOW_SECONDS := 86_400 + 300
  const GC_BATCH_LIMIT := 100

  // ---- requests -----------------------------------------------------------------------------

  datatype ResultId = ResultId(workspaceId: Text, principal: Text, operation: Text, keyHash: Bytes)

  datatype Owner = Owner(id: ResultId, fingerprint: Bytes)

  datatype Invocation = Invocation(id: ResultId, fingerprint: Bytes, maxTerminalTtl: int) {
    function ReservationOwner(): Owner { Owner(id, fingerprint) }
  }

  /** The check every lookup makes first; the tables carry the same constraints. */
  predicate ValidOwner(o: Owner) {
    && o.id.workspaceId != [] && o.id.principal != [] && o.id.operation != []
    && |o.id.keyHash| == 32 && |o.fingerprint| == 32
  }

  datatype Reservation = Reservation(version: Label, slot: int, nonce: Bytes, reservedAt: Epoch)

  /** What the business mutation returns; None for the whole outcome means that it raised. */
  datatype Outcome = Outcome(response: Response, replayNotAfter: Option<Epoch>)

  datatype Failure =
    | Conflict | ResultUnavailable | WriteUnavailable | CipherUnavailable | EncodingRaised | MutationRaised

  // ---- keys ---------------------------------------------------------------------------------

  datatype KeyVersion = KeyVersion(version: Label, material: Bytes)

  /** SHA-256 is idealised as an injective commitment. */
  datatype Commitment = Commitment(material: Bytes)

  datatype Keyring = Keyring(active: Label, keys: seq<KeyVersion>)

  /** What the loader guarantees: distinct labels, distinct 32-byte materials, an active member. */
  predicate ValidKeyring(kr: Keyring) {
    && (exists i | 0 <= i < |kr.keys| :: kr.keys[i].version == kr.active)
    && (forall i | 0 <= i < |kr.keys| :: |kr.keys[i].material| == 32 && kr.keys[i].version.text != [])
    && (forall i, j | 0 <= i < j < |kr.keys| ::
          kr.keys[i].version != kr.keys[j].version && kr.keys[i].material != kr.keys[j].material)
  }

  function FindKey(keys: seq<KeyVersion>, version: Label): (key: Option<KeyVersion>)
    ensures key.Some? ==> key.value in keys && key.value.version == version
    ensures key.None? ==> forall k | k in keys :: k.version != version
  {
    if keys == [] then None
    else if keys[0].version == version then Some(keys[0])
    else FindKey(keys[1..], version)
  }

  function DecryptionKey(kr: Option<Keyring>, version: Label): Option<KeyVersion> {
    if kr.None? then None else FindKey(kr.value.keys, version)
  }

  // ---- tables -------------------------------------------------------------------------------

  datatype Reason = Rotation | HardLimit | NonceCollision

  datatype VersionRow = VersionRow(
    commitment: Commitment,
    slots: nat,
    firstSeen: Epoch,
    softReported: Option<Epoch>,
    writeDisabled: Option<Epoch>,
    reason: Option<Reason>,
    drained: Option<Epoch>,
    retired: Option<Epoch>)
  {
    predicate Writable() { writeDisabled.None? && retired.None? }
  }

  datatype NonceId = NonceId(version: Label, nonce: Bytes)

  datatype NonceRow = NonceRow(slot: nat, reservedAt: Epoch, owner: Owner, claimedAt: Option<Epoch>)

  /** Ideal AEAD: a ciphertext opens under exactly the key, nonce and associated data it was made with. */
  datatype Ciphertext = Sealed(material: Bytes, nonce: Bytes, aad: Bytes, plaintext: Bytes)

  datatype ResultRow = ResultRow(
    id: ResultId,
    fingerprint: Bytes,
    formatVersion: int,
    status: int,
    version: Label,
    nonce: Bytes,
    ciphertext: Ciphertext,
    created: Epoch,
    expires: Epoch)

  /** Results are kept in rowid order. */
  datatype Db = Db(versions: map<Label, VersionRow>, ledger: map<NonceId, NonceRow>, results: seq<ResultRow>)

  // ---- result rows --------------------------------------------------------------------------

  predicate UniqueResultIds(rows: seq<ResultRow>) {
    forall i, j | 0 <= i < j < |rows| :: rows[i].id != rows[j].id
  }

  function LoadResult(rows: seq<ResultRow>, id: ResultId): (row: Option<ResultRow>)
    ensures row.Some? ==> row.value in rows && row.value.id == id
    ensures row.None? ==> forall r | r in rows :: r.id != id
  {
    if rows == [] then None
    else if rows[0].id == id then Some(rows[0])
    else LoadResult(rows[1..], id)
  }

  /** DELETE of a set of rows; the others keep their order. */
  function Except(rows: seq<ResultRow>, drop: set<ResultRow>): (kept: seq<ResultRow>)
    ensures forall r :: r in kept <==> r in rows && r !in drop
    ensures UniqueResultIds(rows) ==> UniqueResultIds(kept)
  {
    if rows == [] then []
    else
      var rest := Except(rows[1..], drop);
      assert forall i | 0 <= i < |rest| :: rest[i] in rows[1..];
      if rows[0] in drop then rest else [rows[0]] + rest
  }

  function RowSet(rows: seq<ResultRow>): set<ResultRow> { set r | r in rows }

  /** DELETE by primary key. */
  function DeleteResult(rows: seq<ResultRow>, id: ResultId): (kept: seq<ResultRow>)
    ensures forall r :: r in kept <==> r in rows && r.id != id
    ensures UniqueResultIds(rows) ==> UniqueResultIds(kept)
  {
    if rows == [] then []
    else
      var rest := DeleteResult(rows[1..], id);
      assert forall i | 0 <= i < |rest| :: rest[i] in rows[1..];
      if rows[0].id == id then rest else [rows[0]] + rest
  }

  lemma SameIdSameRow(rows: seq<ResultRow>, a: ResultRow, b: ResultRow)
    requires UniqueResultIds(rows) && a in rows && b in rows && a.id == b.id
    ensures a == b
  {
    var i :| 0 <= i < |rows| && rows[i] == a;
    var j :| 0 <= j < |rows| && rows[j] == b;
  }

  lemma LoadFindsTheRow(rows: seq<ResultRow>, row: ResultRow)
    requires UniqueResultIds(rows) && row in rows
    ensures LoadResult(rows, row.id) == Some(row)
  {
    SameIdSameRow(rows, row, LoadResult(rows, row.id).value);
  }

  // ---- sealing and opening ------------------------------------------------------------------

  function RowAad(owner: Owner, formatVersion: int, status: int, version: Label, created: Epoch,
                  expires: Epoch): Option<Bytes>
  {
    var inner := BuildResponseAad(ResponseAadInput(
      formatVersion, owner.id.workspaceId, owner.id.principal, owner.id.operation, owner.id.keyHash,
      owner.fingerprint, status, JSON_CONTENT_TYPE, version.text, created, expires));
    if inner.None? then None else BuildEnvelopeAad(formatVersion, version.text, inner.value)
  }

  /** One call of the AEAD's encrypt. */
  datatype Sealing = Sealing(version: Label, material: Bytes, nonce: Bytes)

  datatype SealAttempt = NotSealed(failure: Failure) | WasSealed(ciphertext: Ciphertext, sealing: Sealing)

  function SealOutcome(kr: Option<Keyring>, owner: Owner, res: Reservation, response: Response,
                       created: Epoch, expires: Epoch): SealAttempt
  {
    var key := DecryptionKey(kr, res.version);
    if key.None? then NotSealed(WriteUnavailable)
    else
      var aad := RowAad(owner, ENVELOPE_FORMAT_VERSION, response.status, res.version, created, expires);
      var plaintext := EncodePlaintext(response);
      if aad.None? then NotSealed(CipherUnavailable)
      else if plaintext.None? then NotSealed(EncodingRaised)
      else if |key.value.material| != 32 || res.version.text == [] || |res.nonce| != NONCE_BYTES then
        NotSealed(CipherUnavailable)
      else WasSealed(Sealed(key.value.material, res.nonce, aad.value, plaintext.value),
                     Sealing(res.version, key.value.material, res.nonce))
  }

  /** authenticate_completed_result: the plaintext, or None for any failure to authenticate. */
  function OpenResult(kr: Option<Keyring>, id: ResultId, row: ResultRow): Option<Bytes> {
    var key := DecryptionKey(kr, row.version);
    var aad := RowAad(Owner(id, row.fingerprint), row.formatVersion, row.status, row.version, row.created, row.expires);
    if key.None? || aad.None? then None
    else if row.formatVersion != ENVELOPE_FORMAT_VERSION || row.version.text == [] || |row.nonce| != NONCE_BYTES
            || |key.value.material| != 32 then None
    else if row.ciphertext.material == key.value.material && row.ciphertext.nonce == row.nonce
            && row.ciphertext.aad == aad.value then Some(row.ciphertext.plaintext)
    else None
  }

  // ---- classification -----------------------------------------------------------------------

  function TerminalExpiry(inv: Invocation, now: Epoch, replayNotAfter: Option<Epoch>): Epoch {
    var ttl := if inv.maxTerminalTtl <= 0 then MAX_TERMINAL_TTL_SECONDS else inv.maxTerminalTtl;
    var expires := now + if ttl < MAX_TERMINAL_TTL_SECONDS then ttl else MAX_TERMINAL_TTL_SECONDS;
    if replayNotAfter.Some? && replayNotAfter.value < expires then replayNotAfter.value else expires
  }

  /** Ok(Some(response)) replays, Ok(None) proceeds to a reservation. */
  function Classify(inv: Invocation, record: Option<ResultRow>, kr: Option<Keyring>,
                    now: Epoch): Result<Option<Response>, Failure>
  {
    if !ValidOwner(inv.ReservationOwner()) then Err(WriteUnavailable)
    else if record.None? then Ok(None)
    else
      var row := record.value;
      var plaintext := OpenResult(kr, inv.id, row);
      if plaintext.None? then Err(ResultUnavailable)
      else if row.expires <= now then Ok(None)
      else if row.fingerprint != inv.fingerprint then Err(Conflict)
      else
        var response := DecodePlaintext(row.status, plaintext.value);
        if response.None? then Err(ResultUnavailable) else Ok(Some(response.value))
  }

  // ---- ideal-AEAD facts ---------------------------------------------------------------------

  /** A row that holds `response` sealed under `material`, with nothing in the row altered since. */
  ghost predicate SealedFor(row: ResultRow, material: Bytes, response: Response) {
    && row.formatVersion == ENVELOPE_FORMAT_VERSION && row.version.text != [] && |row.nonce| == NONCE_BYTES
    && |material| == 32 && row.status == response.status
    && var aad := RowAad(Owner(row.id, row.fingerprint), row.formatVersion, row.status, row.version, row.created,
                         row.expires);
    && EncodePlaintext(response).Some? && aad.Some?
    && row.ciphertext == Sealed(material, row.nonce, aad.value, EncodePlaintext(response).value)
  }

  /** Opening an unaltered row works exactly with the key it was sealed under and gives its plaintext. */
  lemma OpenSealed(kr: Option<Keyring>, row: ResultRow, material: Bytes, response: Response)
    requires SealedFor(row, material, response)
    ensures OpenResult(kr, row.id, row) ==
            if DecryptionKey(kr, row.version).Some? && DecryptionKey(kr, row.version).value.material == material
            then EncodePlaintext(response) else None
  {
    hide RowAad;
    hide EncodePlaintext;
  }

  /** A live unaltered row answers its own fingerprint with the stored response and any other with a conflict. */
  lemma LiveRowAnswers(inv: Invocation, kr: Option<Keyring>, row: ResultRow, material: Bytes, response: Response,
                       now: Epoch)
    requires SealedFor(row, material, response) && row.id == inv.id && now < row.expires
    requires ValidOwner(inv.ReservationOwner())
    requires DecryptionKey(kr, row.version).Some? && DecryptionKey(kr, row.version).value.material == material
    ensures Classify(inv, Some(row), kr, now) ==
            if row.fingerprint == inv.fingerprint then Ok(Some(response)) else Err(Conflict)
  {
    hide RowAad;
    hide OpenResult;
    hide EncodePlaintext;
    hide DecodePlaintext;
    OpenSealed(kr, row, material, response);
    PlaintextRoundTrip(response);
  }

  /** What reaches the cipher: the reservation's version and nonce under the keyring's key for that version.
      The row built from it is an unaltered sealed row. */
  lemma SealFacts(kr: Option<Keyring>, owner: Owner, res: Reservation, response: Response, created: Epoch,
                  expires: Epoch)
    requires SealOutcome(kr, owner, res, response, created, expires).WasSealed?
    ensures var s := SealOutcome(kr, owner, res, response, created, expires);
      && DecryptionKey(kr, res.version).Some?
      && s.sealing == Sealing(res.version, DecryptionKey(kr, res.version).value.material, res.nonce)
      && SealedFor(ResultRow(owner.id, owner.fingerprint, ENVELOPE_FORMAT_VERSION, response.status,
                             res.version, res.nonce, s.ciphertext, created, expires), s.sealing.material, response)
  {
    hide RowAad;
    hide EncodePlaintext;
  }

  lemma ProceedMeansExpired(inv: Invocation, record: Option<ResultRow>, kr: Option<Keyring>, now: Epoch)
    requires Classify(inv, record, kr, now) == Ok(None)
    ensures ValidOwner(inv.ReservationOwner())
    ensures record.Some? ==> record.value.expires <= now
  {
    hide OpenResult;
    hide DecodePlaintext;
  }
}
