/**
 The `/sign` endpoint: validate the submission in a fixed order, reject a
 device whose uuid or fingerprint is already on file, otherwise append
 exactly one row holding the normalised fields.
 */
module Intake {
  import opened Common
  import opened JsString
  import opened Store
  import opened Normalizer

  /** The JSON body of a submission. A missing string field reads as "",
      which the endpoint treats the same way (both are falsy). */
  datatype SignRequest = SignRequest(
    signatureData: string,
    signatureName: string,
    roomNumber: string,
    deviceUuid: string,
    deviceFingerprint: string,
    signatureTime: Option<string>)

  /** The four 400 responses of the endpoint. */
  datatype IntakeError =
    | MissingSignatureOrName
    | MissingRoom
    | MissingDeviceInfo
    | AlreadySigned

  /** The response together with the table after the request. */
  datatype SignOutcome = SignOutcome(result: Result<Record, IntakeError>, table: Table)

  /** Every required field is non-empty (checked before trimming). */
  predicate Complete(req: SignRequest) {
    && req.signatureData != [] && req.signatureName != [] && req.roomNumber != []
    && req.deviceUuid != [] && req.deviceFingerprint != []
  }

  /** The first failing structural check, in the endpoint's order. */
  function Validate(req: SignRequest): (err: Option<IntakeError>)
    ensures err.None? <==> Complete(req)
    ensures err.Some? ==> err.value != AlreadySigned
  {
    if req.signatureData == [] || req.signatureName == [] then Some(MissingSignatureOrName)
    else if req.roomNumber == [] then Some(MissingRoom)
    else if req.deviceUuid == [] || req.deviceFingerprint == [] then Some(MissingDeviceInfo)
    else None
  }

  /** `signature_time || now`: the client's time unless absent or empty. */
  function CreatedAt(signatureTime: Option<string>, now: string): (at: string)
    ensures signatureTime.Some? && signatureTime.value != [] ==> at == signatureTime.value
    ensures signatureTime.None? || signatureTime.value == [] ==> at == now
  {
    match signatureTime
    case Some(t) => if t != [] then t else now
    case None => now
  }

  /** The row a successful submission inserts. */
  predicate IsNewRecord(rec: Record, t: Table, req: SignRequest, ip: Option<string>, now: string) {
    && rec.ip == ip
    && rec.deviceUuid == req.deviceUuid
    && rec.deviceFingerprint == req.deviceFingerprint
    && rec.signature == Trim(req.signatureName)
    && rec.roomNumber == Trim(req.roomNumber)
    && rec.signatureImage == NormalizeImage(req.signatureData)
    && rec.createdAt == CreatedAt(req.signatureTime, now)
    && rec.id > 0
    && forall i :: 0 <= i < |t| ==> t[i].id < rec.id
  }

  /** One `/sign` request against table `t`. `ip` is the submitter's
      address and `now` the server's ISO-8601 clock reading. */
  function Submit(t: Table, req: SignRequest, ip: Option<string>, now: string): (out: SignOutcome)
    // no write on any rejection, exactly one appended row on success
    ensures out.result.Err? ==> out.table == t
    ensures out.result.Ok? ==> out.table == t + [out.result.value]
    // validation order
    ensures req.signatureData == [] || req.signatureName == [] ==>
              out.result == Err(MissingSignatureOrName)
    ensures req.signatureData != [] && req.signatureName != [] && req.roomNumber == [] ==>
              out.result == Err(MissingRoom)
    ensures req.signatureData != [] && req.signatureName != [] && req.roomNumber != []
            && (req.deviceUuid == [] || req.deviceFingerprint == []) ==>
              out.result == Err(MissingDeviceInfo)
    // duplicate rejection, then success
    ensures Complete(req) ==>
              (out.result == Err(AlreadySigned) <==> Claimed(t, req.deviceUuid, req.deviceFingerprint))
    ensures out.result.Ok? <==> Complete(req) && !Claimed(t, req.deviceUuid, req.deviceFingerprint)
    ensures out.result.Ok? ==> IsNewRecord(out.result.value, t, req, ip, now)
  {
    match Validate(req)
    case Some(err) => SignOutcome(Err(err), t)
    case None =>
      if Claimed(t, req.deviceUuid, req.deviceFingerprint) then
        SignOutcome(Err(AlreadySigned), t)
      else
        var rec := Record(
          NextId(t), ip, req.deviceUuid, req.deviceFingerprint,
          Trim(req.signatureName), Trim(req.roomNumber),
          NormalizeImage(req.signatureData), CreatedAt(req.signatureTime, now));
        SignOutcome(Ok(rec), t + [rec])
  }

  /** A submission never breaks the table invariant: identifiers stay
      unique per column, ids stay unique, and rows keep both identifiers. */
  lemma SubmitPreservesWellFormed(t: Table, req: SignRequest, ip: Option<string>, now: string)
    requires WellFormed(t)
    ensures WellFormed(Submit(t, req, ip, now).table)
  {
    var out := Submit(t, req, ip, now);
    if out.result.Ok? {
      AppendPreservesWellFormed(t, out.result.value);
    }
  }

  /** Appending a row with fresh identifiers and a larger id keeps the
      invariant. */
  lemma AppendPreservesWellFormed(t: Table, rec: Record)
    requires WellFormed(t)
    requires rec.deviceUuid != [] && rec.deviceFingerprint != []
    requires !Claimed(t, rec.deviceUuid, rec.deviceFingerprint)
    requires forall i :: 0 <= i < |t| ==> t[i].id < rec.id
    ensures WellFormed(t + [rec])
  {
    var t' := t + [rec];
    forall i, j | 0 <= i < j < |t'|
      ensures Key(t'[i], DeviceUuid) != Key(t'[j], DeviceUuid)
      ensures Key(t'[i], DeviceFingerprint) != Key(t'[j], DeviceFingerprint)
      ensures t'[i].id != t'[j].id
    {
      assert t'[i] == t[i];
      if j < |t| { assert t'[j] == t[j]; } else { assert t'[j] == rec; }
    }
    forall i | 0 <= i < |t'| ensures t'[i].deviceUuid != [] && t'[i].deviceFingerprint != [] {
      if i < |t| { assert t'[i] == t[i]; }
    }
  }

  /** One request of a sequential replay: body, origin address, clock. */
  datatype Submission = Submission(req: SignRequest, ip: Option<string>, now: string)

  /** The table after the submissions are handled one after another. */
  function Replay(t: Table, subs: seq<Submission>): Table
    decreases |subs|
  {
    if |subs| == 0 then t
    else Replay(Submit(t, subs[0].req, subs[0].ip, subs[0].now).table, subs[1..])
  }

  /** Any sequence of submissions keeps the table well formed: no two rows
      ever share a uuid, and no two ever share a fingerprint. */
  lemma {:induction false} ReplayPreservesWellFormed(t: Table, subs: seq<Submission>)
    requires WellFormed(t)
    ensures WellFormed(Replay(t, subs))
    decreases |subs|
  {
    if |subs| > 0 {
      SubmitPreservesWellFormed(t, subs[0].req, subs[0].ip, subs[0].now);
      ReplayPreservesWellFormed(Submit(t, subs[0].req, subs[0].ip, subs[0].now).table, subs[1..]);
    }
  }

  /** Starting from the empty table, no sequence of submissions stores two
      signatures for one uuid or for one fingerprint. */
  lemma {:induction false} NoDuplicateDevices(subs: seq<Submission>)
    ensures UniqueKeys(Replay([], subs), DeviceUuid)
    ensures UniqueKeys(Replay([], subs), DeviceFingerprint)
  {
    ReplayPreservesWellFormed([], subs);
  }

  /** Stored rows are never changed or removed: the table only grows, by
      at most one row per submission. */
  lemma {:induction false} ReplayOnlyAppends(t: Table, subs: seq<Submission>)
    ensures t <= Replay(t, subs)
    ensures |Replay(t, subs)| <= |t| + |subs|
    decreases |subs|
  {
    if |subs| > 0 {
      var t' := Submit(t, subs[0].req, subs[0].ip, subs[0].now).table;
      ReplayOnlyAppends(t', subs[1..]);
    }
  }

  /** Once a device has signed, any complete submission reusing its uuid
      or its fingerprint is rejected as already signed. */
  lemma SecondSubmissionRejected(t: Table, req: SignRequest, ip: Option<string>, now: string,
                                 req': SignRequest, ip': Option<string>, now': string)
    requires Submit(t, req, ip, now).result.Ok?
    requires Complete(req')
    requires req'.deviceUuid == req.deviceUuid || req'.deviceFingerprint == req.deviceFingerprint
    ensures Submit(Submit(t, req, ip, now).table, req', ip', now').result == Err(AlreadySigned)
  {
    var t' := Submit(t, req, ip, now).table;
    assert t'[|t|].deviceUuid == req.deviceUuid;
  }

  /** Validation looks at the untrimmed fields: a name made only of
      whitespace passes and is stored as the empty string. */
  lemma WhitespaceNameStoredEmpty(t: Table, req: SignRequest, ip: Option<string>, now: string)
    requires Complete(req) && !Claimed(t, req.deviceUuid, req.deviceFingerprint)
    requires AllWhitespace(req.signatureName)
    ensures Submit(t, req, ip, now).result.Ok?
    ensures Submit(t, req, ip, now).result.value.signature == []
  {
    TrimEmptyIffAllWhitespace(req.signatureName);
  }
}
