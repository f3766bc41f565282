/**
 The identity resolver behind `/user-status` and `/user-signature`: the
 first row with the device's uuid, and only when there is none, the first
 row with its fingerprint.
 */
module Resolver {
  import opened Common
  import opened Store
  import opened Intake

  /** The `{uuid, fingerprint}` body of an identity query. */
  datatype DeviceInfo = DeviceInfo(uuid: string, fingerprint: string)

  /** Look up by uuid first, then fall back to the fingerprint. */
  function Resolve(t: Table, uuid: string, fingerprint: string): (r: Option<Record>)
    ensures forall i: nat :: IsFirstMatch(t, DeviceUuid, uuid, i) ==> r == Some(t[i])
    ensures !HasKey(t, DeviceUuid, uuid) ==>
              forall j: nat :: IsFirstMatch(t, DeviceFingerprint, fingerprint, j) ==> r == Some(t[j])
    ensures r.None? <==> !Claimed(t, uuid, fingerprint)
  {
    match FirstMatch(t, DeviceUuid, uuid)
    case Some(i) =>
      FirstMatchUnique(t, DeviceUuid, uuid, i);
      Some(t[i])
    case None =>
      match FirstMatch(t, DeviceFingerprint, fingerprint)
      case Some(j) =>
        FirstMatchUnique(t, DeviceFingerprint, fingerprint, j);
        Some(t[j])
      case None =>
        assert forall i :: 0 <= i < |t| ==> Key(t[i], DeviceUuid) != uuid;
        assert forall i :: 0 <= i < |t| ==> Key(t[i], DeviceFingerprint) != fingerprint;
        None
  }

  /** The response of `/user-status` for a well-formed query. */
  datatype SignStatus = SignStatus(hasSigned: bool, signature: Option<string>)

  /** The 400 response for a query missing an identifier. */
  datatype StatusError = IncompleteDeviceInfo

  /** `/user-status`: rejects a query missing either identifier, otherwise
      reports whether the device resolves and the stored name. */
  function UserStatus(t: Table, info: DeviceInfo): (r: Result<SignStatus, StatusError>)
    ensures r.Err? <==> info.uuid == [] || info.fingerprint == []
    ensures r.Ok? ==> (r.value.hasSigned <==> Claimed(t, info.uuid, info.fingerprint))
    ensures r.Ok? ==> (r.value.signature.Some? <==> r.value.hasSigned)
    ensures r.Ok? ==> forall i: nat :: IsFirstMatch(t, DeviceUuid, info.uuid, i) ==>
              r.value.signature == Some(t[i].signature)
    ensures r.Ok? && !HasKey(t, DeviceUuid, info.uuid) ==>
              forall j: nat :: IsFirstMatch(t, DeviceFingerprint, info.fingerprint, j) ==>
                r.value.signature == Some(t[j].signature)
  {
    if info.uuid == [] || info.fingerprint == [] then Err(IncompleteDeviceInfo)
    else
      match Resolve(t, info.uuid, info.fingerprint)
      case Some(user) => Ok(SignStatus(true, Some(user.signature)))
      case None => Ok(SignStatus(false, None))
  }

  /** The caller's own signature as `/user-signature` returns it. */
  datatype OwnSignature = OwnSignature(signature: string, signatureImage: string,
                                       createdAt: string, roomNumber: string)

  function OwnView(r: Record): OwnSignature {
    OwnSignature(r.signature, r.signatureImage, r.createdAt, r.roomNumber)
  }

  /** `/user-signature`: `null` for a query missing an identifier or for
      an unknown device, otherwise the resolved row's public fields. */
  function UserSignature(t: Table, info: DeviceInfo): (r: Option<OwnSignature>)
    ensures r.Some? <==> info.uuid != [] && info.fingerprint != [] && Claimed(t, info.uuid, info.fingerprint)
    ensures r.Some? ==>
              (exists i :: 0 <= i < |t|
                 && (t[i].deviceUuid == info.uuid || t[i].deviceFingerprint == info.fingerprint)
                 && r.value == OwnView(t[i]))
    ensures r.Some? ==> forall i: nat :: IsFirstMatch(t, DeviceUuid, info.uuid, i) ==>
              r.value == OwnView(t[i])
    ensures r.Some? && !HasKey(t, DeviceUuid, info.uuid) ==>
              forall j: nat :: IsFirstMatch(t, DeviceFingerprint, info.fingerprint, j) ==>
                r.value == OwnView(t[j])
  {
    if info.uuid == [] || info.fingerprint == [] then None
    else
      match Resolve(t, info.uuid, info.fingerprint)
      case Some(user) => Some(OwnView(user))
      case None => None
  }

  /** The two endpoints agree: a complete query reports `hasSigned`
      exactly when its own signature is returned, with the same name. */
  lemma StatusAgreesWithSignature(t: Table, info: DeviceInfo)
    requires info.uuid != [] && info.fingerprint != []
    ensures UserStatus(t, info).Ok?
    ensures UserStatus(t, info).value.hasSigned <==> UserSignature(t, info).Some?
    ensures UserSignature(t, info).Some? ==>
              UserStatus(t, info).value.signature == Some(UserSignature(t, info).value.signature)
  {
  }

  /** After a successful submission the device resolves to the new row,
      whether it asks with the same uuid, or with the same fingerprint and
      a uuid no row holds. */
  lemma SubmitThenResolve(t: Table, req: SignRequest, ip: Option<string>, now: string,
                          uuid: string, fingerprint: string)
    requires Submit(t, req, ip, now).result.Ok?
    requires uuid == req.deviceUuid
             || (fingerprint == req.deviceFingerprint
                 && !HasKey(Submit(t, req, ip, now).table, DeviceUuid, uuid))
    ensures var out := Submit(t, req, ip, now);
            Resolve(out.table, uuid, fingerprint) == Some(out.result.value)
  {
    var out := Submit(t, req, ip, now);
    var rec := out.result.value;
    if uuid == req.deviceUuid {
      AppendedRowIsFirstMatch(t, rec, DeviceUuid);
    } else {
      AppendedRowIsFirstMatch(t, rec, DeviceFingerprint);
    }
  }

  /** The resolver's existence test and the intake's combined OR-check
      coincide on every table: a device reported as signed is exactly one
      that `/sign` turns away. Only which row is returned differs. */
  lemma StatusMatchesIntake(t: Table, info: DeviceInfo, req: SignRequest, ip: Option<string>, now: string)
    requires Complete(req) && info == DeviceInfo(req.deviceUuid, req.deviceFingerprint)
    ensures UserStatus(t, info).Ok?
    ensures UserStatus(t, info).value.hasSigned <==> Submit(t, req, ip, now).result == Err(AlreadySigned)
  {
  }
}
