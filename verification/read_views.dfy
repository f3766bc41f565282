/**
 The read views over the table: the redacted `/all-signatures` listing
 and the `/signature/download/:id` lookup.
 */
module ReadViews {
  import opened Common
  import opened Store
  import opened Intake
  import opened Normalizer

  /** One row of the public listing: no ip, device identifiers or image. */
  datatype PublicEntry = PublicEntry(id: nat, signature: string, roomNumber: string, createdAt: string)

  /** The `/all-signatures` response: the entries and their count. */
  datatype Listing = Listing(signatures: seq<PublicEntry>, total: nat)

  function Redact(r: Record): PublicEntry {
    PublicEntry(r.id, r.signature, r.roomNumber, r.createdAt)
  }

  /** `SELECT id, signature, room_number, created_at FROM user`, one entry
      per row, in table order. */
  function PublicListing(t: Table): (l: Listing)
    ensures l.total == |l.signatures| == |t|
    ensures forall i :: 0 <= i < |t| ==>
              && l.signatures[i].id == t[i].id
              && l.signatures[i].signature == t[i].signature
              && l.signatures[i].roomNumber == t[i].roomNumber
              && l.signatures[i].createdAt == t[i].createdAt
  {
    var entries := seq(|t|, i requires 0 <= i < |t| => Redact(t[i]));
    Listing(entries, |entries|)
  }

  /** Two rows that agree on the public columns. */
  predicate SamePublicFields(a: Record, b: Record) {
    a.id == b.id && a.signature == b.signature && a.roomNumber == b.roomNumber && a.createdAt == b.createdAt
  }

  /** The listing reveals nothing else: tables that differ only in ip,
      device identifiers and images give identical listings. */
  lemma PublicListingHidesDeviceData(t: Table, u: Table)
    requires |t| == |u|
    requires forall i :: 0 <= i < |t| ==> SamePublicFields(t[i], u[i])
    ensures PublicListing(t) == PublicListing(u)
  {
    assert PublicListing(t).signatures == PublicListing(u).signatures;
  }

  /** The two 404 responses of the download endpoint. */
  datatype DownloadError = UserNotFound | NoSignatureImage

  /** The download response: the requested id, the name and the image. */
  datatype Download = Download(userId: nat, signatureName: string, signatureData: string)

  /** `/signature/download/:id`: not found when no row has the id or the
      row has an empty image, otherwise the row's name and image. */
  function DownloadById(t: Table, id: nat): (r: Result<Download, DownloadError>)
    ensures r == Err(UserNotFound) <==> forall i :: 0 <= i < |t| ==> t[i].id != id
    ensures forall i: nat :: IsFirstWithId(t, id, i) ==>
              (r == Err(NoSignatureImage) <==> t[i].signatureImage == [])
    ensures forall i: nat :: IsFirstWithId(t, id, i) && t[i].signatureImage != [] ==>
              r == Ok(Download(id, t[i].signature, t[i].signatureImage))
  {
    match FindById(t, id)
    case None => Err(UserNotFound)
    case Some(i) =>
      var user := t[i];
      if user.signatureImage == [] then Err(NoSignatureImage)
      else Ok(Download(id, user.signature, user.signatureImage))
  }

  /** A freshly stored signature can be downloaded by its new id, with
      the trimmed name and the normalised image. */
  lemma DownloadAfterSubmit(t: Table, req: SignRequest, ip: Option<string>, now: string)
    requires Submit(t, req, ip, now).result.Ok?
    ensures var out := Submit(t, req, ip, now);
            var rec := out.result.value;
            DownloadById(out.table, rec.id) == Ok(Download(rec.id, rec.signature, NormalizeImage(req.signatureData)))
  {
    var out := Submit(t, req, ip, now);
    var rec := out.result.value;
    var t' := out.table;
    assert t'[|t|] == rec;
    assert IsFirstWithId(t', rec.id, |t|) by {
      forall j | 0 <= j < |t| ensures t'[j].id != rec.id {
        assert t'[j] == t[j];
      }
    }
  }
}
