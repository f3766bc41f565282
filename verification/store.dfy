/**
 The `user` table as an abstract store: a sequence of rows in insertion
 order. A query's `results[0]` is the first matching row of the sequence.
 */
module Store {
  import opened Common

  /** One stored signature (a row of the `user` table). */
  datatype Record = Record(
    id: nat,
    ip: Option<string>,
    deviceUuid: string,
    deviceFingerprint: string,
    signature: string,
    roomNumber: string,
    signatureImage: string,
    createdAt: string)

  type Table = seq<Record>

  /** The two device-identity columns a lookup can filter on. */
  datatype Column = DeviceUuid | DeviceFingerprint

  function Key(r: Record, col: Column): string {
    match col
    case DeviceUuid => r.deviceUuid
    case DeviceFingerprint => r.deviceFingerprint
  }

  /** Some row holds `value` in column `col`. */
  predicate HasKey(t: Table, col: Column, value: string) {
    exists i | 0 <= i < |t| :: Key(t[i], col) == value
  }

  /** The combined existence query `device_uuid = ? OR device_fingerprint = ?`
      returns at least one row. */
  predicate Claimed(t: Table, uuid: string, fingerprint: string) {
    exists i | 0 <= i < |t| :: t[i].deviceUuid == uuid || t[i].deviceFingerprint == fingerprint
  }

  /** Row `i` is the first row holding `value` in column `col`. */
  ghost predicate IsFirstMatch(t: Table, col: Column, value: string, i: nat) {
    && i < |t|
    && Key(t[i], col) == value
    && forall j :: 0 <= j < i ==> Key(t[j], col) != value
  }

  /** `SELECT * FROM user WHERE <col> = ?` followed by `results[0]`: the
      position of the first matching row, if any. */
  function FirstMatch(t: Table, col: Column, value: string): (r: Option<nat>)
    ensures r.None? <==> !HasKey(t, col, value)
    ensures r.Some? ==> IsFirstMatch(t, col, value, r.value)
  {
    if |t| == 0 then None
    else if Key(t[0], col) == value then Some(0)
    else match FirstMatch(t[1..], col, value)
      case None => None
      case Some(i) => Some(i + 1)
  }

  /** There is at most one first match. */
  lemma FirstMatchUnique(t: Table, col: Column, value: string, i: nat)
    requires IsFirstMatch(t, col, value, i)
    ensures forall j: nat :: IsFirstMatch(t, col, value, j) ==> j == i
  {
  }

  /** A row appended with a value no earlier row holds is the first match
      for that value. */
  lemma AppendedRowIsFirstMatch(t: Table, rec: Record, col: Column)
    requires !HasKey(t, col, Key(rec, col))
    ensures IsFirstMatch(t + [rec], col, Key(rec, col), |t|)
  {
    var t' := t + [rec];
    forall j | 0 <= j < |t| ensures Key(t'[j], col) != Key(rec, col) {
      assert t'[j] == t[j];
    }
  }

  /** Row `i` is the first row with primary key `id`. */
  ghost predicate IsFirstWithId(t: Table, id: nat, i: nat) {
    i < |t| && t[i].id == id && forall j :: 0 <= j < i ==> t[j].id != id
  }

  /** `SELECT * FROM user WHERE id = ?` followed by `results[0]`. */
  function FindById(t: Table, id: nat): (r: Option<nat>)
    ensures r.None? <==> forall i :: 0 <= i < |t| ==> t[i].id != id
    ensures r.Some? ==> IsFirstWithId(t, id, r.value)
  {
    if |t| == 0 then None
    else if t[0].id == id then Some(0)
    else match FindById(t[1..], id)
      case None => None
      case Some(i) => Some(i + 1)
  }

  /** The largest id in use, 0 for an empty table. */
  function MaxId(t: Table): (m: nat)
    ensures forall i :: 0 <= i < |t| ==> t[i].id <= m
    ensures |t| > 0 ==> exists i :: 0 <= i < |t| && t[i].id == m
  {
    if |t| == 0 then 0
    else
      var m := MaxId(t[1..]);
      if t[0].id >= m then t[0].id
      else
        assert forall i :: 1 <= i < |t| ==> t[i] == t[1..][i - 1];
        m
  }

  /** The id `INTEGER PRIMARY KEY AUTOINCREMENT` assigns to the next row:
      one past the largest id ever used, which, as rows are never
      deleted, is the largest id present. */
  function NextId(t: Table): (id: nat)
    ensures id > 0
    ensures forall i :: 0 <= i < |t| ==> t[i].id < id
  {
    MaxId(t) + 1
  }

  /** No two rows share a value in column `col`. */
  ghost predicate UniqueKeys(t: Table, col: Column) {
    forall i, j :: 0 <= i < j < |t| ==> Key(t[i], col) != Key(t[j], col)
  }

  ghost predicate UniqueIds(t: Table) {
    forall i, j :: 0 <= i < j < |t| ==> t[i].id != t[j].id
  }

  /** The invariant intake maintains: every row carries both device
      identifiers, and no identifier or id occurs in two rows. */
  ghost predicate WellFormed(t: Table) {
    && UniqueKeys(t, DeviceUuid)
    && UniqueKeys(t, DeviceFingerprint)
    && UniqueIds(t)
    && forall i :: 0 <= i < |t| ==> t[i].deviceUuid != "" && t[i].deviceFingerprint != ""
  }
}
