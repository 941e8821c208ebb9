/** Registrations and allowlist blocks, and what each operation of the two stores does to
    them as values: `Memory...` is the slice store as written, `Table...` is one SQL
    statement under the constraints of the migrations. */
module Registrations {
  import opened Sequences

  datatype Registration = Registration(
    orgId: string,
    username: string,
    uid: string,
    displayName: string,
    extra: Option<string>,
    createdAt: nat)

  datatype StoreError =
    | RegistrationNotFound
    | RegistrationAlreadyExists
    | DatabaseError
    | NilPointer  // the run-time panic on dereferencing a nil pointer

  datatype Result<+T> = Ok(value: T) | Err(error: StoreError)

  /** The rows after an operation and the error it returns. */
  datatype Change = Change(rows: seq<Registration>, err: Option<StoreError>)

  // ----- conditions of the operations -----

  function OfOrg(orgId: string): Registration -> bool {
    (r: Registration) => r.orgId == orgId
  }

  function WithUid(uid: string): Registration -> bool {
    (r: Registration) => r.uid == uid
  }

  /** `org_id = $1 and uid = $2` */
  function BothKeys(orgId: string, uid: string): Registration -> bool {
    (r: Registration) => r.orgId == orgId && r.uid == uid
  }

  function NotBothKeys(orgId: string, uid: string): Registration -> bool {
    (r: Registration) => !(r.orgId == orgId && r.uid == uid)
  }

  /** `m.db[i].OrgID == orgID || m.db[i].UID == uid` */
  function EitherKey(orgId: string, uid: string): Registration -> bool {
    (r: Registration) => r.orgId == orgId || r.uid == uid
  }

  /** The slice store refuses a uid or a display name that any record has. */
  function MemoryClash(candidate: Registration): Registration -> bool {
    (r: Registration) => r.uid == candidate.uid || r.displayName == candidate.displayName
  }

  /** The table refuses a uid that any row has, or a display name of the same organization. */
  function TableClash(candidate: Registration): Registration -> bool {
    (r: Registration) => r.uid == candidate.uid || (r.displayName == candidate.displayName && r.orgId == candidate.orgId)
  }

  predicate Has(rows: seq<Registration>, p: Registration -> bool) {
    FirstIndex(rows, p) < |rows|
  }

  function FindFirst(rows: seq<Registration>, p: Registration -> bool): Result<Registration> {
    if Has(rows, p) then Ok(rows[FirstIndex(rows, p)]) else Err(RegistrationNotFound)
  }

  // ----- the slice store -----

  function MemoryCreate(db: seq<Registration>, r: Registration, now: nat): Change {
    if Has(db, MemoryClash(r)) then Change(db, Some(RegistrationAlreadyExists))
    else Change(db + [r.(createdAt := now)], None)
  }

  /** The assignment goes to the copy that Find returned, so the records never change. */
  function MemoryUpdate(db: seq<Registration>, orgId: string, uid: string, extra: Option<string>): Change {
    if !Has(db, BothKeys(orgId, uid)) then Change(db, Some(RegistrationNotFound))
    else if extra == None then Change(db, Some(NilPointer))
    else Change(db, None)
  }

  function MemoryDelete(db: seq<Registration>, orgId: string, uid: string): Change {
    var i := FirstIndex(db, EitherKey(orgId, uid));
    if i < |db| then Change(RemoveAt(db, i), None) else Change(db, Some(RegistrationNotFound))
  }

  function MemoryAll(db: seq<Registration>, orgId: string): seq<Registration> {
    Filter(db, OfOrg(orgId))
  }

  // ----- the table -----

  function TableCreate(t: seq<Registration>, r: Registration, now: nat): Change {
    if Has(t, TableClash(r)) then Change(t, Some(RegistrationAlreadyExists))
    else Change(t + [r.(createdAt := now)], None)
  }

  function WithExtra(orgId: string, uid: string, extra: Option<string>): Registration -> Registration {
    (r: Registration) => if r.orgId == orgId && r.uid == uid then r.(extra := extra) else r
  }

  /** An update that matches no row is not an error. */
  function TableUpdate(t: seq<Registration>, orgId: string, uid: string, extra: Option<string>): Change {
    Change(Map(t, WithExtra(orgId, uid, extra)), None)
  }

  /** The statement deletes every matching row; the caller then compares the count with 1. */
  function TableDelete(t: seq<Registration>, orgId: string, uid: string): Change {
    var left := Filter(t, NotBothKeys(orgId, uid));
    Change(left, if |t| - |left| == 1 then None else Some(RegistrationNotFound))
  }

  /** `order by created_at desc`: a later row goes before the first one that is not newer. */
  function InsertByAge(sorted: seq<Registration>, r: Registration): (s: seq<Registration>)
    ensures |s| == |sorted| + 1
  {
    if sorted == [] || r.createdAt > sorted[0].createdAt then [r] + sorted
    else [sorted[0]] + InsertByAge(sorted[1..], r)
  }

  function NewestFirst(rows: seq<Registration>): (s: seq<Registration>)
    ensures |s| == |rows|
  {
    if rows == [] then [] else InsertByAge(NewestFirst(rows[..|rows| - 1]), rows[|rows| - 1])
  }

  /** `limit l offset o` */
  function Page<T>(rows: seq<T>, limit: nat, offset: nat): (page: seq<T>)
    ensures |page| <= limit
  {
    var start := if offset < |rows| then offset else |rows|;
    var end := if start + limit < |rows| then start + limit else |rows|;
    rows[start..end]
  }

  /** The page and the total count; a negative limit or offset fails the statement. */
  function TableAll(t: seq<Registration>, orgId: string, limit: int, offset: int): Result<(seq<Registration>, nat)> {
    if limit < 0 || offset < 0 then Err(DatabaseError)
    else
      var mine := Filter(t, OfOrg(orgId));
      Ok((Page(NewestFirst(mine), limit, offset), |mine|))
  }

  // ----- the constraints -----

  /** uid_unique of migration 1, display_name_unique of migration 4, and rows kept in the
      order of their distinct creation times. */
  predicate TableOrder(a: Registration, b: Registration) {
    a.uid != b.uid && !(a.displayName == b.displayName && a.orgId == b.orgId) && a.createdAt < b.createdAt
  }

  ghost predicate TableInvariant(t: seq<Registration>, now: nat) {
    Pairwise(t, TableOrder) && forall i :: 0 <= i < |t| ==> t[i].createdAt < now
  }

  /** What the slice store maintains: display names unique over all organizations. */
  predicate MemoryOrder(a: Registration, b: Registration) {
    a.uid != b.uid && a.displayName != b.displayName && a.createdAt < b.createdAt
  }

  ghost predicate MemoryInvariant(db: seq<Registration>, now: nat) {
    Pairwise(db, MemoryOrder) && forall i :: 0 <= i < |db| ==> db[i].createdAt < now
  }

  // ----- every operation keeps the constraints -----

  lemma MemoryCreateKeeps(db: seq<Registration>, r: Registration, now: nat)
    requires MemoryInvariant(db, now)
    ensures MemoryInvariant(MemoryCreate(db, r, now).rows, now + 1)
    ensures MemoryCreate(db, r, now).err == None <==>
      forall i :: 0 <= i < |db| ==> db[i].uid != r.uid && db[i].displayName != r.displayName
    ensures MemoryCreate(db, r, now).err != None ==> MemoryCreate(db, r, now).rows == db
  {
  }

  lemma MemoryDeleteKeeps(db: seq<Registration>, orgId: string, uid: string, now: nat)
    requires MemoryInvariant(db, now)
    ensures MemoryInvariant(MemoryDelete(db, orgId, uid).rows, now)
  {
  }

  lemma TableCreateKeeps(t: seq<Registration>, r: Registration, now: nat)
    requires TableInvariant(t, now)
    ensures TableInvariant(TableCreate(t, r, now).rows, now + 1)
    ensures TableCreate(t, r, now).err == None <==>
      forall i :: 0 <= i < |t| ==> t[i].uid != r.uid && !(t[i].displayName == r.displayName && t[i].orgId == r.orgId)
    ensures TableCreate(t, r, now).err != None ==> TableCreate(t, r, now).rows == t
  {
  }

  lemma TableUpdateKeeps(t: seq<Registration>, orgId: string, uid: string, extra: Option<string>, now: nat)
    requires TableInvariant(t, now)
    ensures TableInvariant(TableUpdate(t, orgId, uid, extra).rows, now)
  {
    var t' := TableUpdate(t, orgId, uid, extra).rows;
    forall i, j | 0 <= i < j < |t'| ensures TableOrder(t'[i], t'[j]) {
      assert TableOrder(t[i], t[j]);
    }
  }

  lemma UniqueMatch(t: seq<Registration>, i: nat, k: nat, orgId: string, uid: string)
    requires Pairwise(t, TableOrder) && i < |t| && k < |t| && k != i && BothKeys(orgId, uid)(t[i])
    ensures NotBothKeys(orgId, uid)(t[k])
  {
    assert TableOrder(t[if k < i then k else i], t[if k < i then i else k]);
  }

  lemma RemoveKeeps(t: seq<Registration>, i: nat, now: nat)
    requires TableInvariant(t, now) && i < |t|
    ensures TableInvariant(RemoveAt(t, i), now)
  {
  }

  /** Under the uid constraint a delete removes the one matching row, or fails and removes none. */
  lemma TableDeleteOne(t: seq<Registration>, orgId: string, uid: string, now: nat)
    requires TableInvariant(t, now)
    ensures var i := FirstIndex(t, BothKeys(orgId, uid));
      TableDelete(t, orgId, uid)
        == if i < |t| then Change(RemoveAt(t, i), None) else Change(t, Some(RegistrationNotFound))
    ensures TableInvariant(TableDelete(t, orgId, uid).rows, now)
  {
    var i := FirstIndex(t, BothKeys(orgId, uid));
    if i < |t| {
      forall k | 0 <= k < |t| && k != i ensures NotBothKeys(orgId, uid)(t[k]) {
        UniqueMatch(t, i, k, orgId, uid);
      }
      FilterDropsOne(t, i, NotBothKeys(orgId, uid));
      RemoveKeeps(t, i, now);
    } else {
      FilterKeepsAll(t, NotBothKeys(orgId, uid));
    }
  }

  // ----- the operations with their keys written out -----

  lemma FindByUidMeans(rows: seq<Registration>, uid: string)
    ensures match FindFirst(rows, WithUid(uid))
      case Err(e) => e == RegistrationNotFound && forall k :: 0 <= k < |rows| ==> rows[k].uid != uid
      case Ok(r) => exists i :: 0 <= i < |rows| && rows[i] == r && r.uid == uid && forall k :: 0 <= k < i ==> rows[k].uid != uid
  {
    var i := FirstIndex(rows, WithUid(uid));
    forall k | 0 <= k < i ensures rows[k].uid != uid {
      assert !WithUid(uid)(rows[k]);
    }
  }

  lemma FindMeans(rows: seq<Registration>, orgId: string, uid: string)
    ensures match FindFirst(rows, BothKeys(orgId, uid))
      case Err(e) => e == RegistrationNotFound && forall k :: 0 <= k < |rows| ==> rows[k].orgId != orgId || rows[k].uid != uid
      case Ok(r) => r in rows && r.orgId == orgId && r.uid == uid
  {
    var i := FirstIndex(rows, BothKeys(orgId, uid));
    forall k | 0 <= k < i ensures rows[k].orgId != orgId || rows[k].uid != uid {
      assert !BothKeys(orgId, uid)(rows[k]);
    }
  }

  /** The slice store's deletion: either key is enough, and the first record that has one goes. */
  lemma MemoryDeleteMeans(db: seq<Registration>, orgId: string, uid: string)
    ensures var after := MemoryDelete(db, orgId, uid);
      && (after.err == None <==> exists r :: r in db && (r.orgId == orgId || r.uid == uid))
      && (after.err != None ==> after == Change(db, Some(RegistrationNotFound)))
      && (after.err == None ==> exists i :: (
            && 0 <= i < |db| && (db[i].orgId == orgId || db[i].uid == uid) && after.rows == RemoveAt(db, i)
            && forall k :: 0 <= k < i ==> db[k].orgId != orgId && db[k].uid != uid))
  {
    var i := FirstIndex(db, EitherKey(orgId, uid));
    forall k | 0 <= k < i ensures db[k].orgId != orgId && db[k].uid != uid {
      assert !EitherKey(orgId, uid)(db[k]);
    }
    if i < |db| {
      assert db[i] in db;
    }
  }

  /** The statement deletes the rows that have both keys, and succeeds when that was one. */
  lemma TableDeleteMeans(t: seq<Registration>, orgId: string, uid: string)
    ensures var after := TableDelete(t, orgId, uid);
      && after.rows == Filter(t, (r: Registration) => r.orgId != orgId || r.uid != uid)
      && (after.err == None <==> |t| - |after.rows| == 1)
      && (after.err != None ==> after.err == Some(RegistrationNotFound))
  {
    FilterAgrees(t, NotBothKeys(orgId, uid), (r: Registration) => r.orgId != orgId || r.uid != uid);
  }

  lemma MemoryUpdateMeans(db: seq<Registration>, orgId: string, uid: string, extra: Option<string>)
    ensures var after := MemoryUpdate(db, orgId, uid, extra);
      var found := exists r :: r in db && r.orgId == orgId && r.uid == uid;
      && after.rows == db
      && after.err == if !found then Some(RegistrationNotFound) else if extra == None then Some(NilPointer) else None
  {
    FindMeans(db, orgId, uid);
    if Has(db, BothKeys(orgId, uid)) {
      assert db[FirstIndex(db, BothKeys(orgId, uid))] in db;
    }
  }

  lemma TableUpdateMeans(t: seq<Registration>, orgId: string, uid: string, extra: Option<string>, k: nat)
    requires k < |t|
    ensures var after := TableUpdate(t, orgId, uid, extra);
      && after.err == None && |after.rows| == |t|
      && after.rows[k] == if t[k].orgId == orgId && t[k].uid == uid then t[k].(extra := extra) else t[k]
  {
  }

  lemma OwnRowsMean(rows: seq<Registration>, orgId: string)
    ensures Filter(rows, OfOrg(orgId)) == Filter(rows, (r: Registration) => r.orgId == orgId)
  {
    FilterAgrees(rows, OfOrg(orgId), (r: Registration) => r.orgId == orgId);
  }
}
