/** Migration 2 backfills display names row by row and then declares them unique; migration 4
    relaxes the constraint to one organization. */
module Migrations {
  import opened Sequences

  /** A row of the table after migration 1, with the column migration 2 adds. */
  datatype LegacyRow = LegacyRow(id: nat, orgId: string, uid: string, displayName: Option<string>)

  predicate DistinctIds(a: LegacyRow, b: LegacyRow) { a.id != b.id }

  predicate DistinctUids(a: LegacyRow, b: LegacyRow) { a.uid != b.uid }

  /** `unique (display_name)`: nulls never clash. */
  predicate DistinctNames(a: LegacyRow, b: LegacyRow) {
    a.displayName == None || a.displayName != b.displayName
  }

  /** `unique (display_name, org_id)` */
  predicate DistinctNamesPerOrg(a: LegacyRow, b: LegacyRow) {
    a.displayName == None || a.displayName != b.displayName || a.orgId != b.orgId
  }

  /** `add display_name varchar default NULL` */
  function WithColumn(r: LegacyRow): LegacyRow {
    r.(displayName := None)
  }

  function Backfilled(r: LegacyRow): LegacyRow {
    if r.displayName == None then r.(displayName := Some(r.uid)) else r
  }

  function HasNoName(r: LegacyRow): bool { r.displayName == None }

  /** `update registrations set display_name = uid where id = row.id` */
  method UpdateNameById(t: array<LegacyRow>, id: nat)
    modifies t
    ensures forall k :: 0 <= k < t.Length ==>
      t[k] == old(if t[k].id == id then t[k].(displayName := Some(t[k].uid)) else t[k])
  {
    for i := 0 to t.Length
      invariant forall k :: 0 <= k < i ==>
        t[k] == old(if t[k].id == id then t[k].(displayName := Some(t[k].uid)) else t[k])
      invariant forall k :: i <= k < t.Length ==> t[k] == old(t[k])
    {
      if t[i].id == id {
        t[i] := t[i].(displayName := Some(t[i].uid));
      }
    }
  }

  /** Some row of the query has the same id. */
  ghost predicate Touched(r: LegacyRow, rows: seq<LegacyRow>) {
    exists x :: x in rows && x.id == r.id
  }

  lemma TouchedIff(was: seq<LegacyRow>, k: nat)
    requires Pairwise(was, DistinctIds) && k < |was|
    ensures Touched(was[k], Filter(was, HasNoName)) <==> was[k].displayName == None
  {
    FilterMembers(was, HasNoName);
    if x :| x in Filter(was, HasNoName) && x.id == was[k].id {
      var j :| 0 <= j < |was| && was[j] == x;
      assert j < k ==> DistinctIds(was[j], was[k]);
      assert k < j ==> DistinctIds(was[k], was[j]);
    }
    if was[k].displayName == None {
      assert HasNoName(was[k]) && was[k] in Filter(was, HasNoName);
    }
  }

  /** The loop over the rows without a display name. The query is evaluated once, before the
      first update. */
  method Backfill(t: array<LegacyRow>)
    requires Pairwise(t[..], DistinctIds)
    modifies t
    ensures t[..] == Map(old(t[..]), Backfilled)
    ensures forall k :: 0 <= k < t.Length ==>
      t[k] == old(if t[k].displayName.Some? then t[k] else t[k].(displayName := Some(t[k].uid)))
  {
    ghost var was := t[..];
    var rows := Filter(t[..], HasNoName);
    for i := 0 to |rows|
      invariant forall k :: 0 <= k < t.Length ==>
        t[k] == if Touched(was[k], rows[..i]) then was[k].(displayName := Some(was[k].uid)) else was[k]
    {
      UpdateNameById(t, rows[i].id);
      assert rows[..i + 1] == rows[..i] + [rows[i]];
    }
    assert rows[..|rows|] == rows;
    forall k | 0 <= k < t.Length ensures Touched(was[k], rows) <==> was[k].displayName == None {
      TouchedIff(was, k);
    }
  }

  /** The migrated table: the column added, then the loop. */
  function Migrated(t: seq<LegacyRow>): (r: seq<LegacyRow>)
    ensures |r| == |t|
  {
    Map(Map(t, WithColumn), Backfilled)
  }

  /** No row, id, uid or organization is lost or changed, and every row has its uid for a name. */
  lemma MigrationKeepsRows(t: seq<LegacyRow>, i: nat)
    requires i < |t|
    ensures Migrated(t)[i] == t[i].(displayName := Some(t[i].uid))
  {
  }

  /** The unique constraint of migration 2 can be declared exactly on the tables that meet the
      one of migration 1. */
  lemma NamesUniqueIffUidsUnique(t: seq<LegacyRow>)
    ensures Pairwise(Migrated(t), DistinctNames) <==> Pairwise(t, DistinctUids)
  {
    if Pairwise(t, DistinctUids) {
      forall i, j | 0 <= i < j < |t| ensures DistinctNames(Migrated(t)[i], Migrated(t)[j]) {
        assert DistinctUids(t[i], t[j]);
      }
    }
    if Pairwise(Migrated(t), DistinctNames) {
      forall i, j | 0 <= i < j < |t| ensures DistinctUids(t[i], t[j]) {
        assert DistinctNames(Migrated(t)[i], Migrated(t)[j]);
      }
    }
  }

  /** What migration 2 declares implies what migration 4 declares. */
  lemma RelaxedConstraintHolds(t: seq<LegacyRow>)
    requires Pairwise(t, DistinctNames)
    ensures Pairwise(t, DistinctNamesPerOrg)
  {
    forall i, j | 0 <= i < j < |t| ensures DistinctNamesPerOrg(t[i], t[j]) {
      assert DistinctNames(t[i], t[j]);
    }
  }

  /** The way back from migration 4 fails exactly when two organizations share a name. */
  lemma RestoringFailsIff(t: seq<LegacyRow>)
    requires Pairwise(t, DistinctNamesPerOrg)
    ensures Pairwise(t, DistinctNames) <==>
      forall i, j :: 0 <= i < j < |t| && t[i].displayName.Some? && t[i].displayName == t[j].displayName ==>
        t[i].orgId == t[j].orgId
  {
    if Pairwise(t, DistinctNames) {
      assert forall i, j :: 0 <= i < j < |t| ==> DistinctNames(t[i], t[j]);
    } else {
      var i, j :| 0 <= i < j < |t| && !DistinctNames(t[i], t[j]);
      assert DistinctNamesPerOrg(t[i], t[j]);
    }
  }
}
