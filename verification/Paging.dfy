/** Listing an organization's registrations page by page. */
module Paging {
  import opened Sequences
  import opened Registrations
  import opened StoreAgreement

  /** The rows of the page at one offset, and the count it reports. */
  function PageAt(t: seq<Registration>, orgId: string, limit: nat, offset: nat): (seq<Registration>, nat) {
    TableAll(t, orgId, limit, offset).value
  }

  /** The pages at `offset`, `offset + limit`, ... while the offset is below the reported count. */
  function PagesFrom(t: seq<Registration>, orgId: string, limit: nat, offset: nat): seq<Registration>
    requires limit > 0
    decreases |t| - offset
  {
    var (page, count) := PageAt(t, orgId, limit, offset);
    if offset >= count then [] else page + PagesFrom(t, orgId, limit, offset + limit)
  }

  // ----- what `order by created_at desc` gives -----

  predicate Newer(a: Registration, b: Registration) {
    a.createdAt > b.createdAt
  }

  lemma {:induction false} InsertPermutes(sorted: seq<Registration>, r: Registration)
    ensures multiset(InsertByAge(sorted, r)) == multiset(sorted) + multiset{r}
  {
    if sorted != [] && !(r.createdAt > sorted[0].createdAt) {
      InsertPermutes(sorted[1..], r);
      assert sorted == [sorted[0]] + sorted[1..];
    }
  }

  lemma {:induction false} NewestFirstPermutes(rows: seq<Registration>)
    ensures multiset(NewestFirst(rows)) == multiset(rows)
  {
    if rows != [] {
      var front, last := rows[..|rows| - 1], rows[|rows| - 1];
      assert multiset(rows) == multiset(front) + multiset{last} by {
        assert rows == front + [last];
      }
      NewestFirstPermutes(front);
      InsertPermutes(NewestFirst(front), last);
    }
  }

  lemma OwnRowsStrict(t: seq<Registration>, orgId: string, now: nat)
    requires TableInvariant(t, now)
    ensures Pairwise(NewestFirst(Filter(t, OfOrg(orgId))), Newer)
  {
    OwnRowsNewestFirst(t, orgId, now);
    var mine := Filter(t, OfOrg(orgId));
    FilterPairwise(t, OfOrg(orgId), TableOrder);
    forall i, j | 0 <= i < j < |mine| ensures Newer(Reverse(mine)[i], Reverse(mine)[j]) {
      assert TableOrder(mine[|mine| - 1 - j], mine[|mine| - 1 - i]);
    }
  }

  /** Distinct creation times leave the statement no choice: every arrangement of the same rows
      that is strictly newest first is this one. */
  lemma OrderIsDetermined(t: seq<Registration>, orgId: string, now: nat, other: seq<Registration>)
    requires TableInvariant(t, now)
    requires Pairwise(other, Newer) && multiset(other) == multiset(Filter(t, OfOrg(orgId)))
    ensures other == NewestFirst(Filter(t, OfOrg(orgId)))
  {
    NewestFirstPermutes(Filter(t, OfOrg(orgId)));
    OwnRowsStrict(t, orgId, now);
    ArrangementIsDetermined(other, NewestFirst(Filter(t, OfOrg(orgId))), Newer);
  }

  // ----- paging -----

  lemma PageThenRest<T>(rows: seq<T>, limit: nat, offset: nat)
    requires offset < |rows|
    ensures rows[offset..]
      == Page(rows, limit, offset) + (if offset + limit < |rows| then rows[offset + limit..] else [])
  {
  }

  function PagesOf<T>(rows: seq<T>, limit: nat, offset: nat): seq<T>
    requires limit > 0
    decreases |rows| - offset
  {
    if offset >= |rows| then [] else Page(rows, limit, offset) + PagesOf(rows, limit, offset + limit)
  }

  lemma {:induction false} PagesAreTheRest<T>(rows: seq<T>, limit: nat, offset: nat)
    requires limit > 0
    ensures PagesOf(rows, limit, offset) == if offset < |rows| then rows[offset..] else []
    decreases |rows| - offset
  {
    if offset < |rows| {
      PagesAreTheRest(rows, limit, offset + limit);
      PageThenRest(rows, limit, offset);
    }
  }

  lemma {:induction false} PagesComeFromTheOrder(t: seq<Registration>, orgId: string, limit: nat, offset: nat)
    requires limit > 0
    ensures PagesFrom(t, orgId, limit, offset) == PagesOf(NewestFirst(Filter(t, OfOrg(orgId))), limit, offset)
    decreases |t| - offset
  {
    if offset < |Filter(t, OfOrg(orgId))| {
      PagesComeFromTheOrder(t, orgId, limit, offset + limit);
    }
  }

  /** For every page size the pages in turn list each registration of the organization exactly
      once and newest first. */
  lemma PagesListEverythingOnce(t: seq<Registration>, orgId: string, limit: nat, now: nat)
    requires limit > 0 && TableInvariant(t, now)
    ensures PagesFrom(t, orgId, limit, 0) == Reverse(Filter(t, OfOrg(orgId)))
    ensures multiset(PagesFrom(t, orgId, limit, 0)) == multiset(Filter(t, OfOrg(orgId)))
    ensures Pairwise(PagesFrom(t, orgId, limit, 0), Newer)
  {
    var newest := NewestFirst(Filter(t, OfOrg(orgId)));
    assert PagesFrom(t, orgId, limit, 0) == newest by {
      PagesComeFromTheOrder(t, orgId, limit, 0);
      PagesAreTheRest(newest, limit, 0);
      assert newest[0..] == newest && (|newest| == 0 ==> newest == []);
    }
    NewestFirstPermutes(Filter(t, OfOrg(orgId)));
    OwnRowsStrict(t, orgId, now);
    OwnRowsNewestFirst(t, orgId, now);
  }

  /** Every page reports the number of the organization's registrations, a page is full as long
      as enough rows are left, and the last one holds what is left. */
  lemma PageSizes(t: seq<Registration>, orgId: string, limit: nat, offset: nat)
    ensures var (page, count) := PageAt(t, orgId, limit, offset);
      && count == |Filter(t, OfOrg(orgId))|
      && |page| == if offset + limit <= count then limit else if offset < count then count - offset else 0
  {
  }
}
