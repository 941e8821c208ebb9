/** The slice store against the tables: exactly when one operation agrees on both, and
    exactly when whole runs do. */
module StoreAgreement {
  import opened Sequences
  import opened Registrations
  import opened Allowlist

  lemma MemoryKeepsTableConstraints(db: seq<Registration>, now: nat)
    requires MemoryInvariant(db, now)
    ensures TableInvariant(db, now)
  {
    forall i, j | 0 <= i < j < |db| ensures TableOrder(db[i], db[j]) {
      assert MemoryOrder(db[i], db[j]);
    }
  }

  // ----- Create -----

  /** The only clash is a display name that another organization uses. */
  predicate OnlyForeignName(db: seq<Registration>, r: Registration) {
    Has(db, MemoryClash(r)) && !Has(db, TableClash(r))
  }

  lemma CreateAgreesIff(db: seq<Registration>, r: Registration, now: nat)
    ensures MemoryCreate(db, r, now) == TableCreate(db, r, now) <==> !OnlyForeignName(db, r)
    ensures MemoryCreate(db, r, now).err == None ==> TableCreate(db, r, now) == MemoryCreate(db, r, now)
    ensures TableCreate(db, r, now).err != None ==> MemoryCreate(db, r, now).err != None
    ensures OnlyForeignName(db, r) ==>
      exists x :: x in db && x.displayName == r.displayName && x.orgId != r.orgId && x.uid != r.uid
  {
    var i := FirstIndex(db, TableClash(r));
    if i < |db| {
      assert MemoryClash(r)(db[i]);
    } else if Has(db, MemoryClash(r)) {
      var x := db[FirstIndex(db, MemoryClash(r))];
      assert x in db && !TableClash(r)(x);
    }
  }

  // ----- Update -----

  /** The update would change nothing: a record has both keys and holds the new value already. */
  predicate UpdateIsNoop(db: seq<Registration>, orgId: string, uid: string, extra: Option<string>) {
    Has(db, BothKeys(orgId, uid)) && extra.Some? &&
    forall i :: 0 <= i < |db| && db[i].orgId == orgId && db[i].uid == uid ==> db[i].extra == extra
  }

  lemma UpdateAgreesIff(db: seq<Registration>, orgId: string, uid: string, extra: Option<string>)
    ensures MemoryUpdate(db, orgId, uid, extra) == TableUpdate(db, orgId, uid, extra)
      <==> UpdateIsNoop(db, orgId, uid, extra)
  {
    var t := TableUpdate(db, orgId, uid, extra).rows;
    assert t == db <==> forall i :: 0 <= i < |db| ==> WithExtra(orgId, uid, extra)(db[i]) == db[i];
  }

  // ----- Delete -----

  /** The first record with either key has both, or no record has either. */
  predicate FirstMatchHasBothKeys(db: seq<Registration>, orgId: string, uid: string) {
    var i := FirstIndex(db, (r: Registration) => r.orgId == orgId || r.uid == uid);
    i == |db| || (db[i].orgId == orgId && db[i].uid == uid)
  }

  lemma DeleteAgreesIff(db: seq<Registration>, orgId: string, uid: string, now: nat)
    requires TableInvariant(db, now)
    ensures MemoryDelete(db, orgId, uid) == TableDelete(db, orgId, uid)
      <==> FirstMatchHasBothKeys(db, orgId, uid)
  {
    TableDeleteOne(db, orgId, uid, now);
    var i := FirstIndex(db, EitherKey(orgId, uid));
    var j := FirstIndex(db, BothKeys(orgId, uid));
    if j < |db| {
      assert EitherKey(orgId, uid)(db[j]);
      assert i <= j;
      if i < j {
        assert TableOrder(db[i], db[i + 1]);
        RemoveAtElement(db, i, i);
        RemoveAtElement(db, j, i);
      }
    }
  }

  /** A delete the slice store reports as not found is not found in the table. */
  lemma NotFoundAgrees(db: seq<Registration>, orgId: string, uid: string, now: nat)
    requires TableInvariant(db, now)
    requires MemoryDelete(db, orgId, uid).err != None
    ensures TableDelete(db, orgId, uid) == Change(db, Some(RegistrationNotFound))
    ensures MemoryDelete(db, orgId, uid) == Change(db, Some(RegistrationNotFound))
  {
    DeleteAgreesIff(db, orgId, uid, now);
  }

  // ----- All -----

  lemma NewerGoesFirst(sorted: seq<Registration>, r: Registration)
    requires forall i :: 0 <= i < |sorted| ==> sorted[i].createdAt < r.createdAt
    ensures InsertByAge(sorted, r) == [r] + sorted
  {
  }

  lemma {:induction false} NewestFirstReverses(rows: seq<Registration>)
    requires forall i, j :: 0 <= i < j < |rows| ==> rows[i].createdAt < rows[j].createdAt
    ensures NewestFirst(rows) == Reverse(rows)
  {
    if rows != [] {
      var n := |rows| - 1;
      NewestFirstReverses(rows[..n]);
      NewerGoesFirst(Reverse(rows[..n]), rows[n]);
      assert [rows[n]] + Reverse(rows[..n]) == Reverse(rows);
    }
  }

  /** The rows of one organization come out of the table newest first, that is in the reverse
      of their creation order. */
  lemma OwnRowsNewestFirst(t: seq<Registration>, orgId: string, now: nat)
    requires TableInvariant(t, now)
    ensures NewestFirst(Filter(t, OfOrg(orgId))) == Reverse(Filter(t, OfOrg(orgId)))
  {
    var mine := Filter(t, OfOrg(orgId));
    FilterPairwise(t, OfOrg(orgId), TableOrder);
    forall i, j | 0 <= i < j < |mine| ensures mine[i].createdAt < mine[j].createdAt {
      assert TableOrder(mine[i], mine[j]);
    }
    NewestFirstReverses(mine);
  }

  lemma PageMeans<T>(rows: seq<T>, limit: nat, offset: nat)
    ensures var page := Page(rows, limit, offset); var n := |rows|;
      && |page| == (if offset >= n then 0 else if offset + limit <= n then limit else n - offset)
      && forall k :: 0 <= k < |page| ==> page[k] == rows[offset + k]
  {
  }

  /** A page of the table: counted from the newest of the organization's rows backwards. */
  lemma TablePageMeans(t: seq<Registration>, orgId: string, limit: nat, offset: nat, now: nat)
    requires TableInvariant(t, now)
    ensures var own := Filter(t, (r: Registration) => r.orgId == orgId); var n := |own|;
      var all := TableAll(t, orgId, limit, offset);
      && all.Ok? && all.value.1 == n
      && |all.value.0| == (if offset >= n then 0 else if offset + limit <= n then limit else n - offset)
      && forall k :: 0 <= k < |all.value.0| ==> all.value.0[k] == own[n - 1 - offset - k]
  {
    OwnRowsMean(t, orgId);
    OwnRowsNewestFirst(t, orgId, now);
    PageMeans(NewestFirst(Filter(t, OfOrg(orgId))), limit, offset);
    hide TableInvariant, NewestFirst, Page, Filter;
  }

  lemma WholePageIff<T>(rows: seq<T>, limit: nat, offset: nat)
    ensures |Page(rows, limit, offset)| == |rows| <==> |rows| <= limit && (offset == 0 || rows == [])
    ensures |Page(rows, limit, offset)| == |rows| ==> Page(rows, limit, offset) == rows
  {
  }

  /** The table lists the reverse of what the slice store lists, with the same count, exactly when
      the statement takes the parameters and the page cuts nothing off at either end. */
  lemma AllAgreesIff(db: seq<Registration>, orgId: string, limit: int, offset: int, now: nat)
    requires TableInvariant(db, now)
    ensures var own := MemoryAll(db, orgId);
      (TableAll(db, orgId, limit, offset) == Ok((Reverse(own), |own|)) <==>
         |own| <= limit && offset >= 0 && (offset == 0 || own == []))
  {
    OwnRowsNewestFirst(db, orgId, now);
    if limit >= 0 && offset >= 0 {
      WholePageIff(Reverse(MemoryAll(db, orgId)), limit, offset);
    }
  }

  // ----- AllowAddress, DenyAddress, AllowedIP -----

  lemma AllowAgreesIff(blocks: seq<AllowlistBlock>, b: AllowlistBlock)
    ensures MemoryAllow(blocks, b) == TableAllow(blocks, b) <==> b !in blocks
  {
    if b in blocks {
      var k :| 0 <= k < |blocks| && blocks[k] == b;
      assert SameBlock(b)(blocks[k]);
    }
  }

  /** The statement takes every copy of the pair. */
  lemma {:induction false} TableDenyTakesAll(blocks: seq<AllowlistBlock>, b: AllowlistBlock)
    ensures |Filter(blocks, OtherBlock(b))| == |blocks| - multiset(blocks)[b]
  {
    if blocks != [] {
      var front, last := blocks[..|blocks| - 1], blocks[|blocks| - 1];
      TableDenyTakesAll(front, b);
      assert blocks == front + [last];
    }
  }

  lemma OnlyCopy(blocks: seq<AllowlistBlock>, i: nat, k: nat)
    requires i < |blocks| && k < |blocks| && k != i && multiset(blocks)[blocks[i]] == 1
    ensures blocks[k] != blocks[i]
  {
    RemoveAtMultiset(blocks, i);
    assert multiset(RemoveAt(blocks, i))[blocks[i]] == 0;
    RemoveAtElement(blocks, i, if k < i then k else k - 1);
    assert blocks[k] in RemoveAt(blocks, i);
  }

  /** The slice store removes the first copy of a pair, the table all of them. */
  lemma DenyAgreesIff(blocks: seq<AllowlistBlock>, b: AllowlistBlock)
    ensures MemoryDeny(blocks, b) == TableDeny(blocks, b) <==> multiset(blocks)[b] <= 1
  {
    TableDenyTakesAll(blocks, b);
    var i := FirstIndex(blocks, SameBlock(b));
    if i == |blocks| {
      FilterKeepsAll(blocks, OtherBlock(b));
    } else if multiset(blocks)[b] <= 1 {
      assert blocks[i] == b;
      forall k | 0 <= k < |blocks| && k != i ensures OtherBlock(b)(blocks[k]) {
        OnlyCopy(blocks, i, k);
      }
      FilterDropsOne(blocks, i, OtherBlock(b));
    }
  }

  /** When all blocks parse, the two address checks agree exactly when an address covered by any
      block at all is covered by one of the organization or of `system`: the slice store lets the
      blocks of one organization open the gate to every other. */
  lemma ChecksAgreeIff(blocks: seq<AllowlistBlock>, ip: string, orgId: string, net: Net)
    requires AllParse(blocks, net)
    ensures MemoryAllowedIP(blocks, ip, net) == TableAllowedIP(blocks, ip, orgId, net) <==>
      (Covered(blocks, 0, ip, net) ==> exists b :: b in blocks && (b.orgId == orgId || b.orgId == "system") && BlockCovers(b, ip, net))
  {
    ChecksCompared(blocks, ip, orgId, net);
    if b :| b in blocks && (b.orgId == orgId || b.orgId == "system") && BlockCovers(b, ip, net) {
      var k :| 0 <= k < |blocks| && blocks[k] == b;
      assert Covered(blocks, 0, ip, net);
    }
  }

  // ----- runs -----

  /** Both tables, or both slices. */
  datatype Tables = Tables(regs: seq<Registration>, blocks: seq<AllowlistBlock>)

  datatype Op =
    | Create(r: Registration)
    | Update(orgId: string, uid: string, extra: Option<string>)
    | Delete(orgId: string, uid: string)
    | AllowAddress(b: AllowlistBlock)
    | DenyAddress(b: AllowlistBlock)

  /** What an operation reports. */
  datatype Reported = OfRegistration(err: Option<StoreError>) | OfAddress(blockErr: Option<BlockError>)

  function Registered(s: Tables, change: Change): (Tables, Reported) {
    (s.(regs := change.rows), OfRegistration(change.err))
  }

  function Listed(s: Tables, change: BlockChange): (Tables, Reported) {
    (s.(blocks := change.blocks), OfAddress(change.err))
  }

  function MemoryStep(s: Tables, op: Op, now: nat): (Tables, Reported) {
    match op
    case Create(r) => Registered(s, MemoryCreate(s.regs, r, now))
    case Update(orgId, uid, extra) => Registered(s, MemoryUpdate(s.regs, orgId, uid, extra))
    case Delete(orgId, uid) => Registered(s, MemoryDelete(s.regs, orgId, uid))
    case AllowAddress(b) => Listed(s, MemoryAllow(s.blocks, b))
    case DenyAddress(b) => Listed(s, MemoryDeny(s.blocks, b))
  }

  function TableStep(s: Tables, op: Op, now: nat): (Tables, Reported) {
    match op
    case Create(r) => Registered(s, TableCreate(s.regs, r, now))
    case Update(orgId, uid, extra) => Registered(s, TableUpdate(s.regs, orgId, uid, extra))
    case Delete(orgId, uid) => Registered(s, TableDelete(s.regs, orgId, uid))
    case AllowAddress(b) => Listed(s, TableAllow(s.blocks, b))
    case DenyAddress(b) => Listed(s, TableDeny(s.blocks, b))
  }

  /** What a caller can check on the records before the call. */
  ghost predicate Agreeable(s: Tables, op: Op) {
    match op
    case Create(r) => !OnlyForeignName(s.regs, r)
    case Update(orgId, uid, extra) => UpdateIsNoop(s.regs, orgId, uid, extra)
    case Delete(orgId, uid) => FirstMatchHasBothKeys(s.regs, orgId, uid)
    case AllowAddress(b) => b !in s.blocks
    case DenyAddress(b) => multiset(s.blocks)[b] <= 1
  }

  /** The records after a run; the clock advances with every operation. */
  function MemoryRun(s: Tables, ops: seq<Op>, now: nat): Tables
    decreases |ops|
  {
    if ops == [] then s else MemoryRun(MemoryStep(s, ops[0], now).0, ops[1..], now + 1)
  }

  function TableRun(s: Tables, ops: seq<Op>, now: nat): Tables
    decreases |ops|
  {
    if ops == [] then s else TableRun(TableStep(s, ops[0], now).0, ops[1..], now + 1)
  }

  /** The stores hold the same records before, between and after the operations, and every
      operation reports the same on both. */
  predicate InStep(m: Tables, t: Tables, ops: seq<Op>, now: nat)
    decreases |ops|
  {
    m == t &&
    (ops == [] ||
     (MemoryStep(m, ops[0], now).1 == TableStep(t, ops[0], now).1 &&
      InStep(MemoryStep(m, ops[0], now).0, TableStep(t, ops[0], now).0, ops[1..], now + 1)))
  }

  /** Every operation meets its condition when it is called on the slice store. */
  ghost predicate AlwaysAgreeable(s: Tables, ops: seq<Op>, now: nat)
    decreases |ops|
  {
    ops == [] ||
    (Agreeable(s, ops[0]) && AlwaysAgreeable(MemoryStep(s, ops[0], now).0, ops[1..], now + 1))
  }

  lemma StepAgreesIff(s: Tables, op: Op, now: nat)
    requires MemoryInvariant(s.regs, now)
    ensures MemoryStep(s, op, now) == TableStep(s, op, now) <==> Agreeable(s, op)
  {
    MemoryKeepsTableConstraints(s.regs, now);
    match op
    case Create(r) => CreateAgreesIff(s.regs, r, now);
    case Update(orgId, uid, extra) => UpdateAgreesIff(s.regs, orgId, uid, extra);
    case Delete(orgId, uid) => DeleteAgreesIff(s.regs, orgId, uid, now);
    case AllowAddress(b) => AllowAgreesIff(s.blocks, b);
    case DenyAddress(b) => DenyAgreesIff(s.blocks, b);
  }

  lemma MemoryStepKeeps(s: Tables, op: Op, now: nat)
    requires MemoryInvariant(s.regs, now)
    ensures MemoryInvariant(MemoryStep(s, op, now).0.regs, now + 1)
  {
    match op
    case Create(r) => MemoryCreateKeeps(s.regs, r, now);
    case Delete(orgId, uid) => MemoryDeleteKeeps(s.regs, orgId, uid, now);
    case _ =>
  }

  /** The constraints of both tables. */
  ghost predicate TablesInvariant(s: Tables, now: nat) {
    TableInvariant(s.regs, now) && Pairwise(s.blocks, Distinct)
  }

  lemma TableStepKeeps(s: Tables, op: Op, now: nat)
    requires TablesInvariant(s, now)
    ensures TablesInvariant(TableStep(s, op, now).0, now + 1)
  {
    match op
    case Create(r) => TableCreateKeeps(s.regs, r, now);
    case Update(orgId, uid, extra) => TableUpdateKeeps(s.regs, orgId, uid, extra, now);
    case Delete(orgId, uid) => TableDeleteOne(s.regs, orgId, uid, now);
    case AllowAddress(b) => TableAllowKeepsKey(s.blocks, b);
    case DenyAddress(b) => TableDenyBalance(s.blocks, b);
  }

  /** Over every run of the slice store uids and display names stay pairwise distinct and the
      records stay in creation order. */
  lemma {:induction false} MemoryRunKeeps(s: Tables, ops: seq<Op>, now: nat)
    requires MemoryInvariant(s.regs, now)
    ensures MemoryInvariant(MemoryRun(s, ops, now).regs, now + |ops|)
    decreases |ops|
  {
    if ops != [] {
      MemoryStepKeeps(s, ops[0], now);
      MemoryRunKeeps(MemoryStep(s, ops[0], now).0, ops[1..], now + 1);
    }
  }

  /** Over every run of the tables their constraints hold. */
  lemma {:induction false} TableRunKeeps(s: Tables, ops: seq<Op>, now: nat)
    requires TablesInvariant(s, now)
    ensures TablesInvariant(TableRun(s, ops, now), now + |ops|)
    decreases |ops|
  {
    if ops != [] {
      TableStepKeeps(s, ops[0], now);
      TableRunKeeps(TableStep(s, ops[0], now).0, ops[1..], now + 1);
    }
  }

  /** Two stores that start with the same records stay in step through a run of registration and
      allowlist writes exactly when every operation meets its condition when it is called. */
  lemma {:induction false} RunsAgreeIff(s: Tables, ops: seq<Op>, now: nat)
    requires MemoryInvariant(s.regs, now)
    ensures InStep(s, s, ops, now) <==> AlwaysAgreeable(s, ops, now)
    ensures InStep(s, s, ops, now) ==> MemoryRun(s, ops, now) == TableRun(s, ops, now)
    decreases |ops|
  {
    if ops != [] {
      StepAgreesIff(s, ops[0], now);
      MemoryStepKeeps(s, ops[0], now);
      RunsAgreeIff(MemoryStep(s, ops[0], now).0, ops[1..], now + 1);
    }
  }

  // ----- where the two stores part -----

  function Sample(orgId: string, uid: string, name: string, createdAt: nat): Registration {
    Registration(orgId, "", uid, name, None, createdAt)
  }

  /** Two registrations of one organization: deleting the second removes the first from the
      slice store and the second from the table. */
  lemma DeletesPart()
    ensures var a, b := Sample("o", "1", "x", 0), Sample("o", "2", "y", 1);
      && MemoryInvariant([a, b], 2)
      && MemoryDelete([a, b], "o", "2") == Change([b], None)
      && TableDelete([a, b], "o", "2") == Change([a], None)
  {
    var a, b := Sample("o", "1", "x", 0), Sample("o", "2", "y", 1);
    var db := [a, b];
    assert db[0].uid != "2" && db[1].uid == "2";
    assert EitherKey("o", "2")(db[0]) && BothKeys("o", "2")(db[1]) && !BothKeys("o", "2")(db[0]);
    assert MemoryInvariant(db, 2);
    MemoryKeepsTableConstraints(db, 2);
    TableDeleteOne(db, "o", "2", 2);
    assert RemoveAt(db, 1) == [a] && RemoveAt(db, 0) == [b];
  }

  /** The uid of another organization: the slice store deletes the record, the table does not. */
  lemma ForeignUidParts()
    ensures var a := Sample("o", "1", "x", 0);
      && MemoryDelete([a], "p", "1") == Change([], None)
      && TableDelete([a], "p", "1") == Change([a], Some(RegistrationNotFound))
  {
    var a := Sample("o", "1", "x", 0);
    assert a.orgId != "p";
    MemoryDeleteMeans([a], "p", "1");
    assert a in [a] && [a][0].uid == "1";
    FilterKeepsAll([a], NotBothKeys("p", "1"));
    assert RemoveAt([a], 0) == [];
  }

  /** A display name of another organization is refused by the slice store only. */
  lemma CreatesPart()
    ensures var a := Sample("o", "1", "x", 0);
      && MemoryCreate([a], Sample("p", "3", "x", 0), 1) == Change([a], Some(RegistrationAlreadyExists))
      && TableCreate([a], Sample("p", "3", "x", 0), 1).err == None
  {
    var a, r := Sample("o", "1", "x", 0), Sample("p", "3", "x", 0);
    assert a.uid != r.uid && a.orgId != r.orgId;
    assert MemoryClash(r)([a][0]) && !TableClash(r)([a][0]);
  }

  /** A block of another organization opens the gate of the slice store only. */
  lemma ChecksPart(b: AllowlistBlock, ip: string, orgId: string, net: Net)
    requires BlockCovers(b, ip, net) && b.orgId != orgId && b.orgId != "system"
    ensures MemoryAllowedIP([b], ip, net) == Answer(true)
    ensures TableAllowedIP([b], ip, orgId, net) == Answer(false)
  {
    ChecksCompared([b], ip, orgId, net);
    assert BlockCovers([b][0], ip, net);
  }
}
