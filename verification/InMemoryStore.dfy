/** The slice store: every method updates the two slices in place, as the value functions
    of Registrations and Allowlist say. */
module InMemoryStores {
  import opened Sequences
  import opened GoSlices
  import opened Registrations
  import opened Allowlist

  class InMemoryStore {
    var db: Slice<Registration>
    var allowedAddresses: Slice<AllowlistBlock>

    ghost predicate Valid()
      reads this
    {
      db.Ok() && allowedAddresses.Ok() && db.arr as object != allowedAddresses.arr
    }

    ghost function Rows(): seq<Registration>
      requires Valid()
      reads this, db.arr
    {
      db.View()
    }

    ghost function Blocks(): seq<AllowlistBlock>
      requires Valid()
      reads this, allowedAddresses.arr
    {
      allowedAddresses.View()
    }

    constructor ()
      ensures Valid() && Rows() == [] && Blocks() == []
      ensures fresh(db.arr) && fresh(allowedAddresses.arr)
    {
      var rows := new Registration[0];
      var blocks := new AllowlistBlock[0];
      db := Slice(rows, 0, 0, 0);
      allowedAddresses := Slice(blocks, 0, 0, 0);
    }

    /** The limit and the offset are ignored. */
    method All(orgId: string, limit: int, offset: int) returns (out: seq<Registration>, count: nat)
      requires Valid()
      ensures out == MemoryAll(Rows(), orgId) && count == |out|
    {
      out := [];
      for i := 0 to db.len
        invariant out == Filter(db.View()[..i], OfOrg(orgId))
      {
        var r := db.View()[i];
        assert db.View()[..i + 1] == db.View()[..i] + [r];
        FilterSnoc(db.View()[..i], r, OfOrg(orgId));
        if r.orgId == orgId {
          out := out + [r];
        }
      }
      assert db.View()[..db.len] == db.View();
      count := |out|;
    }

    /** The position of the first record for which `p` holds, by the loop the methods share. */
    method Locate(p: Registration -> bool) returns (i: nat)
      requires Valid()
      ensures i == FirstIndex(Rows(), p)
    {
      i := 0;
      while i < db.len
        invariant i <= db.len
        invariant forall k :: 0 <= k < i ==> !p(db.View()[k])
      {
        if p(db.View()[i]) {
          return;
        }
        i := i + 1;
      }
    }

    method Find(orgId: string, uid: string) returns (r: Result<Registration>)
      requires Valid()
      ensures r == FindFirst(Rows(), BothKeys(orgId, uid))
    {
      var i := Locate(BothKeys(orgId, uid));
      r := if i < db.len then Ok(db.View()[i]) else Err(RegistrationNotFound);
    }

    method FindByUID(uid: string) returns (r: Result<Registration>)
      requires Valid()
      ensures r == FindFirst(Rows(), WithUid(uid))
    {
      var i := Locate(WithUid(uid));
      r := if i < db.len then Ok(db.View()[i]) else Err(RegistrationNotFound);
    }

    method Create(r: Registration, now: nat, spare: nat) returns (err: Option<StoreError>)
      requires Valid()
      modifies this`db, db.arr
      ensures Valid() && (db.arr == old(db.arr) || fresh(db.arr))
      ensures Change(Rows(), err) == MemoryCreate(old(Rows()), r, now)
    {
      var i := Locate(MemoryClash(r));
      if i < db.len {
        return Some(RegistrationAlreadyExists);
      }
      db := Append(db, [r.(createdAt := now)], spare);
      err := None;
    }

    method Update(orgId: string, uid: string, extra: Option<string>) returns (err: Option<StoreError>)
      requires Valid()
      ensures Change(Rows(), err) == MemoryUpdate(Rows(), orgId, uid, extra)
    {
      var found := Find(orgId, uid);
      if found.Err? {
        return Some(found.error);
      }
      if extra == None {
        return Some(NilPointer);
      }
      var copy := found.value.(extra := extra);
      assert copy.uid == uid;
      err := None;
    }

    /** `m.db = append(m.db[:i], m.db[i+1:]...)` shifts the later records left in place: the
        backing array stays, and a header of the old length would see the last record twice. */
    method Delete(orgId: string, uid: string, spare: nat) returns (err: Option<StoreError>)
      requires Valid()
      modifies this`db, db.arr
      ensures Valid() && db.arr == old(db.arr)
      ensures Change(Rows(), err) == MemoryDelete(old(Rows()), orgId, uid)
      ensures err == None <==> exists r :: r in old(Rows()) && (r.orgId == orgId || r.uid == uid)
      ensures err == None ==> old(db).View() == Rows() + [old(Rows()[db.len - 1])]
    {
      MemoryDeleteMeans(Rows(), orgId, uid);
      var i := Locate(EitherKey(orgId, uid));
      if i == db.len {
        return Some(RegistrationNotFound);
      }
      db := CutOut(db, i, spare);
      err := None;
    }

    /** The slice itself is returned, not a copy. */
    method AllowedAddresses(orgId: string) returns (addrs: Slice<AllowlistBlock>)
      requires Valid()
      ensures addrs == allowedAddresses && addrs.View() == Blocks()
    {
      addrs := allowedAddresses;
    }

    method AllowedIP(ip: string, orgId: string, net: Net) returns (check: Check)
      requires Valid()
      ensures check == MemoryAllowedIP(Blocks(), ip, net)
    {
      for i := 0 to allowedAddresses.len
        invariant Scan(allowedAddresses.View(), 0, ip, net, NilNetwork) == Scan(allowedAddresses.View(), i, ip, net, NilNetwork)
      {
        var ipnet := net.parseCIDR(allowedAddresses.View()[i].ipBlock);
        if ipnet == None {
          return NilNetwork;
        }
        if Covers(ipnet.value, net.parseIP(ip)) {
          return Answer(true);
        }
      }
      check := Answer(false);
    }

    method AllowAddress(b: AllowlistBlock, spare: nat) returns (err: Option<BlockError>)
      requires Valid()
      modifies this`allowedAddresses, allowedAddresses.arr
      ensures Valid() && (allowedAddresses.arr == old(allowedAddresses.arr) || fresh(allowedAddresses.arr))
      ensures BlockChange(Blocks(), err) == MemoryAllow(old(Blocks()), b)
    {
      allowedAddresses := Append(allowedAddresses, [b], spare);
      err := None;
    }

    method LocateBlock(b: AllowlistBlock) returns (i: nat)
      requires Valid()
      ensures i == FirstIndex(Blocks(), SameBlock(b))
    {
      i := 0;
      while i < allowedAddresses.len
        invariant i <= allowedAddresses.len
        invariant forall k :: 0 <= k < i ==> !SameBlock(b)(allowedAddresses.View()[k])
      {
        if SameBlock(b)(allowedAddresses.View()[i]) {
          return;
        }
        i := i + 1;
      }
    }

    /** A list handed out by AllowedAddresses before is shifted along: it loses the denied block and
        shows its last block twice. It stays the same exactly when every block from the first copy
        of the pair on is that pair. */
    method DenyAddress(b: AllowlistBlock, spare: nat) returns (err: Option<BlockError>)
      requires Valid()
      modifies this`allowedAddresses, allowedAddresses.arr
      ensures Valid() && allowedAddresses.arr == old(allowedAddresses.arr)
      ensures BlockChange(Blocks(), err) == MemoryDeny(old(Blocks()), b)
      ensures err == None ==>
        old(allowedAddresses).View() == Blocks() + [old(Blocks()[allowedAddresses.len - 1])]
      ensures err == None ==>
        (old(allowedAddresses).View() == old(Blocks()) <==>
           forall k :: FirstIndex(old(Blocks()), SameBlock(b)) <= k < |old(Blocks())| ==> old(Blocks())[k] == b)
    {
      var i := LocateBlock(b);
      if i == allowedAddresses.len {
        return Some(AddressNotAllowListed);
      }
      OldHeaderSameIff(Blocks(), i);
      allowedAddresses := CutOut(allowedAddresses, i, spare);
      err := None;
    }
  }
}
