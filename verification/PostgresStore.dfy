/** The SQL store: the two tables, each statement one atomic step, and the row loops of the
    Go methods around them. */
module PostgresStores {
  import opened Sequences
  import opened Registrations
  import opened Allowlist

  class PostgresStore {
    var registrations: seq<Registration>
    var allowlist: seq<AllowlistBlock>

    constructor ()
      ensures registrations == [] && allowlist == []
    {
      registrations, allowlist := [], [];
    }

    /** A page, newest first, and the count over all pages. */
    method All(orgId: string, limit: int, offset: int) returns (r: Result<(seq<Registration>, nat)>)
      ensures r == TableAll(registrations, orgId, limit, offset)
    {
      if limit < 0 || offset < 0 {
        return Err(DatabaseError);
      }
      var rows := Page(NewestFirst(Filter(registrations, OfOrg(orgId))), limit, offset);
      var out := [];
      for i := 0 to |rows|
        invariant out == rows[..i]
      {
        out := out + [rows[i]];
      }
      var count := |Filter(registrations, OfOrg(orgId))|;
      assert out == rows;
      r := Ok((out, count));
    }

    method Find(orgId: string, uid: string) returns (r: Result<Registration>)
      ensures r == FindFirst(registrations, BothKeys(orgId, uid))
    {
      r := FindFirst(registrations, BothKeys(orgId, uid));
    }

    method FindByUID(uid: string) returns (r: Result<Registration>)
      ensures r == FindFirst(registrations, WithUid(uid))
    {
      r := FindFirst(registrations, WithUid(uid));
    }

    method Create(r: Registration, now: nat) returns (err: Option<StoreError>)
      modifies this`registrations
      ensures Change(registrations, err) == TableCreate(old(registrations), r, now)
    {
      if Has(registrations, TableClash(r)) {
        return Some(RegistrationAlreadyExists);
      }
      registrations := registrations + [r.(createdAt := now)];
      err := None;
    }

    method Update(orgId: string, uid: string, extra: Option<string>) returns (err: Option<StoreError>)
      modifies this`registrations
      ensures Change(registrations, err) == TableUpdate(old(registrations), orgId, uid, extra)
    {
      registrations := Map(registrations, WithExtra(orgId, uid, extra));
      err := None;
    }

    method Delete(orgId: string, uid: string) returns (err: Option<StoreError>)
      modifies this`registrations
      ensures Change(registrations, err) == TableDelete(old(registrations), orgId, uid)
    {
      var left := Filter(registrations, NotBothKeys(orgId, uid));
      var count := |registrations| - |left|;
      registrations := left;
      err := if count != 1 then Some(RegistrationNotFound) else None;
    }

    method AllowedIP(ip: string, orgId: string, net: Net) returns (check: Check)
      ensures check == TableAllowedIP(allowlist, ip, orgId, net)
      ensures AllParse(allowlist, net) ==>
        check == Answer(exists b :: b in allowlist && (b.orgId == orgId || b.orgId == "system") && BlockCovers(b, ip, net))
    {
      if AllParse(allowlist, net) {
        ChecksCompared(allowlist, ip, orgId, net);
      }
      var rows := Filter(allowlist, ForOrg(orgId));
      var blocks := [];
      for i := 0 to |rows|
        invariant blocks == rows[..i]
      {
        blocks := blocks + [rows[i]];
      }
      assert blocks == rows;
      for i := 0 to |blocks|
        invariant Scan(blocks, 0, ip, net, ParseError) == Scan(blocks, i, ip, net, ParseError)
      {
        var ipnet := net.parseCIDR(blocks[i].ipBlock);
        if ipnet == None {
          return ParseError;
        }
        if Covers(ipnet.value, net.parseIP(ip)) {
          return Answer(true);
        }
      }
      check := Answer(false);
    }

    method AllowAddress(b: AllowlistBlock) returns (err: Option<BlockError>)
      modifies this`allowlist
      ensures BlockChange(allowlist, err) == TableAllow(old(allowlist), b)
    {
      if FirstIndex(allowlist, SameBlock(b)) < |allowlist| {
        return Some(PrimaryKeyViolation);
      }
      allowlist := allowlist + [b];
      err := None;
    }

    method DenyAddress(b: AllowlistBlock) returns (err: Option<BlockError>)
      modifies this`allowlist
      ensures BlockChange(allowlist, err) == TableDeny(old(allowlist), b)
    {
      var left := Filter(allowlist, OtherBlock(b));
      var rows := |allowlist| - |left|;
      allowlist := left;
      err := if rows == 0 then Some(AddressNotAllowListed) else None;
    }

    method AllowedAddresses(orgId: string) returns (addresses: seq<AllowlistBlock>)
      ensures addresses == Filter(allowlist, OwnedBy(orgId))
    {
      var rows := Filter(allowlist, OwnedBy(orgId));
      addresses := [];
      for i := 0 to |rows|
        invariant addresses == rows[..i]
      {
        addresses := addresses + [rows[i]];
      }
    }
  }
}
