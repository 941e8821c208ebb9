/** The handlers as they run: guards with early returns, then calls on the configured store.
    Each is proved to take the step that HandlerSteps describes, and serving a sequence of
    requests to take the run of these steps. */
module Handlers {
  import opened Sequences
  import opened Registrations
  import opened Allowlist
  import opened Certs
  import opened HandlerSteps
  import opened InMemoryStores
  import opened PostgresStores

  /** The store interface: one of its two implementations. */
  datatype Store = InMemory(mem: InMemoryStore) | Sql(pg: PostgresStore) {

    function Kind(): Backend {
      if InMemory? then Memory else Postgres
    }

    ghost predicate Valid()
      reads if InMemory? then {mem} else {}
    {
      InMemory? ==> mem.Valid()
    }

    ghost function Footprint(): set<object>
      reads if InMemory? then {mem} else {}
    {
      if InMemory? then {mem, mem.db.arr, mem.allowedAddresses.arr} else {pg}
    }

    ghost function Regs(): seq<Registration>
      requires Valid()
      reads if InMemory? then {mem, mem.db.arr} else {pg}
    {
      if InMemory? then mem.Rows() else pg.registrations
    }

    ghost function Blocks(): seq<AllowlistBlock>
      requires Valid()
      reads if InMemory? then {mem, mem.allowedAddresses.arr} else {pg}
    {
      if InMemory? then mem.Blocks() else pg.allowlist
    }

    ghost function At(now: nat): State
      requires Valid()
      reads if InMemory? then {mem, mem.db.arr, mem.allowedAddresses.arr} else {pg}
    {
      State(Regs(), Blocks(), now)
    }

    method All(orgId: string, limit: int, offset: int) returns (r: Result<(seq<Registration>, nat)>)
      requires Valid()
      ensures r == StoreAll(Kind(), Regs(), orgId, limit, offset)
    {
      match this
      case InMemory(mem) =>
        var rows, count := mem.All(orgId, limit, offset);
        r := Ok((rows, count));
      case Sql(pg) => r := pg.All(orgId, limit, offset);
    }

    method FindByUID(uid: string) returns (r: Result<Registration>)
      requires Valid()
      ensures r == FindFirst(Regs(), WithUid(uid))
    {
      match this
      case InMemory(mem) => r := mem.FindByUID(uid);
      case Sql(pg) => r := pg.FindByUID(uid);
    }

    method Create(r: Registration, now: nat, spare: nat) returns (err: Option<StoreError>)
      requires Valid()
      modifies Footprint()
      ensures Valid() && fresh(Footprint() - old(Footprint())) && Blocks() == old(Blocks())
      ensures Change(Regs(), err) == StoreCreate(Kind(), old(Regs()), r, now)
    {
      match this
      case InMemory(mem) => err := mem.Create(r, now, spare);
      case Sql(pg) => err := pg.Create(r, now);
    }

    method Delete(orgId: string, uid: string, spare: nat) returns (err: Option<StoreError>)
      requires Valid()
      modifies Footprint()
      ensures Valid() && fresh(Footprint() - old(Footprint())) && Blocks() == old(Blocks())
      ensures Change(Regs(), err) == StoreDelete(Kind(), old(Regs()), orgId, uid)
    {
      match this
      case InMemory(mem) => err := mem.Delete(orgId, uid, spare);
      case Sql(pg) => err := pg.Delete(orgId, uid);
    }

    method AllowedIP(ip: string, orgId: string, net: Net) returns (check: Check)
      requires Valid()
      ensures check == StoreAllowedIP(Kind(), Blocks(), ip, orgId, net)
    {
      match this
      case InMemory(mem) => check := mem.AllowedIP(ip, orgId, net);
      case Sql(pg) => check := pg.AllowedIP(ip, orgId, net);
    }

    method AllowAddress(b: AllowlistBlock, spare: nat) returns (err: Option<BlockError>)
      requires Valid()
      modifies Footprint()
      ensures Valid() && fresh(Footprint() - old(Footprint())) && Regs() == old(Regs())
      ensures BlockChange(Blocks(), err) == StoreAllow(Kind(), old(Blocks()), b)
    {
      match this
      case InMemory(mem) => err := mem.AllowAddress(b, spare);
      case Sql(pg) => err := pg.AllowAddress(b);
    }

    method DenyAddress(b: AllowlistBlock, spare: nat) returns (err: Option<BlockError>)
      requires Valid()
      modifies Footprint()
      ensures Valid() && fresh(Footprint() - old(Footprint())) && Regs() == old(Regs())
      ensures BlockChange(Blocks(), err) == StoreDeny(Kind(), old(Blocks()), b)
    {
      match this
      case InMemory(mem) => err := mem.DenyAddress(b, spare);
      case Sql(pg) => err := pg.DenyAddress(b);
    }

    method AllowedAddresses(orgId: string) returns (blocks: seq<AllowlistBlock>)
      requires Valid()
      ensures blocks == StoreBlocks(Kind(), Blocks(), orgId)
    {
      match this
      case InMemory(mem) =>
        var addrs := mem.AllowedAddresses(orgId);
        blocks := addrs.View();
      case Sql(pg) => blocks := pg.AllowedAddresses(orgId);
    }
  }

  method RegistrationCreateHandler(db: Store, cfg: Config, net: Net, id: Identity, remote: string,
                                   certHeader: string, body: Option<CreateBody>, now: nat, spare: nat)
    returns (answer: Response)
    requires db.Valid()
    modifies db.Footprint()
    ensures db.Valid() && fresh(db.Footprint() - old(db.Footprint()))
    ensures (db.Regs(), answer) == RegisterStep(db.Kind(), cfg, net, old(db.At(now)), id, remote, certHeader, body)
    ensures db.Blocks() == old(db.Blocks())
  {
    hide StoreCreate, StoreAllowedIP;
    if cfg.allowlistEnabled {
      var allowed := db.AllowedIP(remote, id.orgId, net);
      if allowed == NilNetwork {
        return Response(0, Aborted);
      }
      if allowed == ParseError {
        return Response(500, Message);
      }
      if !allowed.allowed {
        return Response(403, Message);
      }
    }
    if body == None {
      return Response(400, Message);
    }
    if body.value.uid == None || body.value.uid.value == "" {
      return Response(400, Message);
    }
    if body.value.displayName == None || body.value.displayName.value == "" {
      return Response(400, Message);
    }
    if !id.orgAdmin {
      return Response(403, Message);
    }
    if id.username == "" {
      return Response(400, Message);
    }
    var gatewayCN := GetCertCN(certHeader);
    if gatewayCN == None {
      return Response(400, Message);
    }
    if gatewayCN.value != body.value.uid.value {
      return Response(400, Message);
    }
    var err := db.Create(
      Registration(id.orgId, id.username, body.value.uid.value, body.value.displayName.value, None, 0), now, spare);
    answer := if err == None then Response(201, Message) else Response(409, Message);
  }

  function FirstWritten(written: Option<Response>, answer: Response): Response {
    if written.Some? then written.value else answer
  }

  /** The check for an empty uid writes its answer and does not return. */
  method RegistrationDeleteHandler(db: Store, id: Identity, uid: string, now: nat, spare: nat)
    returns (answer: Response)
    requires db.Valid()
    modifies db.Footprint()
    ensures db.Valid() && fresh(db.Footprint() - old(db.Footprint()))
    ensures (db.Regs(), answer) == UnregisterStep(db.Kind(), old(db.At(now)), id, uid)
    ensures db.Blocks() == old(db.Blocks())
  {
    var written: Option<Response> := None;
    if uid == "" {
      written := Some(Response(400, Message));
    }
    if !id.orgAdmin {
      return FirstWritten(written, Response(403, Message));
    }
    var err := db.Delete(id.orgId, uid, spare);
    if err != None {
      return FirstWritten(written, Response(404, Message));
    }
    answer := FirstWritten(written, Response(204, NoBody));
  }

  method RegistrationListHandler(db: Store, id: Identity, limit: Param, offset: Param, now: nat)
    returns (answer: Response)
    requires db.Valid()
    ensures answer == ListStep(db.Kind(), db.At(now), id, limit, offset)
  {
    if !id.orgAdmin {
      return Response(403, Message);
    }
    if limit.NotANumber? || offset.NotANumber? {
      return Response(400, Message);
    }
    var found := db.All(id.orgId, if limit.Given? then limit.n else DEFAULT_LIMIT,
                        if offset.Given? then offset.n else DEFAULT_OFFSET);
    if found.Err? {
      return Response(500, Message);
    }
    var (regs, count) := found.value;
    var out := [];
    for i := 0 to |regs|
      invariant |out| == i
      invariant forall k :: 0 <= k < i ==> out[k] == ToResponse(regs[k])
    {
      out := out + [RegistrationResponse(regs[i].uid, regs[i].displayName, regs[i].username, regs[i].createdAt)];
    }
    assert out == Map(regs, (r: Registration) => ToResponse(r));
    answer := Response(200, Registrations(out, count));
  }

  method AuthV1Handler(db: Store, cfg: Config, certHeader: string, now: nat) returns (answer: Response)
    requires db.Valid()
    ensures answer == AuthStep(cfg, db.At(now), certHeader)
  {
    if cfg.usersModule == "ams" || cfg.usersModule == "mock" || cfg.usersModule == "keycloak" {
      var gatewayCN := GetCertCN(certHeader);
      if gatewayCN == None {
        return Response(400, Message);
      }
      var reg := db.FindByUID(gatewayCN.value);
      if reg.Err? {
        return Response(401, Message);
      }
      var org := reg.value.orgId;
      return Response(200, Mechanism("cert", CertUser(org, org, -1, true, true, "system")));
    }
    answer := Response(0, PassedOn);
  }

  method AllowlistCreateHandler(db: Store, net: Net, id: Identity, block: Option<string>, now: nat, spare: nat)
    returns (answer: Response)
    requires db.Valid()
    modifies db.Footprint()
    ensures db.Valid() && fresh(db.Footprint() - old(db.Footprint()))
    ensures (db.Blocks(), answer) == AllowStep(db.Kind(), net, old(db.At(now)), id, block)
    ensures db.Regs() == old(db.Regs())
  {
    if !id.orgAdmin {
      return Response(403, Message);
    }
    if block == None {
      return Response(400, Message);
    }
    var ipBlock := block.value;
    if '/' !in ipBlock {
      ipBlock := ipBlock + "/32";
    }
    if net.parseCIDR(ipBlock) == None {
      return Response(400, Message);
    }
    var err := db.AllowAddress(AllowlistBlock(ipBlock, id.orgId), spare);
    if err != None {
      return Response(500, Message);
    }
    answer := Response(201, NoBody);
  }

  method AllowlistDeleteHandler(db: Store, id: Identity, block: string, now: nat, spare: nat)
    returns (answer: Response)
    requires db.Valid()
    modifies db.Footprint()
    ensures db.Valid() && fresh(db.Footprint() - old(db.Footprint()))
    ensures (db.Blocks(), answer) == DenyStep(db.Kind(), old(db.At(now)), id, block)
    ensures db.Regs() == old(db.Regs())
  {
    if !id.orgAdmin {
      return Response(403, Message);
    }
    if block == "" {
      return Response(400, Message);
    }
    var err := db.DenyAddress(AllowlistBlock(block, id.orgId), spare);
    if err != None {
      return Response(404, Message);
    }
    answer := Response(204, NoBody);
  }

  method AllowlistListHandler(db: Store, id: Identity, now: nat) returns (answer: Response)
    requires db.Valid()
    ensures answer == ListBlocksStep(db.Kind(), db.At(now), id)
  {
    if !id.orgAdmin {
      return Response(403, Message);
    }
    var addrs := db.AllowedAddresses(id.orgId);
    var out := [];
    for i := 0 to |addrs|
      invariant out == addrs[..i]
    {
      out := out + [addrs[i]];
    }
    assert out == addrs;
    answer := Response(200, HandlerSteps.Blocks(out));
  }

  /** One request, handed to its handler. */
  method Serve(db: Store, cfg: Config, net: Net, req: Request, now: nat, spare: nat) returns (answer: Response)
    requires db.Valid()
    modifies db.Footprint()
    ensures db.Valid() && fresh(db.Footprint() - old(db.Footprint()))
    ensures Step(db.Kind(), cfg, net, old(db.At(now)), req) == (State(db.Regs(), db.Blocks(), now + 1), answer)
  {
    hide RegisterStep, UnregisterStep, ListStep, AuthStep, AllowStep, DenyStep, ListBlocksStep;
    match req
    case Register(id, remote, certHeader, body) =>
      answer := RegistrationCreateHandler(db, cfg, net, id, remote, certHeader, body, now, spare);
    case Unregister(id, uid) => answer := RegistrationDeleteHandler(db, id, uid, now, spare);
    case List(id, limit, offset) => answer := RegistrationListHandler(db, id, limit, offset, now);
    case Auth(certHeader) => answer := AuthV1Handler(db, cfg, certHeader, now);
    case Allow(id, block) => answer := AllowlistCreateHandler(db, net, id, block, now, spare);
    case Deny(id, block) => answer := AllowlistDeleteHandler(db, id, block, now, spare);
    case ListBlocks(id) => answer := AllowlistListHandler(db, id, now);
  }

  /** Requests one after the other: the store and the answers go through the run of the state
      machine, so every claim about runs is a claim about the two stores. */
  method ServeAll(db: Store, cfg: Config, net: Net, reqs: seq<Request>, now: nat, spare: nat)
    returns (answers: seq<Response>)
    requires db.Valid()
    modifies db.Footprint()
    ensures db.Valid() && fresh(db.Footprint() - old(db.Footprint()))
    ensures db.At(now + |reqs|) == Run(db.Kind(), cfg, net, old(db.At(now)), reqs)
    ensures answers == HandlerSteps.Answers(db.Kind(), cfg, net, old(db.At(now)), reqs)
    decreases |reqs|
  {
    hide Step, StoreCreate, StoreDelete, StoreAll, StoreAllowedIP, StoreAllow, StoreDeny, StoreBlocks;
    hide RegisterStep, UnregisterStep, ListStep, AuthStep, AllowStep, DenyStep, ListBlocksStep;
    answers := [];
    if reqs != [] {
      var answer := Serve(db, cfg, net, reqs[0], now, spare);
      var later := ServeAll(db, cfg, net, reqs[1..], now + 1, spare);
      answers := [answer] + later;
    }
  }
}
