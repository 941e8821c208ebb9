/** The registration, allowlist and authentication handlers as steps of one state machine:
    a decoded request takes the store to its next state and yields a response. */
module HandlerSteps {
  import opened Sequences
  import opened Registrations
  import opened Allowlist
  import opened Certs

  datatype Backend = Memory | Postgres

  datatype Config = Config(usersModule: string, allowlistEnabled: bool)

  datatype Identity = Identity(orgId: string, orgAdmin: bool, username: string)

  /** The decoded body of a registration; an absent member is None. */
  datatype CreateBody = CreateBody(uid: Option<string>, displayName: Option<string>)

  /** A numeric query parameter. */
  datatype Param = Absent | NotANumber | Given(n: int)

  datatype Request =
    | Register(id: Identity, remote: string, certHeader: string, body: Option<CreateBody>)
    | Unregister(id: Identity, uid: string)
    | List(id: Identity, limit: Param, offset: Param)
    | Auth(certHeader: string)
    | Allow(id: Identity, block: Option<string>)
    | Deny(id: Identity, denied: string)
    | ListBlocks(id: Identity)

  datatype RegistrationResponse = RegistrationResponse(uid: string, displayName: string, username: string, createdAt: nat)

  datatype CertUser = CertUser(
    orgId: string, displayName: string, id: int, isActive: bool, isOrgAdmin: bool, userType: string)

  datatype Payload =
    | NoBody
    | Message
    | Registrations(rows: seq<RegistrationResponse>, count: nat)
    | Mechanism(mechanism: string, user: CertUser)
    | Blocks(blocks: seq<AllowlistBlock>)
    | PassedOn  // handed to the catch-all handler
    | Aborted   // the handler panicked

  /** The status is the first one written. */
  datatype Response = Response(status: nat, payload: Payload)

  /** Both tables and the time of the next request. */
  datatype State = State(regs: seq<Registration>, blocks: seq<AllowlistBlock>, now: nat)

  const DEFAULT_LIMIT := 100
  const DEFAULT_OFFSET := 0

  // ----- the store behind the interface -----

  function StoreCreate(b: Backend, regs: seq<Registration>, r: Registration, now: nat): Change {
    if b == Memory then MemoryCreate(regs, r, now) else TableCreate(regs, r, now)
  }

  function StoreDelete(b: Backend, regs: seq<Registration>, orgId: string, uid: string): Change {
    if b == Memory then MemoryDelete(regs, orgId, uid) else TableDelete(regs, orgId, uid)
  }

  function StoreAll(b: Backend, regs: seq<Registration>, orgId: string, limit: int, offset: int)
    : Result<(seq<Registration>, nat)>
  {
    if b == Memory then Ok((MemoryAll(regs, orgId), |MemoryAll(regs, orgId)|)) else TableAll(regs, orgId, limit, offset)
  }

  function StoreAllowedIP(b: Backend, blocks: seq<AllowlistBlock>, ip: string, orgId: string, net: Net): Check {
    if b == Memory then MemoryAllowedIP(blocks, ip, net) else TableAllowedIP(blocks, ip, orgId, net)
  }

  function StoreAllow(b: Backend, blocks: seq<AllowlistBlock>, x: AllowlistBlock): BlockChange {
    if b == Memory then MemoryAllow(blocks, x) else TableAllow(blocks, x)
  }

  function StoreDeny(b: Backend, blocks: seq<AllowlistBlock>, x: AllowlistBlock): BlockChange {
    if b == Memory then MemoryDeny(blocks, x) else TableDeny(blocks, x)
  }

  function StoreBlocks(b: Backend, blocks: seq<AllowlistBlock>, orgId: string): seq<AllowlistBlock> {
    if b == Memory then blocks else Filter(blocks, OwnedBy(orgId))
  }

  // ----- registering -----

  /** The address gate in front of a registration: None lets the request through. */
  function Gate(b: Backend, cfg: Config, net: Net, blocks: seq<AllowlistBlock>, remote: string, orgId: string)
    : Option<Response>
  {
    if !cfg.allowlistEnabled then None
    else
      match StoreAllowedIP(b, blocks, remote, orgId, net)
      case Answer(true) => None
      case Answer(false) => Some(Response(403, Message))
      case ParseError => Some(Response(500, Message))
      case NilNetwork => Some(Response(0, Aborted))
  }

  /** The checks on the request itself: the record to create, or the refusal. */
  function Vet(id: Identity, certHeader: string, body: Option<CreateBody>): (r: (Option<Registration>, Response))
  {
    if body == None then (None, Response(400, Message))
    else if body.value.uid.None? || body.value.uid.value == "" then (None, Response(400, Message))
    else if body.value.displayName.None? || body.value.displayName.value == "" then (None, Response(400, Message))
    else if !id.orgAdmin then (None, Response(403, Message))
    else if id.username == "" then (None, Response(400, Message))
    else
      match GetCertCN(certHeader)
      case None => (None, Response(400, Message))
      case Some(cn) =>
        if cn != body.value.uid.value then (None, Response(400, Message))
        else
          (Some(Registration(id.orgId, id.username, cn, body.value.displayName.value, None, 0)), Response(201, Message))
  }

  function RegisterStep(b: Backend, cfg: Config, net: Net, s: State, id: Identity, remote: string,
                        certHeader: string, body: Option<CreateBody>): (seq<Registration>, Response)
  {
    var gate := Gate(b, cfg, net, s.blocks, remote, id.orgId);
    if gate.Some? then (s.regs, gate.value)
    else
      var (record, answer) := Vet(id, certHeader, body);
      if record == None then (s.regs, answer)
      else
        var change := StoreCreate(b, s.regs, record.value, s.now);
        (change.rows, if change.err == None then answer else Response(409, Message))
  }

  // ----- the other handlers -----

  /** An empty uid is answered with 400 and the handler goes on all the same, so the deletion is
      attempted; only the status of the response is settled. */
  function UnregisterStep(b: Backend, s: State, id: Identity, uid: string): (seq<Registration>, Response) {
    if !id.orgAdmin then (s.regs, Response(if uid == "" then 400 else 403, Message))
    else
      var change := StoreDelete(b, s.regs, id.orgId, uid);
      if uid == "" then (change.rows, Response(400, Message))
      else (change.rows, if change.err == None then Response(204, NoBody) else Response(404, Message))
  }

  function ToResponse(r: Registration): RegistrationResponse {
    RegistrationResponse(r.uid, r.displayName, r.username, r.createdAt)
  }

  function ListStep(b: Backend, s: State, id: Identity, limit: Param, offset: Param): Response {
    if !id.orgAdmin then Response(403, Message)
    else if limit.NotANumber? || offset.NotANumber? then Response(400, Message)
    else
      var l := if limit.Given? then limit.n else DEFAULT_LIMIT;
      var o := if offset.Given? then offset.n else DEFAULT_OFFSET;
      match StoreAll(b, s.regs, id.orgId, l, o)
      case Err(_) => Response(500, Message)
      case Ok((rows, count)) => Response(200, Registrations(Map(rows, (r: Registration) => ToResponse(r)), count))
  }

  /** The identity behind a certificate: the organization that registered its name. */
  function CertIdentity(orgId: string): Response {
    Response(200, Mechanism("cert", CertUser(orgId, orgId, -1, true, true, "system")))
  }

  function AuthStep(cfg: Config, s: State, certHeader: string): Response {
    if cfg.usersModule == "ams" || cfg.usersModule == "mock" || cfg.usersModule == "keycloak" then
      match GetCertCN(certHeader)
      case None => Response(400, Message)
      case Some(cn) =>
        match FindFirst(s.regs, WithUid(cn))
        case Ok(r) => CertIdentity(r.orgId)
        case Err(_) => Response(401, Message)
    else Response(0, PassedOn)
  }

  /** A block without a slash gets "/32" appended; normalising twice changes nothing more. */
  function Normalise(block: string): (r: string)
    ensures '/' in r
    ensures r == block <==> '/' in block
    ensures '/' !in block ==> r == block + "/32"
  {
    if '/' in block then block
    else
      var r := block + "/32";
      assert r[|block|] == '/';
      r
  }

  function AllowStep(b: Backend, net: Net, s: State, id: Identity, block: Option<string>): (seq<AllowlistBlock>, Response) {
    if !id.orgAdmin then (s.blocks, Response(403, Message))
    else if block == None then (s.blocks, Response(400, Message))
    else if net.parseCIDR(Normalise(block.value)) == None then (s.blocks, Response(400, Message))
    else
      var change := StoreAllow(b, s.blocks, AllowlistBlock(Normalise(block.value), id.orgId));
      (change.blocks, if change.err == None then Response(201, NoBody) else Response(500, Message))
  }

  function DenyStep(b: Backend, s: State, id: Identity, block: string): (seq<AllowlistBlock>, Response) {
    if !id.orgAdmin then (s.blocks, Response(403, Message))
    else if block == "" then (s.blocks, Response(400, Message))
    else
      var change := StoreDeny(b, s.blocks, AllowlistBlock(block, id.orgId));
      (change.blocks, if change.err == None then Response(204, NoBody) else Response(404, Message))
  }

  function ListBlocksStep(b: Backend, s: State, id: Identity): Response {
    if !id.orgAdmin then Response(403, Message) else Response(200, Blocks(StoreBlocks(b, s.blocks, id.orgId)))
  }

  // ----- one request -----

  function Step(b: Backend, cfg: Config, net: Net, s: State, req: Request): (State, Response) {
    match req
    case Register(id, remote, certHeader, body) =>
      var (regs, answer) := RegisterStep(b, cfg, net, s, id, remote, certHeader, body);
      (State(regs, s.blocks, s.now + 1), answer)
    case Unregister(id, uid) =>
      var (regs, answer) := UnregisterStep(b, s, id, uid);
      (State(regs, s.blocks, s.now + 1), answer)
    case List(id, limit, offset) => (s.(now := s.now + 1), ListStep(b, s, id, limit, offset))
    case Auth(certHeader) => (s.(now := s.now + 1), AuthStep(cfg, s, certHeader))
    case Allow(id, block) =>
      var (blocks, answer) := AllowStep(b, net, s, id, block);
      (State(s.regs, blocks, s.now + 1), answer)
    case Deny(id, block) =>
      var (blocks, answer) := DenyStep(b, s, id, block);
      (State(s.regs, blocks, s.now + 1), answer)
    case ListBlocks(id) => (s.(now := s.now + 1), ListBlocksStep(b, s, id))
  }

  /** The state after a run of requests. */
  function Run(b: Backend, cfg: Config, net: Net, s: State, reqs: seq<Request>): State
    decreases |reqs|
  {
    if reqs == [] then s else Run(b, cfg, net, Step(b, cfg, net, s, reqs[0]).0, reqs[1..])
  }

  /** What the requests of a run are answered. */
  function Answers(b: Backend, cfg: Config, net: Net, s: State, reqs: seq<Request>): seq<Response>
    decreases |reqs|
  {
    if reqs == [] then []
    else
      var (next, answer) := Step(b, cfg, net, s, reqs[0]);
      [answer] + Answers(b, cfg, net, next, reqs[1..])
  }
}
