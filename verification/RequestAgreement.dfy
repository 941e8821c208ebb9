/** The two deployments against each other: exactly when a request has the same answer and the
    same effect on the slice store and on the table, and exactly when whole runs do. */
module RequestAgreement {
  import opened Sequences
  import opened Registrations
  import opened Allowlist
  import opened HandlerSteps
  import opened StoreAgreement
  import opened AllowlistRuns

  // ----- registering -----

  ghost predicate OwnCovered(blocks: seq<AllowlistBlock>, ip: string, orgId: string, net: Net) {
    exists b :: b in blocks && (b.orgId == orgId || b.orgId == "system") && BlockCovers(b, ip, net)
  }

  /** The gate is open because of a block of another organization only. */
  ghost predicate OpenByOthers(cfg: Config, net: Net, s: State, remote: string, orgId: string) {
    cfg.allowlistEnabled && Covered(s.blocks, 0, remote, net) && !OwnCovered(s.blocks, remote, orgId, net)
  }

  ghost predicate Shut(cfg: Config, net: Net, s: State, remote: string) {
    cfg.allowlistEnabled && !Covered(s.blocks, 0, remote, net)
  }

  lemma OwnCoverCovers(blocks: seq<AllowlistBlock>, ip: string, orgId: string, net: Net)
    requires OwnCovered(blocks, ip, orgId, net)
    ensures Covered(blocks, 0, ip, net)
  {
    var b :| b in blocks && (b.orgId == orgId || b.orgId == "system") && BlockCovers(b, ip, net);
    var k :| 0 <= k < |blocks| && blocks[k] == b;
  }

  lemma Gates(cfg: Config, net: Net, s: State, remote: string, orgId: string)
    requires AllParse(s.blocks, net)
    ensures Gate(Memory, cfg, net, s.blocks, remote, orgId)
      == if Shut(cfg, net, s, remote) then Some(Response(403, Message)) else None
    ensures Gate(Postgres, cfg, net, s.blocks, remote, orgId)
      == if Shut(cfg, net, s, remote) || OpenByOthers(cfg, net, s, remote, orgId) then Some(Response(403, Message)) else None
  {
    ChecksCompared(s.blocks, remote, orgId, net);
    if OwnCovered(s.blocks, remote, orgId, net) {
      OwnCoverCovers(s.blocks, remote, orgId, net);
    }
  }

  /** Behind a gate that is shut nothing differs. Where only others' blocks open it, the table
      answers 403, and the slice store must refuse for want of an admin. Otherwise only a display
      name of another organization parts them. */
  ghost predicate RegisterAgreeable(cfg: Config, net: Net, s: State, req: Request)
    requires req.Register?
  {
    var (record, refusal) := Vet(req.id, req.certHeader, req.body);
    if OpenByOthers(cfg, net, s, req.remote, req.id.orgId) then record == None && refusal == Response(403, Message)
    else Shut(cfg, net, s, req.remote) || record == None || !OnlyForeignName(s.regs, record.value)
  }

  /** The rows and the presence of an error say all of a creation. */
  lemma CreateErrors(regs: seq<Registration>, r: Registration, now: nat)
    ensures MemoryCreate(regs, r, now).err in {None, Some(RegistrationAlreadyExists)}
    ensures TableCreate(regs, r, now).err in {None, Some(RegistrationAlreadyExists)}
  {
  }

  lemma RegisterAgreesIff(cfg: Config, net: Net, s: State, req: Request)
    requires req.Register? && AllParse(s.blocks, net)
    ensures RegisterStep(Memory, cfg, net, s, req.id, req.remote, req.certHeader, req.body)
        == RegisterStep(Postgres, cfg, net, s, req.id, req.remote, req.certHeader, req.body)
      <==> RegisterAgreeable(cfg, net, s, req)
  {
    hide Gate, Covered, OwnCovered, OnlyForeignName, TableCreate, MemoryCreate;
    Gates(cfg, net, s, req.remote, req.id.orgId);
    var (record, _) := Vet(req.id, req.certHeader, req.body);
    if record.Some? {
      CreateAgreesIff(s.regs, record.value, s.now);
      CreateErrors(s.regs, record.value, s.now);
    }
  }

  // ----- deleting -----

  lemma DeletedRowsDecide(regs: seq<Registration>, orgId: string, uid: string, now: nat)
    requires TableInvariant(regs, now)
    ensures MemoryDelete(regs, orgId, uid).rows == TableDelete(regs, orgId, uid).rows
      <==> MemoryDelete(regs, orgId, uid) == TableDelete(regs, orgId, uid)
  {
    TableDeleteOne(regs, orgId, uid, now);
  }

  lemma UnregisterAgreesIff(s: State, id: Identity, uid: string)
    requires MemoryInvariant(s.regs, s.now)
    ensures UnregisterStep(Memory, s, id, uid) == UnregisterStep(Postgres, s, id, uid)
      <==> !id.orgAdmin || FirstMatchHasBothKeys(s.regs, id.orgId, uid)
  {
    hide MemoryDelete, TableDelete, FirstMatchHasBothKeys;
    MemoryKeepsTableConstraints(s.regs, s.now);
    DeletedRowsDecide(s.regs, id.orgId, uid, s.now);
    DeleteAgreesIff(s.regs, id.orgId, uid, s.now);
  }

  // ----- listing -----

  function Limit(limit: Param): int {
    if limit.Given? then limit.n else DEFAULT_LIMIT
  }

  function Offset(offset: Param): int {
    if offset.Given? then offset.n else DEFAULT_OFFSET
  }

  /** The order of the two lists is opposite, so at most one row may be listed, and it must be on
      the page. */
  predicate ListAgreeable(s: State, id: Identity, limit: Param, offset: Param) {
    var n := |MemoryAll(s.regs, id.orgId)|;
    !id.orgAdmin || limit.NotANumber? || offset.NotANumber? ||
    (n <= 1 && n <= Limit(limit) && Offset(offset) >= 0 && (Offset(offset) == 0 || n == 0))
  }

  lemma ReversedShowsSame(own: seq<Registration>)
    requires forall i, j :: 0 <= i < j < |own| ==> own[i].createdAt < own[j].createdAt
    ensures Map(Reverse(own), (r: Registration) => ToResponse(r)) == Map(own, (r: Registration) => ToResponse(r))
      <==> |own| <= 1
  {
    var shown := Map(own, (r: Registration) => ToResponse(r));
    var turned := Map(Reverse(own), (r: Registration) => ToResponse(r));
    if |own| >= 2 {
      assert shown[0].createdAt == own[0].createdAt && turned[0].createdAt == own[|own| - 1].createdAt;
    } else {
      assert Reverse(own) == own;
    }
  }

  lemma PageShowsSame(own: seq<Registration>, limit: nat, offset: nat)
    requires forall i, j :: 0 <= i < j < |own| ==> own[i].createdAt < own[j].createdAt
    ensures Map(Page(Reverse(own), limit, offset), (r: Registration) => ToResponse(r))
        == Map(own, (r: Registration) => ToResponse(r))
      <==> |own| <= 1 && |own| <= limit && (offset == 0 || own == [])
  {
    ReversedShowsSame(own);
    var page := Page(Reverse(own), limit, offset);
    WholePageIff(Reverse(own), limit, offset);
    assert |Map(page, (r: Registration) => ToResponse(r))| == |page|;
  }

  lemma OwnInOrder(regs: seq<Registration>, orgId: string, now: nat)
    requires TableInvariant(regs, now)
    ensures var own := Filter(regs, OfOrg(orgId));
      forall i, j :: 0 <= i < j < |own| ==> own[i].createdAt < own[j].createdAt
  {
    FilterPairwise(regs, OfOrg(orgId), TableOrder);
    var own := Filter(regs, OfOrg(orgId));
    forall i, j | 0 <= i < j < |own| ensures own[i].createdAt < own[j].createdAt {
      assert TableOrder(own[i], own[j]);
    }
  }

  lemma ListAgreesIff(s: State, id: Identity, limit: Param, offset: Param)
    requires MemoryInvariant(s.regs, s.now)
    ensures ListStep(Memory, s, id, limit, offset) == ListStep(Postgres, s, id, limit, offset)
      <==> ListAgreeable(s, id, limit, offset)
  {
    MemoryKeepsTableConstraints(s.regs, s.now);
    var own := MemoryAll(s.regs, id.orgId);
    OwnInOrder(s.regs, id.orgId, s.now);
    OwnRowsNewestFirst(s.regs, id.orgId, s.now);
    hide MemoryInvariant, TableInvariant, Filter, NewestFirst, Page;
    if id.orgAdmin && !limit.NotANumber? && !offset.NotANumber? && Limit(limit) >= 0 && Offset(offset) >= 0 {
      PageShowsSame(own, Limit(limit), Offset(offset));
    }
  }

  // ----- the allowlist -----

  lemma AllowStepsAgreeIff(net: Net, s: State, id: Identity, block: Option<string>)
    ensures AllowStep(Memory, net, s, id, block) == AllowStep(Postgres, net, s, id, block) <==>
      (id.orgAdmin && block.Some? && net.parseCIDR(Normalise(block.value)).Some? ==>
         AllowlistBlock(Normalise(block.value), id.orgId) !in s.blocks)
  {
    hide Normalise;
    if block.Some? {
      AllowAgreesIff(s.blocks, AllowlistBlock(Normalise(block.value), id.orgId));
    }
  }

  lemma DenyStepsAgreeIff(s: State, id: Identity, block: string)
    ensures DenyStep(Memory, s, id, block) == DenyStep(Postgres, s, id, block) <==>
      (id.orgAdmin && block != "" ==> multiset(s.blocks)[AllowlistBlock(block, id.orgId)] <= 1)
  {
    var x := AllowlistBlock(block, id.orgId);
    DenyAgreesIff(s.blocks, x);
    TableDenyTakesAll(s.blocks, x);
  }

  lemma ListBlocksStepsAgreeIff(s: State, id: Identity)
    ensures ListBlocksStep(Memory, s, id) == ListBlocksStep(Postgres, s, id) <==>
      (id.orgAdmin ==> forall i :: 0 <= i < |s.blocks| ==> s.blocks[i].orgId == id.orgId)
  {
    if id.orgAdmin {
      ListsAgreeIff(s, id);
    }
  }

  // ----- any request -----

  /** What can be checked on the records before the request. */
  ghost predicate RequestAgreeable(cfg: Config, net: Net, s: State, req: Request) {
    match req
    case Register(_, _, _, _) => RegisterAgreeable(cfg, net, s, req)
    case Unregister(id, uid) => !id.orgAdmin || FirstMatchHasBothKeys(s.regs, id.orgId, uid)
    case List(id, limit, offset) => ListAgreeable(s, id, limit, offset)
    case Auth(_) => true
    case Allow(id, block) =>
      id.orgAdmin && block.Some? && net.parseCIDR(Normalise(block.value)).Some? ==>
        AllowlistBlock(Normalise(block.value), id.orgId) !in s.blocks
    case Deny(id, block) => id.orgAdmin && block != "" ==> multiset(s.blocks)[AllowlistBlock(block, id.orgId)] <= 1
    case ListBlocks(id) => id.orgAdmin ==> forall i :: 0 <= i < |s.blocks| ==> s.blocks[i].orgId == id.orgId
  }

  /** What the slice store keeps. */
  ghost predicate Kept(net: Net, s: State) {
    MemoryInvariant(s.regs, s.now) && Sound(Memory, net, s.blocks)
  }

  /** A request takes both deployments to the same state with the same answer exactly under its
      condition. */
  lemma RequestAgreesIff(cfg: Config, net: Net, s: State, req: Request)
    requires Kept(net, s)
    ensures Step(Memory, cfg, net, s, req) == Step(Postgres, cfg, net, s, req) <==> RequestAgreeable(cfg, net, s, req)
  {
    hide RegisterStep, UnregisterStep, ListStep, AllowStep, DenyStep, ListBlocksStep;
    hide RegisterAgreeable, ListAgreeable, FirstMatchHasBothKeys, Normalise;
    match req
    case Register(_, _, _, _) => RegisterAgreesIff(cfg, net, s, req);
    case Unregister(id, uid) => UnregisterAgreesIff(s, id, uid);
    case List(id, limit, offset) => ListAgreesIff(s, id, limit, offset);
    case Auth(_) =>
    case Allow(id, block) => AllowStepsAgreeIff(net, s, id, block);
    case Deny(id, block) => DenyStepsAgreeIff(s, id, block);
    case ListBlocks(id) => ListBlocksStepsAgreeIff(s, id);
  }

  lemma RegisterKeepsRecords(cfg: Config, net: Net, s: State, req: Request)
    requires req.Register? && MemoryInvariant(s.regs, s.now)
    ensures MemoryInvariant(Step(Memory, cfg, net, s, req).0.regs, s.now + 1)
  {
    hide MemoryCreate;
    var (record, _) := Vet(req.id, req.certHeader, req.body);
    if record.Some? {
      MemoryCreateKeeps(s.regs, record.value, s.now);
    }
  }

  lemma StepKeeps(cfg: Config, net: Net, s: State, req: Request)
    requires Kept(net, s)
    ensures Kept(net, Step(Memory, cfg, net, s, req).0)
  {
    StepConserves(Memory, cfg, net, s, req, AllowlistBlock("", ""));
    match req
    case Register(_, _, _, _) => RegisterKeepsRecords(cfg, net, s, req);
    case Unregister(id, uid) => MemoryDeleteKeeps(s.regs, id.orgId, uid, s.now);
    case _ =>
  }

  // ----- runs -----

  /** Both deployments hold the same records before, between and after the requests, and answer
      every request alike. */
  ghost predicate AnswerAlike(cfg: Config, net: Net, m: State, t: State, reqs: seq<Request>)
    decreases |reqs|
  {
    && m == t
    && (reqs == [] ||
        var (m', memory) := Step(Memory, cfg, net, m, reqs[0]);
        var (t', table) := Step(Postgres, cfg, net, t, reqs[0]);
        memory == table && AnswerAlike(cfg, net, m', t', reqs[1..]))
  }

  /** Every request meets its condition when it is made. */
  ghost predicate AllAgreeable(cfg: Config, net: Net, s: State, reqs: seq<Request>)
    decreases |reqs|
  {
    reqs == [] ||
    (RequestAgreeable(cfg, net, s, reqs[0]) && AllAgreeable(cfg, net, Step(Memory, cfg, net, s, reqs[0]).0, reqs[1..]))
  }

  /** Two deployments that start with the same records go through a run alike, states and answers,
      exactly when every request meets its condition when it is made. */
  lemma {:induction false} DeploymentsAgreeIff(cfg: Config, net: Net, s: State, reqs: seq<Request>)
    requires Kept(net, s)
    ensures AnswerAlike(cfg, net, s, s, reqs) <==> AllAgreeable(cfg, net, s, reqs)
    ensures AllAgreeable(cfg, net, s, reqs) ==>
      && Run(Memory, cfg, net, s, reqs) == Run(Postgres, cfg, net, s, reqs)
      && Answers(Memory, cfg, net, s, reqs) == Answers(Postgres, cfg, net, s, reqs)
    decreases |reqs|
  {
    hide Step, RequestAgreeable, Kept;
    if reqs != [] {
      RequestAgreesIff(cfg, net, s, reqs[0]);
      StepKeeps(cfg, net, s, reqs[0]);
      DeploymentsAgreeIff(cfg, net, Step(Memory, cfg, net, s, reqs[0]).0, reqs[1..]);
    }
  }
}
