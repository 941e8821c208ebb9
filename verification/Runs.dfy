/** Claims over whole runs of requests. */
module Runs {
  import opened Sequences
  import opened Registrations
  import opened Allowlist
  import opened Certs
  import opened HandlerSteps
  import opened StoreAgreement
  import opened Paging

  // ----- who a certificate name belongs to -----

  /** A ledger of certificate names, kept beside the requests and their responses. A registration
      answered 201 enters the name; a deletion answered 204 strikes it out when it comes from the
      organization the name stands for. So does an admin's deletion of the empty name, which the
      handler answers with 400 and carries out: LedgerNamed shows that no such name is ever entered. */
  type Ledger = map<string, string>

  function StruckOut(ledger: Ledger, orgId: string, uid: string): Ledger {
    if uid in ledger && ledger[uid] == orgId then ledger - {uid} else ledger
  }

  function Entered(ledger: Ledger, req: Request, answer: Response): Ledger {
    match req
    case Register(id, _, certHeader, _) =>
      if answer.status == 201 && GetCertCN(certHeader).Some? then ledger[GetCertCN(certHeader).value := id.orgId]
      else ledger
    case Unregister(id, uid) =>
      if answer.status == 204 || (uid == "" && id.orgAdmin) then StruckOut(ledger, id.orgId, uid) else ledger
    case _ => ledger
  }

  function LedgerAfter(b: Backend, cfg: Config, net: Net, s: State, ledger: Ledger, reqs: seq<Request>): Ledger
    decreases |reqs|
  {
    if reqs == [] then ledger
    else
      var (next, answer) := Step(b, cfg, net, s, reqs[0]);
      LedgerAfter(b, cfg, net, next, Entered(ledger, reqs[0], answer), reqs[1..])
  }

  /** The ledger lists exactly the uids of the rows, each with its organization. */
  ghost predicate Books(regs: seq<Registration>, ledger: Ledger) {
    && (forall i :: 0 <= i < |regs| ==> regs[i].uid in ledger && ledger[regs[i].uid] == regs[i].orgId)
    && (forall u :: u in ledger ==> Has(regs, WithUid(u)))
  }

  lemma BooksFind(regs: seq<Registration>, ledger: Ledger, u: string)
    requires Books(regs, ledger)
    ensures u in ledger <==> Has(regs, WithUid(u))
    ensures u in ledger ==> regs[FirstIndex(regs, WithUid(u))].orgId == ledger[u]
  {
  }

  /** The answer identifies the holder of a certificate as the system user of an organization. */
  predicate Identifies(answer: Response, orgId: string) {
    && answer.status == 200
    && answer.payload.Mechanism?
    && answer.payload.mechanism == "cert"
    && answer.payload.user.orgId == orgId
    && answer.payload.user.displayName == orgId
    && answer.payload.user.id == -1
    && answer.payload.user.isActive
    && answer.payload.user.isOrgAdmin
    && answer.payload.user.userType == "system"
  }

  /** The answer to a header: the owner its name has, when there is one. */
  predicate Authenticates(answer: Response, certHeader: string, owner: string -> Option<string>) {
    match GetCertCN(certHeader)
    case None => answer == Response(400, Message)
    case Some(cn) =>
      match owner(cn)
      case None => answer == Response(401, Message)
      case Some(orgId) => Identifies(answer, orgId)
  }

  function Credited(ledger: Ledger): string -> Option<string> {
    (cn: string) => if cn in ledger then Some(ledger[cn]) else None
  }

  /** On any records: authentication answers the first one with the name, and no other users module
      answers at all. */
  lemma AuthOutcome(cfg: Config, s: State, certHeader: string)
    ensures var answer := AuthStep(cfg, s, certHeader);
      if cfg.usersModule !in {"ams", "mock", "keycloak"} then answer == Response(0, PassedOn)
      else
        match GetCertCN(certHeader)
        case None => answer == Response(400, Message)
        case Some(cn) =>
          if forall k :: 0 <= k < |s.regs| ==> s.regs[k].uid != cn then answer == Response(401, Message)
          else exists i :: (
            && 0 <= i < |s.regs| && s.regs[i].uid == cn && Identifies(answer, s.regs[i].orgId)
            && forall k :: 0 <= k < i ==> s.regs[k].uid != cn)
  {
    if GetCertCN(certHeader).Some? {
      FindByUidMeans(s.regs, GetCertCN(certHeader).value);
    }
  }

  /** What authentication answers is what the ledger says. */
  lemma AuthReadsLedger(cfg: Config, s: State, ledger: Ledger, certHeader: string)
    requires Books(s.regs, ledger)
    requires cfg.usersModule in {"ams", "mock", "keycloak"}
    ensures Authenticates(AuthStep(cfg, s, certHeader), certHeader, Credited(ledger))
  {
    match GetCertCN(certHeader)
    case None =>
    case Some(cn) => BooksFind(s.regs, ledger, cn);
  }

  lemma AddedBooks(regs: seq<Registration>, ledger: Ledger, r: Registration)
    requires Books(regs, ledger) && !Has(regs, WithUid(r.uid))
    ensures Books(regs + [r], ledger[r.uid := r.orgId])
  {
    var after, entered := regs + [r], ledger[r.uid := r.orgId];
    forall i | 0 <= i < |after| ensures after[i].uid in entered && entered[after[i].uid] == after[i].orgId {
      assert i < |regs| ==> !WithUid(r.uid)(regs[i]);
    }
    forall u | u in entered ensures Has(after, WithUid(u)) {
      var k := if u == r.uid then |regs| else FirstIndex(regs, WithUid(u));
      assert WithUid(u)(after[k]);
    }
  }

  lemma OtherUids(regs: seq<Registration>, i: nat, k: nat, now: nat)
    requires TableInvariant(regs, now) && i < |regs| && k < |regs| - 1
    ensures RemoveAt(regs, i)[k] == regs[if k < i then k else k + 1]
    ensures RemoveAt(regs, i)[k].uid != regs[i].uid
  {
    var j := if k < i then k else k + 1;
    assert TableOrder(regs[if j < i then j else i], regs[if j < i then i else j]);
  }

  lemma StillThere(regs: seq<Registration>, i: nat, u: string)
    requires i < |regs| && Has(regs, WithUid(u)) && regs[i].uid != u
    ensures Has(RemoveAt(regs, i), WithUid(u))
  {
    var k := FirstIndex(regs, WithUid(u));
    assert WithUid(u)(RemoveAt(regs, i)[if k < i then k else k - 1]);
  }

  lemma RemovedBooks(regs: seq<Registration>, ledger: Ledger, i: nat, now: nat)
    requires Books(regs, ledger) && TableInvariant(regs, now) && i < |regs|
    ensures Books(RemoveAt(regs, i), ledger - {regs[i].uid})
  {
    var after := RemoveAt(regs, i);
    forall k | 0 <= k < |after|
      ensures after[k].uid in ledger - {regs[i].uid} && (ledger - {regs[i].uid})[after[k].uid] == after[k].orgId
    {
      OtherUids(regs, i, k, now);
    }
    forall u | u in ledger - {regs[i].uid} ensures Has(after, WithUid(u)) {
      StillThere(regs, i, u);
    }
  }

  // ----- when a registration or a deletion succeeds -----

  /** What a registration needs: the address gate, a complete body, an admin with a username, and
      a certificate of the name asked for. */
  predicate Entitled(b: Backend, cfg: Config, net: Net, s: State, req: Request)
    requires req.Register?
  {
    && (cfg.allowlistEnabled ==> StoreAllowedIP(b, s.blocks, req.remote, req.id.orgId, net) == Answer(true))
    && req.id.orgAdmin && req.id.username != ""
    && req.body.Some? && req.body.value.uid.GetOr("") != "" && req.body.value.displayName.GetOr("") != ""
    && GetCertCN(req.certHeader) == req.body.value.uid
  }

  /** The record asked for. */
  function Wanted(req: Request): Registration
    requires req.Register?
  {
    var body := req.body.GetOr(CreateBody(None, None));
    Registration(req.id.orgId, req.id.username, body.uid.GetOr(""), body.displayName.GetOr(""), None, 0)
  }

  /** A record stands in the way of the one asked for. */
  predicate Clashes(b: Backend, regs: seq<Registration>, r: Registration) {
    Has(regs, if b == Memory then MemoryClash(r) else TableClash(r))
  }

  /** On either store: 201 exactly when the request is entitled and no record stands in its way, 409
      exactly when it is entitled and one does. A 201 adds the record asked for, any other answer
      leaves the records alone. */
  lemma RegisterStatusIff(b: Backend, cfg: Config, net: Net, s: State, req: Request)
    requires req.Register?
    ensures var (next, answer) := Step(b, cfg, net, s, req);
      && (answer.status == 201 <==> Entitled(b, cfg, net, s, req) && !Clashes(b, s.regs, Wanted(req)))
      && (answer.status == 409 <==> Entitled(b, cfg, net, s, req) && Clashes(b, s.regs, Wanted(req)))
      && next.regs == if answer.status == 201 then s.regs + [Wanted(req).(createdAt := s.now)] else s.regs
  {
    var (record, _) := Vet(req.id, req.certHeader, req.body);
    assert record.Some? ==> record.value == Wanted(req);
  }

  /** What is recorded of a request answered 201. */
  lemma RecordedAs(b: Backend, cfg: Config, net: Net, s: State, req: Request)
    requires req.Register? && Step(b, cfg, net, s, req).1.status == 201
    ensures var next := Step(b, cfg, net, s, req).0;
      && |next.regs| == |s.regs| + 1
      && var r := next.regs[|s.regs|];
      && r.orgId == req.id.orgId && r.username == req.id.username
      && Some(r.uid) == GetCertCN(req.certHeader) && r.uid != ""
      && req.body.Some? && Some(r.displayName) == req.body.value.displayName && r.displayName != ""
      && r.extra == None && r.createdAt == s.now
  {
    hide Step;
    RegisterStatusIff(b, cfg, net, s, req);
  }

  predicate CompleteBody(body: Option<CreateBody>) {
    body.Some? && body.value.uid.GetOr("") != "" && body.value.displayName.GetOr("") != ""
  }

  /** Every refusal has its reason: the gate first, then the body, the admin, the rest. */
  lemma RegisterRefusals(b: Backend, cfg: Config, net: Net, s: State, req: Request)
    requires req.Register?
    ensures var answer := Step(b, cfg, net, s, req).1;
      var check := StoreAllowedIP(b, s.blocks, req.remote, req.id.orgId, net);
      var passed := !cfg.allowlistEnabled || check == Answer(true);
      && (answer == Response(0, Aborted) <==> cfg.allowlistEnabled && check == NilNetwork)
      && (answer == Response(500, Message) <==> cfg.allowlistEnabled && check == ParseError)
      && (answer == Response(403, Message) <==>
            (cfg.allowlistEnabled && check == Answer(false)) || (passed && CompleteBody(req.body) && !req.id.orgAdmin))
      && (answer == Response(400, Message) <==>
            passed && (CompleteBody(req.body) ==>
              req.id.orgAdmin && (req.id.username == "" || GetCertCN(req.certHeader) != req.body.value.uid)))
  {
    hide StoreAllowedIP, StoreCreate;
  }

  /** Some record answers to the keys of a deletion: to both in the table, to either in the slice store. */
  predicate Deletable(b: Backend, regs: seq<Registration>, orgId: string, uid: string) {
    exists i :: 0 <= i < |regs| &&
      (if b == Memory then regs[i].orgId == orgId || regs[i].uid == uid else regs[i].orgId == orgId && regs[i].uid == uid)
  }

  lemma StoreDeleteMeans(b: Backend, regs: seq<Registration>, orgId: string, uid: string, now: nat)
    requires b == Postgres ==> TableInvariant(regs, now)
    ensures var after := StoreDelete(b, regs, orgId, uid);
      && (after.err == None <==> Deletable(b, regs, orgId, uid))
      && |after.rows| == |regs| - (if after.err == None then 1 else 0)
      && (after.err != None ==> after.rows == regs)
  {
    if b == Postgres {
      TableDeleteOne(regs, orgId, uid, now);
      FindMeans(regs, orgId, uid);
    } else {
      MemoryDeleteMeans(regs, orgId, uid);
    }
  }

  /** On either store: 204 exactly for an admin, a uid and a record that answers to the keys, 404
      exactly when only the record is missing. A 204 takes one record away. */
  lemma UnregisterStatusIff(b: Backend, cfg: Config, net: Net, s: State, id: Identity, uid: string)
    requires b == Postgres ==> TableInvariant(s.regs, s.now)
    ensures var (next, answer) := Step(b, cfg, net, s, Unregister(id, uid));
      && (answer.status == 204 <==> id.orgAdmin && uid != "" && Deletable(b, s.regs, id.orgId, uid))
      && (answer.status == 404 <==> id.orgAdmin && uid != "" && !Deletable(b, s.regs, id.orgId, uid))
      && (answer.status == 400 <==> uid == "")
      && (answer.status == 403 <==> uid != "" && !id.orgAdmin)
      && (!id.orgAdmin ==> next.regs == s.regs)
      && (answer.status == 204 ==> |next.regs| == |s.regs| - 1)
      && (answer.status != 204 && uid != "" ==> next.regs == s.regs)
  {
    hide StoreDelete, Deletable, TableInvariant;
    StoreDeleteMeans(b, s.regs, id.orgId, uid, s.now);
  }

  // ----- the table keeps the ledger -----

  lemma FreeOfClashes(b: Backend, regs: seq<Registration>, r: Registration)
    requires !Clashes(b, regs, r)
    ensures !Has(regs, WithUid(r.uid))
    ensures forall i :: 0 <= i < |regs| ==> regs[i].uid != r.uid && !(regs[i].displayName == r.displayName && regs[i].orgId == r.orgId)
  {
    var p := if b == Memory then MemoryClash(r) else TableClash(r);
    forall i | 0 <= i < |regs|
      ensures regs[i].uid != r.uid && !(regs[i].displayName == r.displayName && regs[i].orgId == r.orgId)
    {
      assert !p(regs[i]);
    }
  }

  lemma AddedKeepsConstraints(regs: seq<Registration>, r: Registration, now: nat)
    requires TableInvariant(regs, now) && !Clashes(Postgres, regs, r)
    ensures TableInvariant(regs + [r.(createdAt := now)], now + 1)
  {
    hide Clashes;
    FreeOfClashes(Postgres, regs, r);
  }

  lemma RegisterKeepsBooks(cfg: Config, net: Net, s: State, ledger: Ledger, req: Request)
    requires req.Register? && TableInvariant(s.regs, s.now) && Books(s.regs, ledger)
    ensures var (next, answer) := Step(Postgres, cfg, net, s, req);
      TableInvariant(next.regs, next.now) && Books(next.regs, Entered(ledger, req, answer))
  {
    assert Step(Postgres, cfg, net, s, req).0.now == s.now + 1;
    hide Step, Clashes;
    RegisterStatusIff(Postgres, cfg, net, s, req);
    if Step(Postgres, cfg, net, s, req).1.status == 201 {
      var r := Wanted(req).(createdAt := s.now);
      FreeOfClashes(Postgres, s.regs, Wanted(req));
      AddedKeepsConstraints(s.regs, Wanted(req), s.now);
      AddedBooks(s.regs, ledger, r);
    }
  }

  lemma TableDeleteBooks(regs: seq<Registration>, ledger: Ledger, orgId: string, uid: string, now: nat)
    requires TableInvariant(regs, now) && Books(regs, ledger)
    ensures var after := TableDelete(regs, orgId, uid).rows;
      TableInvariant(after, now) && Books(after, StruckOut(ledger, orgId, uid))
  {
    TableDeleteOne(regs, orgId, uid, now);
    var i := FirstIndex(regs, BothKeys(orgId, uid));
    if i < |regs| {
      RemovedBooks(regs, ledger, i, now);
    } else if uid in ledger {
      BooksFind(regs, ledger, uid);
      assert !BothKeys(orgId, uid)(regs[FirstIndex(regs, WithUid(uid))]);
    }
  }

  lemma UnregisterKeepsBooks(cfg: Config, net: Net, s: State, ledger: Ledger, req: Request)
    requires req.Unregister? && TableInvariant(s.regs, s.now) && Books(s.regs, ledger)
    ensures var (next, answer) := Step(Postgres, cfg, net, s, req);
      TableInvariant(next.regs, next.now) && Books(next.regs, Entered(ledger, req, answer))
  {
    UnregisterStatusIff(Postgres, cfg, net, s, req.id, req.uid);
    if req.id.orgAdmin {
      TableDeleteBooks(s.regs, ledger, req.id.orgId, req.uid, s.now);
      if req.uid != "" && !Deletable(Postgres, s.regs, req.id.orgId, req.uid) && req.uid in ledger {
        BooksFind(s.regs, ledger, req.uid);
        assert ledger[req.uid] != req.id.orgId;
      }
    }
  }

  lemma StepKeepsBooks(cfg: Config, net: Net, s: State, ledger: Ledger, req: Request)
    requires TableInvariant(s.regs, s.now) && Books(s.regs, ledger)
    ensures var (next, answer) := Step(Postgres, cfg, net, s, req);
      TableInvariant(next.regs, next.now) && Books(next.regs, Entered(ledger, req, answer))
  {
    match req
    case Register(_, _, _, _) => RegisterKeepsBooks(cfg, net, s, ledger, req);
    case Unregister(_, _) => UnregisterKeepsBooks(cfg, net, s, ledger, req);
    case _ =>
  }

  /** Over every run on the table, whatever organizations and requests it mixes, the rows agree
      with the ledger kept from the responses, and the constraints hold. */
  lemma {:induction false} RunKeepsBooks(cfg: Config, net: Net, s: State, ledger: Ledger, reqs: seq<Request>)
    requires TableInvariant(s.regs, s.now) && Books(s.regs, ledger)
    ensures var end := Run(Postgres, cfg, net, s, reqs);
      TableInvariant(end.regs, end.now) && Books(end.regs, LedgerAfter(Postgres, cfg, net, s, ledger, reqs))
    decreases |reqs|
  {
    if reqs != [] {
      StepKeepsBooks(cfg, net, s, ledger, reqs[0]);
      var (next, answer) := Step(Postgres, cfg, net, s, reqs[0]);
      RunKeepsBooks(cfg, net, next, Entered(ledger, reqs[0], answer), reqs[1..]);
    }
  }

  /** No run enters the empty name, so from an empty ledger only answers count. */
  lemma {:induction false} LedgerNamed(b: Backend, cfg: Config, net: Net, s: State, ledger: Ledger, reqs: seq<Request>)
    requires "" !in ledger
    ensures "" !in LedgerAfter(b, cfg, net, s, ledger, reqs)
    decreases |reqs|
  {
    hide Step;
    if reqs != [] {
      if reqs[0].Register? {
        RegisterStatusIff(b, cfg, net, s, reqs[0]);
      }
      var (next, answer) := Step(b, cfg, net, s, reqs[0]);
      LedgerNamed(b, cfg, net, next, Entered(ledger, reqs[0], answer), reqs[1..]);
    }
  }

  /** From an empty table, authentication after any run answers the ledger. */
  lemma AuthFollowsHistory(cfg: Config, net: Net, blocks: seq<AllowlistBlock>, reqs: seq<Request>, certHeader: string)
    requires cfg.usersModule in {"ams", "mock", "keycloak"}
    ensures var ledger := LedgerAfter(Postgres, cfg, net, State([], blocks, 0), map[], reqs);
      Authenticates(AuthStep(cfg, Run(Postgres, cfg, net, State([], blocks, 0), reqs), certHeader), certHeader, Credited(ledger))
  {
    var start := State([], blocks, 0);
    RunKeepsBooks(cfg, net, start, map[], reqs);
    AuthReadsLedger(cfg, Run(Postgres, cfg, net, start, reqs),
                    LedgerAfter(Postgres, cfg, net, start, map[], reqs), certHeader);
  }

  // ----- a registration stands until its own organization deletes it -----

  predicate StrikesOut(req: Request, orgId: string, cn: string) {
    req.Unregister? && req.id.orgAdmin && req.id.orgId == orgId && req.uid == cn
  }

  lemma OwnedUidClashes(regs: seq<Registration>, ledger: Ledger, r: Registration)
    requires Books(regs, ledger) && r.uid in ledger
    ensures Clashes(Postgres, regs, r)
  {
    BooksFind(regs, ledger, r.uid);
    assert TableClash(r)(regs[FirstIndex(regs, WithUid(r.uid))]);
  }

  lemma RegisterKeepsOwner(cfg: Config, net: Net, s: State, ledger: Ledger, req: Request, cn: string)
    requires req.Register? && Books(s.regs, ledger) && cn in ledger
    ensures var ledger' := Entered(ledger, req, Step(Postgres, cfg, net, s, req).1);
      cn in ledger' && ledger'[cn] == ledger[cn]
  {
    hide Step, Clashes;
    RegisterStatusIff(Postgres, cfg, net, s, req);
    if Wanted(req).uid in ledger {
      OwnedUidClashes(s.regs, ledger, Wanted(req));
    }
  }

  lemma DeletionNeedsAdmin(b: Backend, cfg: Config, net: Net, s: State, req: Request)
    requires req.Unregister? && Step(b, cfg, net, s, req).1.status == 204
    ensures req.id.orgAdmin
  {
  }

  lemma StepKeepsOwner(cfg: Config, net: Net, s: State, ledger: Ledger, req: Request, orgId: string, cn: string)
    requires Books(s.regs, ledger)
    requires cn in ledger && ledger[cn] == orgId && !StrikesOut(req, orgId, cn)
    ensures var ledger' := Entered(ledger, req, Step(Postgres, cfg, net, s, req).1);
      cn in ledger' && ledger'[cn] == orgId
  {
    hide Step;
    if req.Register? {
      RegisterKeepsOwner(cfg, net, s, ledger, req, cn);
    } else if req.Unregister? && Step(Postgres, cfg, net, s, req).1.status == 204 {
      DeletionNeedsAdmin(Postgres, cfg, net, s, req);
    }
  }

  /** Once an organization owns a certificate name, every run that contains no deletion of that
      name by an admin of that organization leaves authentication with any header carrying the
      name answering that organization. */
  lemma {:induction false} OwnerStands(cfg: Config, net: Net, s: State, ledger: Ledger, reqs: seq<Request>,
                                       orgId: string, cn: string, certHeader: string)
    requires cfg.usersModule in {"ams", "mock", "keycloak"}
    requires TableInvariant(s.regs, s.now) && Books(s.regs, ledger)
    requires cn in ledger && ledger[cn] == orgId
    requires forall i :: 0 <= i < |reqs| ==> !StrikesOut(reqs[i], orgId, cn)
    requires GetCertCN(certHeader) == Some(cn)
    ensures Identifies(AuthStep(cfg, Run(Postgres, cfg, net, s, reqs), certHeader), orgId)
    decreases |reqs|
  {
    hide Step, AuthStep, Identifies;
    if reqs == [] {
      AuthReadsLedger(cfg, s, ledger, certHeader);
    } else {
      StepKeepsBooks(cfg, net, s, ledger, reqs[0]);
      StepKeepsOwner(cfg, net, s, ledger, reqs[0], orgId, cn);
      var (next, answer) := Step(Postgres, cfg, net, s, reqs[0]);
      OwnerStands(cfg, net, next, Entered(ledger, reqs[0], answer), reqs[1..], orgId, cn, certHeader);
    }
  }

  /** The ledger a table starts from. */
  function LedgerOf(regs: seq<Registration>): Ledger {
    if regs == [] then map[]
    else LedgerOf(regs[..|regs| - 1])[regs[|regs| - 1].uid := regs[|regs| - 1].orgId]
  }

  lemma NewUid(regs: seq<Registration>)
    requires Pairwise(regs, TableOrder) && regs != []
    ensures Pairwise(regs[..|regs| - 1], TableOrder)
    ensures !Has(regs[..|regs| - 1], WithUid(regs[|regs| - 1].uid))
  {
    var k := FirstIndex(regs[..|regs| - 1], WithUid(regs[|regs| - 1].uid));
    assert k < |regs| - 1 ==> TableOrder(regs[k], regs[|regs| - 1]);
  }

  lemma NoBooks()
    ensures Books([], map[])
  {
  }

  lemma {:induction false} LedgerOfBooks(regs: seq<Registration>)
    requires Pairwise(regs, TableOrder)
    ensures Books(regs, LedgerOf(regs))
  {
    hide Books, Has, Pairwise;
    if regs == [] {
      NoBooks();
    } else {
      var front, last := regs[..|regs| - 1], regs[|regs| - 1];
      NewUid(regs);
      LedgerOfBooks(front);
      AddedBooks(front, LedgerOf(front), last);
      assert regs == front + [last];
    }
  }

  /** From any table that meets its constraints: a registration answered 201 lets every later
      authentication with that certificate name answer its organization, as long as no admin of
      that organization has asked to delete the name. */
  lemma RegisteredUntilDeleted(cfg: Config, net: Net, s: State, req: Request, later: seq<Request>,
                               cn: string, certHeader: string)
    requires cfg.usersModule in {"ams", "mock", "keycloak"} && TableInvariant(s.regs, s.now)
    requires req.Register? && Step(Postgres, cfg, net, s, req).1.status == 201
    requires GetCertCN(req.certHeader) == Some(cn) && GetCertCN(certHeader) == Some(cn)
    requires forall i :: 0 <= i < |later| ==> !StrikesOut(later[i], req.id.orgId, cn)
    ensures var next := Step(Postgres, cfg, net, s, req).0;
      Identifies(AuthStep(cfg, Run(Postgres, cfg, net, next, later), certHeader), req.id.orgId)
  {
    LedgerOfBooks(s.regs);
    var ledger := LedgerOf(s.regs);
    StepKeepsBooks(cfg, net, s, ledger, req);
    var (next, answer) := Step(Postgres, cfg, net, s, req);
    OwnerStands(cfg, net, next, Entered(ledger, req, answer), later, req.id.orgId, cn, certHeader);
  }

  lemma GoneFromTable(regs: seq<Registration>, i: nat, now: nat)
    requires TableInvariant(regs, now) && i < |regs|
    ensures !Has(RemoveAt(regs, i), WithUid(regs[i].uid))
  {
    forall k | 0 <= k < |regs| - 1 ensures !WithUid(regs[i].uid)(RemoveAt(regs, i)[k]) {
      OtherUids(regs, i, k, now);
    }
  }

  /** A deletion answered 204 by the table releases the name: authentication answers 401. */
  lemma DeletedIsUnknown(cfg: Config, net: Net, s: State, req: Request, certHeader: string)
    requires cfg.usersModule in {"ams", "mock", "keycloak"} && TableInvariant(s.regs, s.now)
    requires req.Unregister? && Step(Postgres, cfg, net, s, req).1.status == 204
    requires GetCertCN(certHeader) == Some(req.uid)
    ensures AuthStep(cfg, Step(Postgres, cfg, net, s, req).0, certHeader) == Response(401, Message)
  {
    TableDeleteOne(s.regs, req.id.orgId, req.uid, s.now);
    GoneFromTable(s.regs, FirstIndex(s.regs, BothKeys(req.id.orgId, req.uid)), s.now);
  }

  lemma MemoryDeleteBooksIff(regs: seq<Registration>, ledger: Ledger, orgId: string, uid: string, now: nat)
    requires TableInvariant(regs, now) && Books(regs, ledger)
    ensures Books(MemoryDelete(regs, orgId, uid).rows, StruckOut(ledger, orgId, uid))
      <==> FirstMatchHasBothKeys(regs, orgId, uid)
  {
    var i := FirstIndex(regs, EitherKey(orgId, uid));
    if FirstMatchHasBothKeys(regs, orgId, uid) {
      DeleteAgreesIff(regs, orgId, uid, now);
      TableDeleteBooks(regs, ledger, orgId, uid, now);
    } else {
      assert EitherKey(orgId, uid)(regs[i]);
      GoneFromTable(regs, i, now);
      assert regs[i].uid in StruckOut(ledger, orgId, uid);
    }
  }

  /** On the slice store a deletion by an admin keeps the ledger exactly when the first record
      with either key has both, or none has either; otherwise some name the ledger still credits
      is no longer registered. */
  lemma MemoryUnregisterKeepsBooksIff(cfg: Config, net: Net, s: State, ledger: Ledger, req: Request)
    requires req.Unregister? && req.id.orgAdmin && TableInvariant(s.regs, s.now) && Books(s.regs, ledger)
    ensures var (next, answer) := Step(Memory, cfg, net, s, req);
      Books(next.regs, Entered(ledger, req, answer)) <==> FirstMatchHasBothKeys(s.regs, req.id.orgId, req.uid)
  {
    MemoryDeleteBooksIff(s.regs, ledger, req.id.orgId, req.uid, s.now);
  }

  // ----- the ledger over runs on the slice store -----

  /** A request that is no admin's deletion, or one whose first match has both keys. */
  predicate DeletesItsOwn(regs: seq<Registration>, req: Request) {
    req.Unregister? && req.id.orgAdmin ==> FirstMatchHasBothKeys(regs, req.id.orgId, req.uid)
  }

  lemma AddedKeepsMemory(regs: seq<Registration>, r: Registration, now: nat)
    requires MemoryInvariant(regs, now) && !Clashes(Memory, regs, r)
    ensures MemoryInvariant(regs + [r.(createdAt := now)], now + 1)
  {
    forall i | 0 <= i < |regs| ensures regs[i].uid != r.uid && regs[i].displayName != r.displayName {
      assert !MemoryClash(r)(regs[i]);
    }
  }

  lemma MemoryRegisterKeepsBooks(cfg: Config, net: Net, s: State, ledger: Ledger, req: Request)
    requires req.Register? && MemoryInvariant(s.regs, s.now) && Books(s.regs, ledger)
    ensures var (next, answer) := Step(Memory, cfg, net, s, req);
      MemoryInvariant(next.regs, next.now) && Books(next.regs, Entered(ledger, req, answer))
  {
    assert Step(Memory, cfg, net, s, req).0.now == s.now + 1;
    hide Step, Clashes;
    RegisterStatusIff(Memory, cfg, net, s, req);
    if Step(Memory, cfg, net, s, req).1.status == 201 {
      FreeOfClashes(Memory, s.regs, Wanted(req));
      AddedKeepsMemory(s.regs, Wanted(req), s.now);
      AddedBooks(s.regs, ledger, Wanted(req).(createdAt := s.now));
    }
  }

  lemma MemoryUnregisterOutcome(cfg: Config, net: Net, s: State, ledger: Ledger, req: Request)
    requires req.Unregister? && MemoryInvariant(s.regs, s.now) && Books(s.regs, ledger)
    ensures var (next, answer) := Step(Memory, cfg, net, s, req);
      && MemoryInvariant(next.regs, next.now)
      && (Books(next.regs, Entered(ledger, req, answer)) <==> DeletesItsOwn(s.regs, req))
  {
    MemoryKeepsTableConstraints(s.regs, s.now);
    if req.id.orgAdmin {
      MemoryDeleteKeeps(s.regs, req.id.orgId, req.uid, s.now);
      MemoryUnregisterKeepsBooksIff(cfg, net, s, ledger, req);
    }
  }

  /** One request on the slice store keeps the ledger exactly unless it deletes somebody else's record. */
  lemma MemoryStepKeepsBooksIff(cfg: Config, net: Net, s: State, ledger: Ledger, req: Request)
    requires MemoryInvariant(s.regs, s.now) && Books(s.regs, ledger)
    ensures var (next, answer) := Step(Memory, cfg, net, s, req);
      && MemoryInvariant(next.regs, next.now)
      && (Books(next.regs, Entered(ledger, req, answer)) <==> DeletesItsOwn(s.regs, req))
  {
    match req
    case Register(_, _, _, _) => MemoryRegisterKeepsBooks(cfg, net, s, ledger, req);
    case Unregister(_, _) => MemoryUnregisterOutcome(cfg, net, s, ledger, req);
    case _ =>
  }

  /** The records agree with the ledger before, between and after the requests. */
  ghost predicate BooksThroughout(cfg: Config, net: Net, s: State, ledger: Ledger, reqs: seq<Request>)
    decreases |reqs|
  {
    && Books(s.regs, ledger)
    && (reqs == [] ||
        var (next, answer) := Step(Memory, cfg, net, s, reqs[0]);
        BooksThroughout(cfg, net, next, Entered(ledger, reqs[0], answer), reqs[1..]))
  }

  /** Every deletion meets its condition when it is made. */
  predicate AlwaysDeletesItsOwn(cfg: Config, net: Net, s: State, reqs: seq<Request>)
    decreases |reqs|
  {
    reqs == [] ||
    (DeletesItsOwn(s.regs, reqs[0]) && AlwaysDeletesItsOwn(cfg, net, Step(Memory, cfg, net, s, reqs[0]).0, reqs[1..]))
  }

  /** Over a run on the slice store the records agree with the ledger all the way exactly when every
      admin's deletion meets, when it is made, the condition under which the stores agree on it. */
  lemma {:induction false} MemoryRunKeepsBooksIff(cfg: Config, net: Net, s: State, ledger: Ledger, reqs: seq<Request>)
    requires MemoryInvariant(s.regs, s.now) && Books(s.regs, ledger)
    ensures BooksThroughout(cfg, net, s, ledger, reqs) <==> AlwaysDeletesItsOwn(cfg, net, s, reqs)
    ensures AlwaysDeletesItsOwn(cfg, net, s, reqs) ==>
      Books(Run(Memory, cfg, net, s, reqs).regs, LedgerAfter(Memory, cfg, net, s, ledger, reqs))
    decreases |reqs|
  {
    hide Step;
    if reqs != [] {
      MemoryStepKeepsBooksIff(cfg, net, s, ledger, reqs[0]);
      var (next, answer) := Step(Memory, cfg, net, s, reqs[0]);
      if DeletesItsOwn(s.regs, reqs[0]) {
        MemoryRunKeepsBooksIff(cfg, net, next, Entered(ledger, reqs[0], answer), reqs[1..]);
      }
    }
  }

  /** After such a run authentication answers the ledger, on the slice store too. */
  lemma MemoryAuthFollowsHistory(cfg: Config, net: Net, s: State, ledger: Ledger, reqs: seq<Request>, certHeader: string)
    requires cfg.usersModule in {"ams", "mock", "keycloak"}
    requires MemoryInvariant(s.regs, s.now) && Books(s.regs, ledger) && AlwaysDeletesItsOwn(cfg, net, s, reqs)
    ensures var after := LedgerAfter(Memory, cfg, net, s, ledger, reqs);
      Authenticates(AuthStep(cfg, Run(Memory, cfg, net, s, reqs), certHeader), certHeader, Credited(after))
  {
    MemoryRunKeepsBooksIff(cfg, net, s, ledger, reqs);
    AuthReadsLedger(cfg, Run(Memory, cfg, net, s, reqs), LedgerAfter(Memory, cfg, net, s, ledger, reqs), certHeader);
  }

  // ----- deletions that name no uid -----

  /** Registrations made through the handler have a uid. */
  ghost predicate Named(regs: seq<Registration>) {
    forall i :: 0 <= i < |regs| ==> regs[i].uid != ""
  }

  lemma DeleteKeepsNamed(b: Backend, regs: seq<Registration>, orgId: string, uid: string)
    requires Named(regs)
    ensures Named(StoreDelete(b, regs, orgId, uid).rows)
  {
    FilterMembers(regs, NotBothKeys(orgId, uid));
    var left := Filter(regs, NotBothKeys(orgId, uid));
    forall i | 0 <= i < |left| ensures left[i].uid != "" {
      assert left[i] in regs;
    }
  }

  lemma {:induction false} RunKeepsNamed(b: Backend, cfg: Config, net: Net, s: State, reqs: seq<Request>)
    requires Named(s.regs)
    ensures Named(Run(b, cfg, net, s, reqs).regs)
    decreases |reqs|
  {
    if reqs != [] {
      if reqs[0].Unregister? {
        DeleteKeepsNamed(b, s.regs, reqs[0].id.orgId, reqs[0].uid);
      }
      RunKeepsNamed(b, cfg, net, Step(b, cfg, net, s, reqs[0]).0, reqs[1..]);
    }
  }

  lemma FirstOfOrg(regs: seq<Registration>, orgId: string)
    requires Named(regs)
    ensures FirstIndex(regs, EitherKey(orgId, "")) == FirstIndex(regs, OfOrg(orgId))
  {
    var i, j := FirstIndex(regs, OfOrg(orgId)), FirstIndex(regs, EitherKey(orgId, ""));
    assert i < |regs| ==> EitherKey(orgId, "")(regs[i]);
    assert j < |regs| ==> OfOrg(orgId)(regs[j]);
  }

  lemma NamelessDelete(regs: seq<Registration>, orgId: string)
    requires Named(regs)
    ensures TableDelete(regs, orgId, "").rows == regs
    ensures var i := FirstIndex(regs, OfOrg(orgId));
      MemoryDelete(regs, orgId, "").rows == if i < |regs| then RemoveAt(regs, i) else regs
  {
    FilterKeepsAll(regs, NotBothKeys(orgId, ""));
    FirstOfOrg(regs, orgId);
  }

  /** A deletion by an admin with an empty uid is answered 400 on both stores. The table is left
      alone; the slice store all the same loses the organization's oldest registration. The router
      keeps the handler from this input: its wildcard for the uid never matches an empty segment. */
  lemma EmptyUidDeletion(cfg: Config, net: Net, s: State, id: Identity)
    requires Named(s.regs) && id.orgAdmin
    ensures var (next, answer) := Step(Postgres, cfg, net, s, Unregister(id, ""));
      answer.status == 400 && next.regs == s.regs
    ensures var (next, answer) := Step(Memory, cfg, net, s, Unregister(id, ""));
      var i := FirstIndex(s.regs, OfOrg(id.orgId));
      answer.status == 400 && next.regs == if i < |s.regs| then RemoveAt(s.regs, i) else s.regs
  {
    hide TableDelete, MemoryDelete;
    NamelessDelete(s.regs, id.orgId);
  }

  // ----- listing -----

  /** The fields that a listing shows of a record. */
  predicate Shows(row: RegistrationResponse, r: Registration) {
    row.uid == r.uid && row.displayName == r.displayName && row.username == r.username && row.createdAt == r.createdAt
  }

  /** Answered 403 exactly to others than admins, 400 exactly to an admin whose parameters are no
      numbers, 500 exactly by the table to a negative number, and 200 otherwise. */
  lemma ListStatuses(b: Backend, s: State, id: Identity, limit: Param, offset: Param)
    ensures var answer := ListStep(b, s, id, limit, offset);
      var numbers := !limit.NotANumber? && !offset.NotANumber?;
      var negative := (limit.Given? && limit.n < 0) || (offset.Given? && offset.n < 0);
      && (answer.status == 403 <==> !id.orgAdmin)
      && (answer.status == 400 <==> id.orgAdmin && !numbers)
      && (answer.status == 500 <==> id.orgAdmin && numbers && b == Postgres && negative)
      && (answer.status == 200 <==> id.orgAdmin && numbers && (b == Memory || !negative))
  {
  }

  /** The slice store lists all records of the organization, oldest first. */
  lemma MemoryListing(s: State, id: Identity, limit: Param, offset: Param)
    requires id.orgAdmin && !limit.NotANumber? && !offset.NotANumber?
    ensures var answer := ListStep(Memory, s, id, limit, offset);
      var own := Filter(s.regs, (r: Registration) => r.orgId == id.orgId);
      && answer.payload.Registrations? && answer.payload.count == |own| == |answer.payload.rows|
      && forall k :: 0 <= k < |own| ==> Shows(answer.payload.rows[k], own[k])
  {
    OwnRowsMean(s.regs, id.orgId);
  }

  /** The table counts them all and lists a page, newest first: a hundred from the start unless the
      request says otherwise. */
  lemma TableListing(s: State, id: Identity, limit: Param, offset: Param)
    requires TableInvariant(s.regs, s.now) && id.orgAdmin && !limit.NotANumber? && !offset.NotANumber?
    requires (limit.Given? ==> limit.n >= 0) && (offset.Given? ==> offset.n >= 0)
    ensures var answer := ListStep(Postgres, s, id, limit, offset);
      var own := Filter(s.regs, (r: Registration) => r.orgId == id.orgId);
      var l := if limit.Given? then limit.n else 100;
      var o := if offset.Given? then offset.n else 0;
      && answer.payload.Registrations? && answer.payload.count == |own|
      && |answer.payload.rows| == (if o >= |own| then 0 else if o + l <= |own| then l else |own| - o)
      && forall k :: 0 <= k < |answer.payload.rows| ==> Shows(answer.payload.rows[k], own[|own| - 1 - o - k])
  {
    TablePageMeans(s.regs, id.orgId, if limit.Given? then limit.n else 100, if offset.Given? then offset.n else 0, s.now);
    hide TableInvariant, Filter, TableAll;
  }

  ghost predicate ShowsOwn(row: RegistrationResponse, regs: seq<Registration>, orgId: string) {
    exists r :: r in regs && r.orgId == orgId && Shows(row, r)
  }

  lemma ListedIsOwn(b: Backend, regs: seq<Registration>, orgId: string, limit: int, offset: int, k: nat)
    requires var all := StoreAll(b, regs, orgId, limit, offset); all.Ok? && k < |all.value.0|
    ensures var r := StoreAll(b, regs, orgId, limit, offset).value.0[k]; r in regs && r.orgId == orgId
  {
    var own := Filter(regs, OfOrg(orgId));
    var r := StoreAll(b, regs, orgId, limit, offset).value.0[k];
    FilterMembers(regs, OfOrg(orgId));
    NewestFirstPermutes(own);
    assert r in (if b == Memory then own else NewestFirst(own));
    assert r in multiset(own);
  }

  /** A listing answered 200 counts the organization's registrations and shows only those; it is
      given exactly to an admin whose parameters are numbers, which the table wants not negative. */
  lemma ListingShowsOwn(b: Backend, s: State, id: Identity, limit: Param, offset: Param)
    ensures var answer := ListStep(b, s, id, limit, offset);
      && (answer.status == 200 <==>
            && id.orgAdmin && !limit.NotANumber? && !offset.NotANumber?
            && (b == Postgres ==> (limit.Given? ==> limit.n >= 0) && (offset.Given? ==> offset.n >= 0)))
      && (answer.status == 200 ==>
            && answer.payload.Registrations?
            && answer.payload.count == |Filter(s.regs, OfOrg(id.orgId))|
            && forall k :: 0 <= k < |answer.payload.rows| ==> ShowsOwn(answer.payload.rows[k], s.regs, id.orgId))
  {
    var answer := ListStep(b, s, id, limit, offset);
    if answer.status == 200 {
      var l := if limit.Given? then limit.n else DEFAULT_LIMIT;
      var o := if offset.Given? then offset.n else DEFAULT_OFFSET;
      var rows := StoreAll(b, s.regs, id.orgId, l, o).value.0;
      forall k | 0 <= k < |rows| ensures ShowsOwn(answer.payload.rows[k], s.regs, id.orgId) {
        ListedIsOwn(b, s.regs, id.orgId, l, o, k);
        assert answer.payload.rows[k] == ToResponse(rows[k]);
      }
    }
  }
}
