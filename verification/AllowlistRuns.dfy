/** The allowlist over whole runs of requests, on either store. */
module AllowlistRuns {
  import opened Sequences
  import opened Cidr
  import opened Allowlist
  import opened HandlerSteps
  import opened StoreAgreement

  /** What the handlers keep: every stored block parses and contains a slash, and the table holds
      no pair twice. */
  ghost predicate Sound(b: Backend, net: Net, blocks: seq<AllowlistBlock>) {
    && AllParse(blocks, net)
    && (forall i :: 0 <= i < |blocks| ==> '/' in blocks[i].ipBlock)
    && (b == Postgres ==> Pairwise(blocks, Distinct))
  }

  // ----- conservation -----

  /** Whether the request added this pair, removed it, or neither: 1, -1 or 0. */
  function Effect(req: Request, answer: Response, x: AllowlistBlock): int {
    match req
    case Allow(id, block) =>
      if answer.status == 201 && block.Some? && x == AllowlistBlock(Normalise(block.value), id.orgId) then 1 else 0
    case Deny(id, block) =>
      if answer.status == 204 && x == AllowlistBlock(block, id.orgId) then -1 else 0
    case _ => 0
  }

  /** Successful additions minus successful removals of a pair over a run. */
  function Balance(b: Backend, cfg: Config, net: Net, s: State, reqs: seq<Request>, x: AllowlistBlock): int
    decreases |reqs|
  {
    if reqs == [] then 0
    else
      var (next, answer) := Step(b, cfg, net, s, reqs[0]);
      Effect(reqs[0], answer, x) + Balance(b, cfg, net, next, reqs[1..], x)
  }

  lemma AddedSound(b: Backend, net: Net, blocks: seq<AllowlistBlock>, x: AllowlistBlock)
    requires Sound(b, net, blocks) && net.parseCIDR(x.ipBlock).Some? && '/' in x.ipBlock
    ensures Sound(b, net, StoreAllow(b, blocks, x).blocks)
    ensures StoreAllow(b, blocks, x).err == None ==> StoreAllow(b, blocks, x).blocks == blocks + [x]
    ensures StoreAllow(b, blocks, x).err != None ==> StoreAllow(b, blocks, x).blocks == blocks
  {
    if b == Postgres {
      TableAllowKeepsKey(blocks, x);
    }
  }

  lemma RemovedSound(b: Backend, net: Net, blocks: seq<AllowlistBlock>, x: AllowlistBlock)
    requires Sound(b, net, blocks)
    ensures Sound(b, net, StoreDeny(b, blocks, x).blocks)
    ensures StoreDeny(b, blocks, x).err == None <==> x in blocks
    ensures StoreDeny(b, blocks, x).err == None ==>
      multiset(blocks) == multiset(StoreDeny(b, blocks, x).blocks) + multiset{x}
    ensures StoreDeny(b, blocks, x).err != None ==> StoreDeny(b, blocks, x).blocks == blocks
  {
    MemoryDenyBalance(blocks, x);
    if b == Postgres {
      TableDenyBalance(blocks, x);
    }
  }

  lemma AllowOutcome(b: Backend, cfg: Config, net: Net, s: State, id: Identity, block: Option<string>)
    requires Sound(b, net, s.blocks)
    ensures var (next, answer) := Step(b, cfg, net, s, Allow(id, block));
      && Sound(b, net, next.blocks)
      && if answer.status == 201 then
        && id.orgAdmin && block.Some?
        && next.blocks == s.blocks + [AllowlistBlock(Normalise(block.value), id.orgId)]
      else next.blocks == s.blocks
  {
    if id.orgAdmin && block.Some? && net.parseCIDR(Normalise(block.value)).Some? {
      AddedSound(b, net, s.blocks, AllowlistBlock(Normalise(block.value), id.orgId));
    }
  }

  lemma DenyOutcome(b: Backend, cfg: Config, net: Net, s: State, id: Identity, block: string)
    requires Sound(b, net, s.blocks)
    ensures var (next, answer) := Step(b, cfg, net, s, Deny(id, block));
      var x := AllowlistBlock(block, id.orgId);
      && Sound(b, net, next.blocks)
      && (answer.status == 204 <==> id.orgAdmin && block != "" && x in s.blocks)
      && if answer.status == 204 then multiset(s.blocks) == multiset(next.blocks) + multiset{x}
         else next.blocks == s.blocks
  {
    RemovedSound(b, net, s.blocks, AllowlistBlock(block, id.orgId));
  }

  /** An addition on either store: 403 exactly to others than admins, 400 exactly to an admin whose
      text does not parse, 500 exactly when the table holds the pair already, 201 otherwise. The text
      gets "/32" when it has no slash. */
  lemma AllowStatusIff(b: Backend, net: Net, s: State, id: Identity, block: Option<string>)
    ensures var (blocks, answer) := AllowStep(b, net, s, id, block);
      var text := if block.None? then "" else if '/' in block.value then block.value else block.value + "/32";
      var parses := block.Some? && net.parseCIDR(text).Some?;
      var x := AllowlistBlock(text, id.orgId);
      && (answer.status == 403 <==> !id.orgAdmin)
      && (answer.status == 400 <==> id.orgAdmin && !parses)
      && (answer.status == 500 <==> id.orgAdmin && parses && b == Postgres && x in s.blocks)
      && (answer.status == 201 <==> id.orgAdmin && parses && (b == Memory || x !in s.blocks))
      && blocks == if answer.status == 201 then s.blocks + [x] else s.blocks
  {
    hide Normalise;
    if block.Some? {
      AllowAgreesIff(s.blocks, AllowlistBlock(Normalise(block.value), id.orgId));
    }
  }

  lemma TableDenyMeans(blocks: seq<AllowlistBlock>, x: AllowlistBlock)
    ensures TableDeny(blocks, x).err == None <==> x in blocks
    ensures x !in TableDeny(blocks, x).blocks
    ensures x !in blocks ==> TableDeny(blocks, x).blocks == blocks
  {
    TableDenyTakesAll(blocks, x);
    FilterMembers(blocks, OtherBlock(x));
    if x !in blocks {
      FilterKeepsAll(blocks, OtherBlock(x));
    }
  }

  /** A removal on either store: 403 exactly to others than admins, 400 exactly to an admin without a
      text, 204 exactly when the pair is stored as written, 404 otherwise. */
  lemma DenyStatusIff(b: Backend, s: State, id: Identity, block: string)
    ensures var (blocks, answer) := DenyStep(b, s, id, block);
      var x := AllowlistBlock(block, id.orgId);
      && (answer.status == 403 <==> !id.orgAdmin)
      && (answer.status == 400 <==> id.orgAdmin && block == "")
      && (answer.status == 204 <==> id.orgAdmin && block != "" && x in s.blocks)
      && (answer.status == 404 <==> id.orgAdmin && block != "" && x !in s.blocks)
      && (answer.status != 204 ==> blocks == s.blocks)
      && (answer.status == 204 ==> multiset(blocks)[x] == if b == Memory then multiset(s.blocks)[x] - 1 else 0)
  {
    var x := AllowlistBlock(block, id.orgId);
    MemoryDenyBalance(s.blocks, x);
    TableDenyMeans(s.blocks, x);
  }

  /** What an admin sees: all blocks of the slice store, the organization's own of the table. */
  lemma BlocksListed(b: Backend, s: State, id: Identity)
    ensures var answer := ListBlocksStep(b, s, id);
      if !id.orgAdmin then answer == Response(403, Message)
      else
        && answer.status == 200 && answer.payload.Blocks?
        && answer.payload.blocks
          == if b == Memory then s.blocks else Filter(s.blocks, (x: AllowlistBlock) => x.orgId == id.orgId)
  {
    FilterAgrees(s.blocks, OwnedBy(id.orgId), (x: AllowlistBlock) => x.orgId == id.orgId);
  }

  lemma StepConserves(b: Backend, cfg: Config, net: Net, s: State, req: Request, x: AllowlistBlock)
    requires Sound(b, net, s.blocks)
    ensures var (next, answer) := Step(b, cfg, net, s, req);
      && Sound(b, net, next.blocks)
      && multiset(next.blocks)[x] == multiset(s.blocks)[x] + Effect(req, answer, x)
  {
    match req
    case Allow(id, block) => AllowOutcome(b, cfg, net, s, id, block);
    case Deny(id, block) => DenyOutcome(b, cfg, net, s, id, block);
    case _ =>
  }

  /** Over every run on either store the stored blocks stay sound, and the multiplicity of every
      pair is what it was plus its successful additions minus its successful removals. */
  lemma {:induction false} RunConserves(b: Backend, cfg: Config, net: Net, s: State, reqs: seq<Request>, x: AllowlistBlock)
    requires Sound(b, net, s.blocks)
    ensures var end := Run(b, cfg, net, s, reqs);
      && Sound(b, net, end.blocks)
      && multiset(end.blocks)[x] == multiset(s.blocks)[x] + Balance(b, cfg, net, s, reqs, x)
    decreases |reqs|
  {
    if reqs != [] {
      StepConserves(b, cfg, net, s, reqs[0], x);
      RunConserves(b, cfg, net, Step(b, cfg, net, s, reqs[0]).0, reqs[1..], x);
    }
  }

  // ----- the address check in reachable states -----

  /** A block left over from the start and the run, that the check consults for the organization and
      that covers the address. */
  ghost predicate Open(b: Backend, cfg: Config, net: Net, s: State, reqs: seq<Request>,
                       x: AllowlistBlock, ip: string, orgId: string) {
    && multiset(s.blocks)[x] + Balance(b, cfg, net, s, reqs, x) > 0
    && (b == Postgres ==> (x.orgId == orgId || x.orgId == "system"))
    && BlockCovers(x, ip, net)
  }

  /** After every run from a sound allowlist, whoever filled it (an empty one, or one that came with
      blocks of `system`), the check gives an answer, never a parse error and
      never the nil network, and it allows an address exactly when some open block covers it. */
  lemma AllowedIffOpen(b: Backend, cfg: Config, net: Net, s: State, reqs: seq<Request>, ip: string, orgId: string)
    requires Sound(b, net, s.blocks)
    ensures StoreAllowedIP(b, Run(b, cfg, net, s, reqs).blocks, ip, orgId, net)
      == Answer(exists x :: Open(b, cfg, net, s, reqs, x, ip, orgId))
  {
    var end := Run(b, cfg, net, s, reqs).blocks;
    forall x ensures x in end <==> multiset(s.blocks)[x] + Balance(b, cfg, net, s, reqs, x) > 0 {
      RunConserves(b, cfg, net, s, reqs, x);
      assert x in multiset(end) <==> x in end;
    }
    RunConserves(b, cfg, net, s, reqs, AllowlistBlock("", ""));
    ChecksCompared(end, ip, orgId, net);
    if x :| Open(b, cfg, net, s, reqs, x, ip, orgId) {
      assert x in end;
    }
    if Covered(end, 0, ip, net) {
      var k :| 0 <= k < |end| && BlockCovers(end[k], ip, net);
      assert b == Memory ==> Open(b, cfg, net, s, reqs, end[k], ip, orgId);
    }
    if x :| x in end && (x.orgId == orgId || x.orgId == "system") && BlockCovers(x, ip, net) {
      assert Open(b, cfg, net, s, reqs, x, ip, orgId);
    }
  }

  /** A parser whose networks have a mask no longer than the address. */
  ghost predicate WellFormed(net: Net) {
    forall text :: net.parseCIDR(text).Some? ==> net.parseCIDR(text).value.Valid()
  }

  /** The number of the address lies in the interval of the block. */
  ghost predicate Holds(x: AllowlistBlock, ip: string, net: Net)
    requires WellFormed(net)
  {
    var (network, address) := (net.parseCIDR(x.ipBlock), net.parseIP(ip));
    network.Some? && address.Some? && InInterval(network.value, address.value)
  }

  /** From the requests to the addresses: after every run from a sound allowlist an address is
      allowed exactly when its number lies in the interval of a block of which the start and the
      additions leave more copies than the removals take, and which the check consults for the
      organization. */
  lemma AllowedIffInOpenInterval(b: Backend, cfg: Config, net: Net, s: State, reqs: seq<Request>, ip: string, orgId: string)
    requires Sound(b, net, s.blocks) && WellFormed(net)
    ensures StoreAllowedIP(b, Run(b, cfg, net, s, reqs).blocks, ip, orgId, net)
      == Answer(exists x :: (
           && multiset(s.blocks)[x] + Balance(b, cfg, net, s, reqs, x) > 0
           && (b == Postgres ==> (x.orgId == orgId || x.orgId == "system"))
           && Holds(x, ip, net)))
  {
    AllowedIffOpen(b, cfg, net, s, reqs, ip, orgId);
    forall x ensures BlockCovers(x, ip, net) <==> Holds(x, ip, net) {
      if net.parseCIDR(x.ipBlock).Some? && net.parseIP(ip).Some? {
        ContainsIsInterval(net.parseCIDR(x.ipBlock).value, net.parseIP(ip).value);
      }
    }
    if x :| Open(b, cfg, net, s, reqs, x, ip, orgId) {
      assert Holds(x, ip, net);
    }
    if x :| multiset(s.blocks)[x] + Balance(b, cfg, net, s, reqs, x) > 0 && (b == Postgres ==> (x.orgId == orgId || x.orgId == "system")) && Holds(x, ip, net) {
      assert Open(b, cfg, net, s, reqs, x, ip, orgId);
    }
  }

  // ----- undoing an addition -----

  /** In every reachable state a block without a slash is not found: the deletion handler does not
      append "/32" as the creation handler does. */
  lemma BareBlockNotFound(b: Backend, net: Net, s: State, id: Identity, block: string)
    requires Sound(b, net, s.blocks) && id.orgAdmin && block != "" && '/' !in block
    ensures DenyStep(b, s, id, block) == (s.blocks, Response(404, Message))
  {
    RemovedSound(b, net, s.blocks, AllowlistBlock(block, id.orgId));
  }

  lemma CancelOne(before: seq<AllowlistBlock>, after: seq<AllowlistBlock>, x: AllowlistBlock)
    requires multiset(before + [x]) == multiset(after) + multiset{x}
    ensures multiset(after) == multiset(before)
  {
    assert multiset(before + [x]) - multiset{x} == multiset(before);
    assert multiset(after) + multiset{x} - multiset{x} == multiset(after);
  }

  /** Asking to remove the text just added with success restores the blocks, as a multiset,
      exactly when the text has a slash; the normalised text always does. */
  lemma DenyUndoesAllowIff(b: Backend, cfg: Config, net: Net, s: State, id: Identity, block: string)
    requires Sound(b, net, s.blocks)
    requires Step(b, cfg, net, s, Allow(id, Some(block))).1.status == 201
    ensures var added := Step(b, cfg, net, s, Allow(id, Some(block))).0;
      && multiset(Step(b, cfg, net, added, Deny(id, Normalise(block))).0.blocks) == multiset(s.blocks)
      && (multiset(Step(b, cfg, net, added, Deny(id, block)).0.blocks) == multiset(s.blocks) <==> '/' in block)
  {
    var x := AllowlistBlock(Normalise(block), id.orgId);
    AllowOutcome(b, cfg, net, s, id, Some(block));
    var added := Step(b, cfg, net, s, Allow(id, Some(block))).0;
    assert x in added.blocks by { assert added.blocks[|s.blocks|] == x; }
    DenyOutcome(b, cfg, net, added, id, x.ipBlock);
    CancelOne(s.blocks, Step(b, cfg, net, added, Deny(id, x.ipBlock)).0.blocks, x);
    DenyOutcome(b, cfg, net, added, id, block);
    if '/' !in block {
      assert AllowlistBlock(block, id.orgId) !in added.blocks;
      assert |multiset(added.blocks)| == |multiset(s.blocks)| + 1;
    }
  }

  lemma SecondCopyRefused(cfg: Config, net: Net, s: State, id: Identity, block: string)
    requires Sound(Postgres, net, s.blocks) && id.orgAdmin
    requires AllowlistBlock(Normalise(block), id.orgId) in s.blocks
    ensures var (next, answer) := Step(Postgres, cfg, net, s, Allow(id, Some(block)));
      answer.status == 500 && next.blocks == s.blocks
  {
    hide Normalise;
    var x := AllowlistBlock(Normalise(block), id.orgId);
    var k :| 0 <= k < |s.blocks| && s.blocks[k] == x;
    assert net.parseCIDR(s.blocks[k].ipBlock).Some?;
    TableAllowKeepsKey(s.blocks, x);
  }

  lemma SecondCopyKept(cfg: Config, net: Net, s: State, id: Identity, block: string)
    requires Sound(Memory, net, s.blocks) && id.orgAdmin
    requires AllowlistBlock(Normalise(block), id.orgId) in s.blocks
    ensures var (next, answer) := Step(Memory, cfg, net, s, Allow(id, Some(block)));
      answer.status == 201 && next.blocks == s.blocks + [AllowlistBlock(Normalise(block), id.orgId)]
      && Sound(Memory, net, next.blocks)
  {
    hide Normalise;
    var k :| 0 <= k < |s.blocks| && s.blocks[k] == AllowlistBlock(Normalise(block), id.orgId);
    assert net.parseCIDR(s.blocks[k].ipBlock).Some?;
    AllowOutcome(Memory, cfg, net, s, id, Some(block));
  }

  /** Adding a stored pair again: the table refuses with 500, the slice store keeps both copies, so
      that one successful removal leaves the block in force. */
  lemma DuplicateBlocks(cfg: Config, net: Net, s: State, id: Identity, block: string)
    requires Sound(Postgres, net, s.blocks) && id.orgAdmin
    requires AllowlistBlock(Normalise(block), id.orgId) in s.blocks
    ensures var (next, answer) := Step(Postgres, cfg, net, s, Allow(id, Some(block)));
      answer.status == 500 && next.blocks == s.blocks
    ensures var (next, answer) := Step(Memory, cfg, net, s, Allow(id, Some(block)));
      var (last, removal) := Step(Memory, cfg, net, next, Deny(id, Normalise(block)));
      && answer.status == 201 && removal.status == 204
      && AllowlistBlock(Normalise(block), id.orgId) in last.blocks
  {
    hide Step, Normalise;
    var x := AllowlistBlock(Normalise(block), id.orgId);
    SecondCopyRefused(cfg, net, s, id, block);
    SecondCopyKept(cfg, net, s, id, block);
    var next := Step(Memory, cfg, net, s, Allow(id, Some(block))).0;
    assert next.blocks[|s.blocks|] == x;
    DenyOutcome(Memory, cfg, net, next, id, x.ipBlock);
    CancelOne(s.blocks, Step(Memory, cfg, net, next, Deny(id, x.ipBlock)).0.blocks, x);
    assert x in multiset(s.blocks);
  }

  // ----- listing -----

  /** The two stores list the same blocks for an organization exactly when all stored blocks are
      its own: the slice store lists everybody's. */
  lemma ListsAgreeIff(s: State, id: Identity)
    requires id.orgAdmin
    ensures ListBlocksStep(Memory, s, id) == ListBlocksStep(Postgres, s, id)
      <==> forall i :: 0 <= i < |s.blocks| ==> s.blocks[i].orgId == id.orgId
  {
    var own := Filter(s.blocks, OwnedBy(id.orgId));
    FilterMembers(s.blocks, OwnedBy(id.orgId));
    if forall i :: 0 <= i < |s.blocks| ==> s.blocks[i].orgId == id.orgId {
      FilterKeepsAll(s.blocks, OwnedBy(id.orgId));
    } else if own == s.blocks {
      forall i | 0 <= i < |s.blocks| ensures s.blocks[i].orgId == id.orgId {
        assert s.blocks[i] in own;
      }
    }
  }
}
