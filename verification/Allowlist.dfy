/** Allowlist blocks and what the two stores do to them, as values. Parsing of blocks and
    addresses is a parameter: every statement holds for every parser. */
module Allowlist {
  import opened Sequences
  import opened Cidr

  datatype AllowlistBlock = AllowlistBlock(ipBlock: string, orgId: string)

  /** `net.ParseCIDR` and `net.ParseIP`; addresses come in their shortest form, 4 or 16 bytes. */
  datatype Net = Net(parseCIDR: string -> Option<IPNet>, parseIP: string -> Option<seq<Byte>>)

  datatype BlockError = AddressNotAllowListed | PrimaryKeyViolation

  datatype BlockChange = BlockChange(blocks: seq<AllowlistBlock>, err: Option<BlockError>)

  /** The outcome of an address check: an answer, a reported parse error, or the panic of
      the in-memory check, which ignores the parse error and uses the nil network. */
  datatype Check = Answer(allowed: bool) | ParseError | NilNetwork

  const SYSTEM_ORG := "system"

  predicate Covers(network: IPNet, ip: Option<seq<Byte>>) {
    ip.Some? && Contains(network, ip.value)
  }

  /** The loop over the blocks from position `i`; `onBadBlock` is what an unparsable block yields. */
  function Scan(blocks: seq<AllowlistBlock>, i: nat, ip: string, net: Net, onBadBlock: Check): Check
    requires i <= |blocks|
    decreases |blocks| - i
  {
    if i == |blocks| then Answer(false)
    else
      match net.parseCIDR(blocks[i].ipBlock)
      case None => onBadBlock
      case Some(network) =>
        if Covers(network, net.parseIP(ip)) then Answer(true) else Scan(blocks, i + 1, ip, net, onBadBlock)
  }

  function SameBlock(b: AllowlistBlock): AllowlistBlock -> bool {
    (x: AllowlistBlock) => x.orgId == b.orgId && x.ipBlock == b.ipBlock
  }

  function OtherBlock(b: AllowlistBlock): AllowlistBlock -> bool {
    (x: AllowlistBlock) => !(x.orgId == b.orgId && x.ipBlock == b.ipBlock)
  }

  /** `where org_id = $1 or org_id = 'system'` */
  function ForOrg(orgId: string): AllowlistBlock -> bool {
    (x: AllowlistBlock) => x.orgId == orgId || x.orgId == SYSTEM_ORG
  }

  function OwnedBy(orgId: string): AllowlistBlock -> bool {
    (x: AllowlistBlock) => x.orgId == orgId
  }

  // ----- the slice store -----

  /** The organization is ignored. */
  function MemoryAllowedIP(blocks: seq<AllowlistBlock>, ip: string, net: Net): Check {
    Scan(blocks, 0, ip, net, NilNetwork)
  }

  function MemoryAllow(blocks: seq<AllowlistBlock>, b: AllowlistBlock): BlockChange {
    BlockChange(blocks + [b], None)
  }

  function MemoryDeny(blocks: seq<AllowlistBlock>, b: AllowlistBlock): BlockChange {
    var i := FirstIndex(blocks, SameBlock(b));
    if i < |blocks| then BlockChange(RemoveAt(blocks, i), None)
    else BlockChange(blocks, Some(AddressNotAllowListed))
  }

  // ----- the table, with primary key (ip_block, org_id) -----

  function TableAllowedIP(t: seq<AllowlistBlock>, ip: string, orgId: string, net: Net): Check {
    Scan(Filter(t, ForOrg(orgId)), 0, ip, net, ParseError)
  }

  function TableAllow(t: seq<AllowlistBlock>, b: AllowlistBlock): BlockChange {
    if FirstIndex(t, SameBlock(b)) < |t| then BlockChange(t, Some(PrimaryKeyViolation))
    else BlockChange(t + [b], None)
  }

  function TableDeny(t: seq<AllowlistBlock>, b: AllowlistBlock): BlockChange {
    var left := Filter(t, OtherBlock(b));
    BlockChange(left, if |left| == |t| then Some(AddressNotAllowListed) else None)
  }

  predicate Distinct(a: AllowlistBlock, b: AllowlistBlock) {
    a != b
  }

  // ----- properties of the operations -----

  ghost predicate AllParse(blocks: seq<AllowlistBlock>, net: Net) {
    forall i :: 0 <= i < |blocks| ==> net.parseCIDR(blocks[i].ipBlock).Some?
  }

  /** The block parses and its network contains the address. */
  predicate BlockCovers(b: AllowlistBlock, ip: string, net: Net) {
    net.parseCIDR(b.ipBlock).Some? && Covers(net.parseCIDR(b.ipBlock).value, net.parseIP(ip))
  }

  /** Some block from position `i` on covers the address. */
  ghost predicate Covered(blocks: seq<AllowlistBlock>, i: nat, ip: string, net: Net) {
    exists k :: i <= k < |blocks| && BlockCovers(blocks[k], ip, net)
  }

  /** When every block parses, the scan never meets a bad block and answers coverage. */
  lemma {:induction false} ScanAnswersCoverage(blocks: seq<AllowlistBlock>, i: nat, ip: string, net: Net, onBadBlock: Check)
    requires i <= |blocks| && AllParse(blocks, net)
    ensures Scan(blocks, i, ip, net, onBadBlock) == Answer(Covered(blocks, i, ip, net))
    decreases |blocks| - i
  {
    if i < |blocks| {
      ScanAnswersCoverage(blocks, i + 1, ip, net, onBadBlock);
      if BlockCovers(blocks[i], ip, net) {
        assert Covered(blocks, i, ip, net);
      }
    }
  }

  /** The first block that does not parse or covers the address decides; with none the answer is no. */
  lemma {:induction false} ScanStopsAt(blocks: seq<AllowlistBlock>, i: nat, k: nat, ip: string, net: Net, onBadBlock: Check)
    requires i <= k <= |blocks|
    requires forall j :: i <= j < k ==> net.parseCIDR(blocks[j].ipBlock).Some? && !BlockCovers(blocks[j], ip, net)
    ensures k == |blocks| ==> Scan(blocks, i, ip, net, onBadBlock) == Answer(false)
    ensures k < |blocks| && net.parseCIDR(blocks[k].ipBlock) == None ==> Scan(blocks, i, ip, net, onBadBlock) == onBadBlock
    ensures k < |blocks| && BlockCovers(blocks[k], ip, net) ==> Scan(blocks, i, ip, net, onBadBlock) == Answer(true)
    decreases k - i
  {
    if i < k {
      ScanStopsAt(blocks, i + 1, k, ip, net, onBadBlock);
    }
  }

  /** An unparsable block before any that covers the address: a panic in the slice store. */
  lemma MemoryBadBlock(blocks: seq<AllowlistBlock>, k: nat, ip: string, net: Net)
    requires k < |blocks| && net.parseCIDR(blocks[k].ipBlock) == None
    requires forall j :: 0 <= j < k ==> net.parseCIDR(blocks[j].ipBlock).Some? && !BlockCovers(blocks[j], ip, net)
    ensures MemoryAllowedIP(blocks, ip, net) == NilNetwork
  {
    ScanStopsAt(blocks, 0, k, ip, net, NilNetwork);
  }

  /** Among the blocks the table consults: an error it reports. */
  lemma TableBadBlock(blocks: seq<AllowlistBlock>, k: nat, ip: string, orgId: string, net: Net)
    requires var mine := Filter(blocks, (b: AllowlistBlock) => b.orgId == orgId || b.orgId == "system");
      && k < |mine| && net.parseCIDR(mine[k].ipBlock) == None
      && forall j :: 0 <= j < k ==> net.parseCIDR(mine[j].ipBlock).Some? && !BlockCovers(mine[j], ip, net)
    ensures TableAllowedIP(blocks, ip, orgId, net) == ParseError
  {
    FilterAgrees(blocks, ForOrg(orgId), (b: AllowlistBlock) => b.orgId == orgId || b.orgId == "system");
    ScanStopsAt(Filter(blocks, ForOrg(orgId)), 0, k, ip, net, ParseError);
  }

  /** Both checks on the same blocks: the table's answer is the slice store's answer restricted
      to the blocks of the organization and of `system`. */
  lemma ChecksCompared(blocks: seq<AllowlistBlock>, ip: string, orgId: string, net: Net)
    requires AllParse(blocks, net)
    ensures MemoryAllowedIP(blocks, ip, net) == Answer(Covered(blocks, 0, ip, net))
    ensures TableAllowedIP(blocks, ip, orgId, net) == Answer(Covered(Filter(blocks, ForOrg(orgId)), 0, ip, net))
    ensures TableAllowedIP(blocks, ip, orgId, net)
      == Answer(exists b :: b in blocks && (b.orgId == orgId || b.orgId == "system") && BlockCovers(b, ip, net))
    ensures Covered(Filter(blocks, ForOrg(orgId)), 0, ip, net)
      <==> (exists b :: b in blocks && (b.orgId == orgId || b.orgId == "system") && BlockCovers(b, ip, net))
  {
    ScanAnswersCoverage(blocks, 0, ip, net, NilNetwork);
    var mine := Filter(blocks, ForOrg(orgId));
    FilterMembers(blocks, ForOrg(orgId));
    forall i | 0 <= i < |mine| ensures net.parseCIDR(mine[i].ipBlock).Some? {
      assert mine[i] in blocks;
    }
    ScanAnswersCoverage(mine, 0, ip, net, ParseError);
    if b :| b in blocks && (b.orgId == orgId || b.orgId == "system") && BlockCovers(b, ip, net) {
      assert ForOrg(orgId)(b);
      assert b in mine;
      var j :| 0 <= j < |mine| && mine[j] == b;
      assert Covered(mine, 0, ip, net);
    }
    if Covered(mine, 0, ip, net) {
      var j :| 0 <= j < |mine| && BlockCovers(mine[j], ip, net);
      assert mine[j] in blocks && ForOrg(orgId)(mine[j]);
    }
  }

  lemma RemoveAtMultiset<T>(s: seq<T>, i: nat)
    requires i < |s|
    ensures multiset(s) == multiset(RemoveAt(s, i)) + multiset{s[i]}
  {
    SplitAround(s, i);
  }

  lemma MemoryDenyBalance(blocks: seq<AllowlistBlock>, b: AllowlistBlock)
    ensures MemoryDeny(blocks, b).err == None <==> b in blocks
    ensures MemoryDeny(blocks, b).err == None ==>
      multiset(blocks) == multiset(MemoryDeny(blocks, b).blocks) + multiset{b}
    ensures MemoryDeny(blocks, b).err != None ==> MemoryDeny(blocks, b).blocks == blocks
  {
    var i := FirstIndex(blocks, SameBlock(b));
    if i < |blocks| {
      RemoveAtMultiset(blocks, i);
      assert blocks[i] == b;
    }
  }

  /** Under the primary key a delete removes the one copy, or reports that there is none. */
  lemma TableDenyBalance(t: seq<AllowlistBlock>, b: AllowlistBlock)
    requires Pairwise(t, Distinct)
    ensures TableDeny(t, b) == MemoryDeny(t, b)
    ensures Pairwise(TableDeny(t, b).blocks, Distinct)
  {
    var i := FirstIndex(t, SameBlock(b));
    if i < |t| {
      forall k | 0 <= k < |t| && k != i ensures OtherBlock(b)(t[k]) {
        assert Distinct(t[if k < i then k else i], t[if k < i then i else k]);
      }
      FilterDropsOne(t, i, OtherBlock(b));
    } else {
      FilterKeepsAll(t, OtherBlock(b));
    }
  }

  lemma TableAllowKeepsKey(t: seq<AllowlistBlock>, b: AllowlistBlock)
    requires Pairwise(t, Distinct)
    ensures Pairwise(TableAllow(t, b).blocks, Distinct)
    ensures TableAllow(t, b).err == None <==> b !in t
    ensures TableAllow(t, b).err != None ==> TableAllow(t, b).blocks == t
  {
    if b in t {
      var k :| 0 <= k < |t| && t[k] == b;
      assert SameBlock(b)(t[k]);
    }
  }
}
