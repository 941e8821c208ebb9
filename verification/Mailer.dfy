/** `LookupEmailsForUsernames`: names without "@" are collected from the three
    recipient lists, resolved by the configured users module, and written back into
    the lists through `append` on a prefix of the slice being ranged over. */
module Mailer {
  import opened Sequences
  import opened GoSlices

  /** What one account of the users service says about a username. */
  datatype Entry = Entry(username: string, email: string)

  /** The three lists of an email, as values. */
  datatype Lists = Lists(recipients: seq<string>, cc: seq<string>, bcc: seq<string>)

  /** The outcome of a call: the lists afterwards, and whether it returned an error. */
  datatype Outcome = Outcome(lists: Lists, failed: bool)

  const MOCK_DOMAIN := "@mocked.biz"

  predicate IsUsername(name: string) { '@' !in name }

  // ----- the lookup table -----

  function Usernames(list: seq<string>): set<string> {
    set name | name in list && IsUsername(name)
  }

  /** The names to look up: those without "@" in any of the lists. */
  function LookupKeys(l: Lists): set<string> {
    Usernames(l.recipients) + Usernames(l.cc) + Usernames(l.bcc)
  }

  /** The table with an empty address for every key. */
  function Blank(keys: set<string>): (r: map<string, string>)
    ensures r.Keys == keys
  {
    map k | k in keys :: ""
  }

  function MockTable(keys: set<string>): map<string, string> {
    map k | k in keys :: k + MOCK_DOMAIN
  }

  /** The table after `toLookup[user.Username] = user.Email` for each entry in turn. */
  function Overlay(table: map<string, string>, found: seq<Entry>): (r: map<string, string>)
    ensures forall k :: k in r <==> k in table || exists e :: e in found && e.username == k
  {
    if found == [] then table
    else
      var n := |found| - 1;
      assert found == found[..n] + [found[n]];
      Overlay(table, found[..n])[found[n].username := found[n].email]
  }

  /** The table each users module builds from the keys; None when the call fails. The
      directory stands for the AMS or Keycloak service: it answers a set of usernames
      with account entries, or fails. */
  function Resolve(keys: set<string>, usersModule: string, directory: set<string> -> Option<seq<Entry>>)
    : (table: Option<map<string, string>>)
  {
    if usersModule == "ams" || usersModule == "keycloak" then
      match directory(keys)
      case None => None
      case Some(found) => Some(Overlay(Blank(keys), found))
    else if usersModule == "mock" then Some(MockTable(keys))
    else None
  }

  // ----- the rewritten list -----

  function Replace(name: string, table: map<string, string>): string {
    if name in table then table[name] else name
  }

  /** The list with its first `i` names replaced where the table has them. */
  function SubstituteFirst(list: seq<string>, i: nat, table: map<string, string>): (r: seq<string>)
    ensures |r| == |list|
    ensures forall k :: 0 <= k < |list| ==> r[k] == if k < i then Replace(list[k], table) else list[k]
  {
    seq(|list|, k requires 0 <= k < |list| => if k < i then Replace(list[k], table) else list[k])
  }

  /** The intended result: every looked-up name replaced, everything else kept. */
  function Substitute(list: seq<string>, table: map<string, string>): (r: seq<string>)
    ensures |r| == |list|
  {
    SubstituteFirst(list, |list|, table)
  }

  lemma SubstituteNext(list: seq<string>, i: nat, table: map<string, string>)
    requires i < |list|
    ensures SubstituteFirst(list, i + 1, table) == SubstituteFirst(list, i, table)[i := Replace(list[i], table)]
  {
  }

  /** One past the last looked-up position among the first `i`; 0 when there is none. */
  function HitEnd(list: seq<string>, i: nat, table: map<string, string>): (e: nat)
    requires i <= |list|
    ensures e <= i
  {
    if i == 0 then 0
    else if list[i - 1] in table then i
    else HitEnd(list, i - 1, table)
  }

  /** How many entries survive the rewriting. */
  function KeptLength(list: seq<string>, table: map<string, string>): (n: nat)
    ensures n <= |list|
  {
    var end := HitEnd(list, |list|, table);
    if end == 0 then |list| else end
  }

  function Rewritten(list: seq<string>, table: map<string, string>): (r: seq<string>)
    ensures |r| == KeptLength(list, table)
  {
    Substitute(list, table)[..KeptLength(list, table)]
  }

  function RewriteEach(l: Lists, table: map<string, string>): Lists {
    Lists(Rewritten(l.recipients, table), Rewritten(l.cc, table), Rewritten(l.bcc, table))
  }

  /** What a call decides before it touches the lists. */
  datatype Plan = NothingToDo | Fail | Rewrite(table: map<string, string>)

  function PlanFor(l: Lists, usersModule: string, directory: set<string> -> Option<seq<Entry>>): Plan {
    if LookupKeys(l) == {} then NothingToDo
    else
      match Resolve(LookupKeys(l), usersModule, directory)
      case None => Fail
      case Some(table) => Rewrite(table)
  }

  /** The whole call on values. */
  function Lookup(l: Lists, usersModule: string, directory: set<string> -> Option<seq<Entry>>): Outcome {
    match PlanFor(l, usersModule, directory)
    case NothingToDo => Outcome(l, false)
    case Fail => Outcome(l, true)
    case Rewrite(table) => Outcome(RewriteEach(l, table), false)
  }

  // ----- the code -----

  /** `x = append(x[:i], v); x = append(x, x[i+1:]...)` */
  method ReplaceAt(s: Slice<string>, i: nat, v: string, spare: nat) returns (r: Slice<string>)
    requires s.Ok() && i < s.cap
    modifies s.arr
    ensures r == Slice(s.arr, s.off, i + 1, s.cap)
    ensures s.arr[s.off + i] == v
    ensures forall k :: 0 <= k < s.arr.Length && k != s.off + i ==> s.arr[k] == old(s.arr[k])
  {
    r := Append(s.Upto(i), [v], spare);
    assert s.arr[s.off + i] == r.View()[i];
    r := Append(r, r.From(i + 1).View(), spare);
  }

  /** One iteration of the loop over `s`, when the email holds the header `r`. */
  method Visit(s: Slice<string>, r: Slice<string>, i: nat, table: map<string, string>, spare: nat)
    returns (r': Slice<string>)
    requires s.Ok() && i < s.len && r.Ok() && r.arr == s.arr && r.off == s.off && r.cap == s.cap
    modifies s.arr
    ensures r' == if old(s.View()[i]) in table then Slice(s.arr, s.off, i + 1, s.cap) else r
    ensures s.View() == old(s.View())[i := Replace(old(s.View())[i], table)]
  {
    r' := r;
    var name := s.arr[s.off + i];
    if name in table {
      r' := ReplaceAt(r, i, table[name], spare);
    }
  }

  /** The loop over one list. The range expression keeps the header `s`; `r` is the header
      the email ends up with. Whatever `spare` is, nothing is ever reallocated and no entry
      is disturbed before it is read. */
  method RangeAndReplace(s: Slice<string>, table: map<string, string>, spare: nat) returns (r: Slice<string>)
    requires s.Ok()
    modifies s.arr
    ensures r == Slice(s.arr, s.off, KeptLength(old(s.View()), table), s.cap)
    ensures s.View() == Substitute(old(s.View()), table)
  {
    ghost var was := s.View();
    r := s;
    assert was == SubstituteFirst(was, 0, table);
    for i := 0 to s.len
      invariant r == Slice(s.arr, s.off, r.len, s.cap)
      invariant r.len == if HitEnd(was, i, table) == 0 then s.len else HitEnd(was, i, table)
      invariant s.View() == SubstituteFirst(was, i, table)
    {
      SubstituteNext(was, i, table);
      r := Visit(s, r, i, table, spare);
    }
  }

  /** What the email sees of one rewritten list. */
  method RewriteInPlace(s: Slice<string>, table: map<string, string>, spare: nat) returns (r: Slice<string>)
    requires s.Ok()
    modifies s.arr
    ensures r.Ok() && r.arr == s.arr && r.View() == Rewritten(old(s.View()), table)
  {
    r := RangeAndReplace(s, table, spare);
    assert r.View() == s.View()[..r.len];
  }

  /** The lists are decoded separately, so no two of them share an array. */
  ghost predicate Separate(to: Slice<string>, cc: Slice<string>, bcc: Slice<string>) {
    && to.Ok() && cc.Ok() && bcc.Ok()
    && to.arr != cc.arr && to.arr != bcc.arr && cc.arr != bcc.arr
  }

  function Views(to: Slice<string>, cc: Slice<string>, bcc: Slice<string>): Lists
    requires Separate(to, cc, bcc)
    reads to.arr, cc.arr, bcc.arr
  {
    Lists(to.View(), cc.View(), bcc.View())
  }

  method RewriteLists(to: Slice<string>, cc: Slice<string>, bcc: Slice<string>, table: map<string, string>, spare: nat)
    returns (to': Slice<string>, cc': Slice<string>, bcc': Slice<string>)
    requires Separate(to, cc, bcc)
    modifies to.arr, cc.arr, bcc.arr
    ensures Separate(to', cc', bcc')
    ensures to'.arr == to.arr && cc'.arr == cc.arr && bcc'.arr == bcc.arr
    ensures Views(to', cc', bcc') == RewriteEach(old(Views(to, cc, bcc)), table)
  {
    to' := RewriteInPlace(to, table, spare);
    cc' := RewriteInPlace(cc, table, spare);
    bcc' := RewriteInPlace(bcc, table, spare);
  }

  /** Adds the usernames of one list to the keys of the table. */
  method CollectNames(s: Slice<string>, table: map<string, string>) returns (r: map<string, string>)
    requires s.Ok()
    requires table == Blank(table.Keys)
    ensures r == Blank(r.Keys) && r.Keys == table.Keys + Usernames(s.View())
  {
    r := table;
    for i := 0 to s.len
      invariant r == Blank(r.Keys) && r.Keys == table.Keys + Usernames(s.View()[..i])
    {
      var name := s.View()[i];
      assert s.View()[..i + 1] == s.View()[..i] + [name];
      if IsUsername(name) {
        r := r[name := ""];
      }
    }
    assert s.View()[..s.len] == s.View();
  }

  method CollectKeys(to: Slice<string>, cc: Slice<string>, bcc: Slice<string>) returns (r: map<string, string>)
    requires Separate(to, cc, bcc)
    ensures r == Blank(r.Keys) && r.Keys == LookupKeys(Views(to, cc, bcc))
  {
    r := CollectNames(to, map[]);
    r := CollectNames(cc, r);
    r := CollectNames(bcc, r);
  }

  /** `toLookup[user.Username] = user.Email`, user by user. */
  method FillTable(table: map<string, string>, found: seq<Entry>) returns (r: map<string, string>)
    ensures r == Overlay(table, found)
  {
    r := table;
    for i := 0 to |found|
      invariant r == Overlay(table, found[..i])
    {
      assert found[..i + 1][..i] == found[..i];
      r := r[found[i].username := found[i].email];
    }
    assert found[..|found|] == found;
  }

  /** The switch over the configured users module. */
  method ResolveNames(toLookup: map<string, string>, usersModule: string, directory: set<string> -> Option<seq<Entry>>)
    returns (resolved: Option<map<string, string>>)
    requires toLookup == Blank(toLookup.Keys)
    ensures resolved == Resolve(toLookup.Keys, usersModule, directory)
  {
    if usersModule == "ams" || usersModule == "keycloak" {
      var found := directory(toLookup.Keys);
      if found == None {
        return None;
      }
      var table := FillTable(toLookup, found.value);
      resolved := Some(table);
    } else if usersModule == "mock" {
      resolved := Some(map k | k in toLookup :: k + MOCK_DOMAIN);
      assert resolved.value == MockTable(toLookup.Keys);
    } else {
      resolved := None;
    }
  }

  method MakePlan(to: Slice<string>, cc: Slice<string>, bcc: Slice<string>, usersModule: string,
                  directory: set<string> -> Option<seq<Entry>>)
    returns (plan: Plan)
    requires Separate(to, cc, bcc)
    ensures plan == PlanFor(Views(to, cc, bcc), usersModule, directory)
  {
    var toLookup := CollectKeys(to, cc, bcc);
    if |toLookup.Keys| == 0 {
      return NothingToDo;
    }
    var resolved := ResolveNames(toLookup, usersModule, directory);
    plan := if resolved == None then Fail else Rewrite(resolved.value);
  }

  class Email {
    var recipients: Slice<string>
    var ccList: Slice<string>
    var bccList: Slice<string>

    ghost predicate Valid()
      reads this
    {
      Separate(recipients, ccList, bccList)
    }

    ghost function Contents(): Lists
      requires Valid()
      reads this, recipients.arr, ccList.arr, bccList.arr
    {
      Views(recipients, ccList, bccList)
    }

    method LookupEmailsForUsernames(usersModule: string, directory: set<string> -> Option<seq<Entry>>, spare: nat)
      returns (failed: bool)
      requires Valid()
      modifies this, recipients.arr, ccList.arr, bccList.arr
      ensures Valid() && recipients.arr == old(recipients.arr)
      ensures ccList.arr == old(ccList.arr) && bccList.arr == old(bccList.arr)
      ensures Outcome(Contents(), failed) == Lookup(old(Contents()), usersModule, directory)
    {
      var plan := MakePlan(recipients, ccList, bccList, usersModule, directory);
      if plan.Rewrite? {
        recipients, ccList, bccList := RewriteLists(recipients, ccList, bccList, plan.table, spare);
      }
      failed := plan.Fail?;
    }
  }

  // ----- what the rewriting does to a list -----

  lemma {:induction false} HitEndMeaning(list: seq<string>, i: nat, table: map<string, string>)
    requires i <= |list|
    ensures HitEnd(list, i, table) > 0 ==> list[HitEnd(list, i, table) - 1] in table
    ensures forall k :: HitEnd(list, i, table) <= k < i ==> list[k] !in table
  {
    if i > 0 && list[i - 1] !in table {
      HitEndMeaning(list, i - 1, table);
    }
  }

  /** The full substitution is the result followed by a tail of untouched names: what the
      second `append` loses is everything after the last looked-up position. */
  lemma {:induction false} LostTail(list: seq<string>, table: map<string, string>)
    ensures Substitute(list, table) == Rewritten(list, table) + list[KeptLength(list, table)..]
    ensures forall name :: name in list[KeptLength(list, table)..] ==> name !in table
  {
    HitEndMeaning(list, |list|, table);
    var kept := KeptLength(list, table);
    assert forall k :: kept <= k < |list| ==> list[k] !in table;
    assert Substitute(list, table)[kept..] == list[kept..];
  }

  /** The loop does what was intended exactly when no entry or the last entry was looked up. */
  lemma {:induction false} CompleteExactlyWhen(list: seq<string>, table: map<string, string>)
    ensures Rewritten(list, table) == Substitute(list, table)
      <==> (forall name :: name in list ==> name !in table) || list[|list| - 1] in table
  {
    HitEndMeaning(list, |list|, table);
    var end := HitEnd(list, |list|, table);
    if end == 0 {
      assert Rewritten(list, table) == Substitute(list, table);
    } else {
      assert list[end - 1] in table;
      assert end == |list| <==> list[|list| - 1] in table;
      assert |Rewritten(list, table)| == end;
    }
  }

  /** A list is empty afterwards only if it was empty before, so the fallback recipient of
      the caller is used for exactly the emails that came without recipients. */
  lemma NeverEmptied(list: seq<string>, table: map<string, string>)
    ensures Rewritten(list, table) == [] <==> list == []
  {
  }

  // ----- the mock module -----

  lemma MockList(list: seq<string>, keys: set<string>)
    requires Usernames(list) <= keys && forall k :: k in keys ==> IsUsername(k)
    ensures Usernames(Rewritten(list, MockTable(keys))) == {}
    ensures Usernames(list[KeptLength(list, MockTable(keys))..]) == {}
  {
    var table := MockTable(keys);
    LostTail(list, table);
    forall name | name in Rewritten(list, table) ensures '@' in name {
      var k :| 0 <= k < |list| && name == Replace(list[k], table);
      if list[k] in table {
        assert name == list[k] + MOCK_DOMAIN && MOCK_DOMAIN[0] == '@';
        assert name[|list[k]|] == '@';
      }
    }
  }

  /** Under the mock module the call succeeds, every surviving entry and every lost entry is
      an address, and a second call changes nothing. */
  lemma MockSettles(l: Lists, directory: set<string> -> Option<seq<Entry>>)
    ensures var out := Lookup(l, "mock", directory);
      && !out.failed && LookupKeys(out.lists) == {}
      && Lookup(out.lists, "mock", directory) == out
    ensures var kept := Lookup(l, "mock", directory).lists;
      && Usernames(l.recipients[|kept.recipients|..]) == {}
      && Usernames(l.cc[|kept.cc|..]) == {} && Usernames(l.bcc[|kept.bcc|..]) == {}
  {
    var keys := LookupKeys(l);
    if keys == {} {
      assert l.recipients[|l.recipients|..] == [] && l.cc[|l.cc|..] == [] && l.bcc[|l.bcc|..] == [];
    } else {
      MockList(l.recipients, keys);
      MockList(l.cc, keys);
      MockList(l.bcc, keys);
    }
  }

  // ----- the AMS and Keycloak modules -----

  /** An entry that no later entry overrides decides the address of its username. */
  lemma {:induction false} LastEntryDecides(table: map<string, string>, found: seq<Entry>, i: nat)
    requires i < |found| && forall j :: i < j < |found| ==> found[j].username != found[i].username
    ensures found[i].username in Overlay(table, found)
    ensures Overlay(table, found)[found[i].username] == found[i].email
  {
    if i < |found| - 1 {
      LastEntryDecides(table, found[..|found| - 1], i);
    }
  }

  /** A username the service does not know is replaced by the empty address. */
  lemma {:induction false} UnknownBecomesEmpty(keys: set<string>, found: seq<Entry>, name: string)
    requires name in keys && forall j :: 0 <= j < |found| ==> found[j].username != name
    ensures Replace(name, Overlay(Blank(keys), found)) == ""
  {
    if found != [] {
      UnknownBecomesEmpty(keys, found[..|found| - 1], name);
    }
  }

  // ----- what a call does to the lists, module by module -----

  /** The entries that hit are replaced by what is right for them, the others stay, and the list is
      cut behind the last hit when there is one. */
  ghost predicate Delivered(list: seq<string>, result: seq<string>, hit: string -> bool, right: (string, string) -> bool) {
    && |result| <= |list|
    && (forall i :: 0 <= i < |result| ==> if hit(list[i]) then right(list[i], result[i]) else result[i] == list[i])
    && (forall i :: |result| <= i < |list| ==> !hit(list[i]))
    && (if exists i :: 0 <= i < |list| && hit(list[i]) then result != [] && hit(list[|result| - 1])
        else |result| == |list|)
  }

  ghost predicate AllDelivered(was: Lists, now: Lists, hit: string -> bool, right: (string, string) -> bool) {
    && Delivered(was.recipients, now.recipients, hit, right)
    && Delivered(was.cc, now.cc, hit, right)
    && Delivered(was.bcc, now.bcc, hit, right)
  }

  lemma RewrittenDelivered(list: seq<string>, table: map<string, string>, hit: string -> bool, right: (string, string) -> bool)
    requires forall i :: 0 <= i < |list| ==> (list[i] in table <==> hit(list[i]))
    requires forall i :: 0 <= i < |list| && list[i] in table ==> right(list[i], table[list[i]])
    ensures Delivered(list, Rewritten(list, table), hit, right)
  {
    HitEndMeaning(list, |list|, table);
  }

  lemma ListsDelivered(l: Lists, table: map<string, string>, hit: string -> bool, right: (string, string) -> bool)
    requires forall name :: name in l.recipients + l.cc + l.bcc ==> (name in table <==> hit(name))
    requires forall name :: name in table ==> right(name, table[name])
    ensures AllDelivered(l, RewriteEach(l, table), hit, right)
  {
    forall name | name in l.recipients || name in l.cc || name in l.bcc ensures name in l.recipients + l.cc + l.bcc {
    }
    RewrittenDelivered(l.recipients, table, hit, right);
    RewrittenDelivered(l.cc, table, hit, right);
    RewrittenDelivered(l.bcc, table, hit, right);
  }

  /** The service says something about the name. */
  ghost predicate Answered(found: seq<Entry>, name: string) {
    exists i :: 0 <= i < |found| && found[i].username == name
  }

  /** The address is the one of the last entry about the name, or empty when there is none. */
  ghost predicate LastAddress(found: seq<Entry>, name: string, address: string) {
    if Answered(found, name) then
      exists i :: 0 <= i < |found| && found[i] == Entry(name, address) && forall j :: i < j < |found| ==> found[j].username != name
    else address == ""
  }

  lemma {:induction false} LastAnswer(found: seq<Entry>, name: string) returns (i: nat)
    requires Answered(found, name)
    ensures i < |found| && found[i].username == name && forall j :: i < j < |found| ==> found[j].username != name
  {
    i := |found| - 1;
    if found[i].username != name {
      assert Answered(found[..i], name);
      i := LastAnswer(found[..i], name);
    }
  }

  lemma OverlayMeans(keys: set<string>, found: seq<Entry>, name: string)
    ensures name in Overlay(Blank(keys), found) <==> name in keys || Answered(found, name)
    ensures name in Overlay(Blank(keys), found) ==> LastAddress(found, name, Overlay(Blank(keys), found)[name])
  {
    if Answered(found, name) {
      var i := LastAnswer(found, name);
      LastEntryDecides(Blank(keys), found, i);
    } else if name in keys {
      UnknownBecomesEmpty(keys, found, name);
    }
  }

  lemma ServiceDelivers(l: Lists, keys: set<string>, found: seq<Entry>)
    requires keys == LookupKeys(l)
    ensures AllDelivered(l, RewriteEach(l, Overlay(Blank(keys), found)),
                         name => '@' !in name || Answered(found, name), (name, address) => LastAddress(found, name, address))
  {
    var table := Overlay(Blank(keys), found);
    forall name ensures name in table <==> name in keys || Answered(found, name)
      ensures name in table ==> LastAddress(found, name, table[name])
    {
      OverlayMeans(keys, found, name);
    }
    ListsDelivered(l, table, name => '@' !in name || Answered(found, name), (name, address) => LastAddress(found, name, address));
  }

  /** The call for every users module. Without a name to look up nothing happens. With the AMS or the
      Keycloak service a name becomes the address of the last entry about it, or empty, and a service
      that fails fails the call. The mock module appends its domain. Any other module fails. A failed
      call leaves the lists alone. */
  lemma LookupMeans(l: Lists, usersModule: string, directory: set<string> -> Option<seq<Entry>>)
    ensures var out := Lookup(l, usersModule, directory);
      var names := set name | name in l.recipients + l.cc + l.bcc && '@' !in name;
      if names == {} then out == Outcome(l, false)
      else if usersModule == "ams" || usersModule == "keycloak" then
        match directory(names)
        case None => out == Outcome(l, true)
        case Some(found) =>
          && !out.failed
          && AllDelivered(l, out.lists, name => '@' !in name || Answered(found, name),
                          (name, address) => LastAddress(found, name, address))
      else if usersModule == "mock" then
        && !out.failed
        && AllDelivered(l, out.lists, name => '@' !in name, (name, address) => address == name + "@mocked.biz")
      else out == Outcome(l, true)
  {
    hide AllDelivered, RewriteEach, Overlay;
    var names := set name | name in l.recipients + l.cc + l.bcc && '@' !in name;
    assert LookupKeys(l) == names;
    if names != {} {
      if usersModule == "ams" || usersModule == "keycloak" {
        if directory(names).Some? {
          ServiceDelivers(l, names, directory(names).value);
        }
      } else if usersModule == "mock" {
        ListsDelivered(l, MockTable(names), name => '@' !in name, (name, address) => address == name + "@mocked.biz");
      }
    }
  }
}
