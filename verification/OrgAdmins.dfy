/** The account handlers: search the accounts, search the admin bindings of what was found,
    merge the flags, drop the others on request, and answer. */
module OrgAdmins {
  import opened Sequences
  import opened Models
  import opened SearchText
  import opened AccountQueries
  import opened QueryMeaning

  datatype OrgAdmin = OrgAdmin(id: string, isOrgAdmin: bool)

  // ----- accounts to users -----

  predicate HasTrueLabel(labels: seq<(string, string)>, key: string) {
    exists i :: 0 <= i < |labels| && labels[i] == (key, "true")
  }

  method GetIsInternal(labels: seq<(string, string)>, key: string) returns (r: bool)
    ensures r == HasTrueLabel(labels, key)
  {
    for i := 0 to |labels|
      invariant forall k :: 0 <= k < i ==> labels[k] != (key, "true")
    {
      var labelExists := labels[i].0 == key;
      var labelTruthy := labels[i].1 == "true";
      if labelExists && labelTruthy {
        assert labels[i] == (key, "true");
        return true;
      }
    }
    r := false;
  }

  function ToUser(key: string): Account -> User {
    (a: Account) => User(a.username, a.id, a.email, a.firstName, a.lastName, "", a.href,
              true, false, HasTrueLabel(a.labels, key), "en_US", a.orgId, a.orgName, "", a.kind)
  }

  /** The user of an account, field by field, with the given flag. */
  predicate Describes(u: User, a: Account, key: string, flagged: bool) {
    && u.username == a.username && u.id == a.id && u.email == a.email
    && u.firstName == a.firstName && u.lastName == a.lastName
    && u.addressString == a.href && u.orgId == a.orgId && u.displayName == a.orgName && u.userType == a.kind
    && u.accountNumber == "" && u.entitlements == "" && u.locale == "en_US"
    && u.isActive && u.isOrgAdmin == flagged
    && (u.isInternal <==> exists i :: 0 <= i < |a.labels| && a.labels[i].0 == key && a.labels[i].1 == "true")
  }

  lemma AccountsDescribed(found: seq<Account>, key: string, k: nat)
    requires k < |found|
    ensures Describes(Map(found, ToUser(key))[k], found[k], key, false)
  {
    var labels := found[k].labels;
    if i :| 0 <= i < |labels| && labels[i].0 == key && labels[i].1 == "true" {
      assert labels[i] == (key, "true");
    }
  }

  method ResponseToUsers(items: seq<Account>, key: string) returns (users: Users)
    ensures fresh(users) && users.users == Map(items, ToUser(key))
  {
    users := new Users();
    for i := 0 to |items|
      invariant fresh(users) && |users.users| == i
      invariant forall k :: 0 <= k < i ==> users.users[k] == ToUser(key)(items[k])
    {
      var a := items[i];
      var isInternal := GetIsInternal(a.labels, key);
      users.AddUser(User(a.username, a.id, a.email, a.firstName, a.lastName, "", a.href,
                         true, false, isInternal, "en_US", a.orgId, a.orgName, "", a.kind));
    }
  }

  // ----- the flags -----

  function Ids(users: seq<User>): (ids: seq<string>)
    ensures |ids| == |users|
  {
    Map(users, (u: User) => u.id)
  }

  predicate IsBound(bindings: seq<RoleBinding>, id: string) {
    exists i :: 0 <= i < |bindings| && bindings[i].accountId == id && bindings[i].roleId == "OrganizationAdmin"
  }

  /** The map a list of found bindings fills. */
  function BindingMap(found: seq<RoleBinding>): map<string, OrgAdmin> {
    map b | b in found :: b.accountId := OrgAdmin(b.accountId, true)
  }

  method FillResponse(bindingSlice: seq<RoleBinding>) returns (r: map<string, OrgAdmin>)
    ensures r == BindingMap(bindingSlice)
  {
    r := map[];
    for i := 0 to |bindingSlice|
      invariant r == BindingMap(bindingSlice[..i])
    {
      var id := bindingSlice[i].accountId;
      assert bindingSlice[..i + 1] == bindingSlice[..i] + [bindingSlice[i]];
      r := r[id := OrgAdmin(id, true)];
    }
    assert bindingSlice[..|bindingSlice|] == bindingSlice;
  }

  /** None when the service rejects the search. */
  method GetOrgAdmin(u: seq<User>, bindings: seq<RoleBinding>) returns (r: Option<map<string, OrgAdmin>>)
    ensures AllConjs(OrgAdminQuery(Ids(u)))
    ensures r == match SearchBindings(bindings, Print(OrgAdminQuery(Ids(u))))
                 case None => None
                 case Some(found) => Some(BindingMap(found))
  {
    var search := CreateOrgAdminSearchString(Ids(u));
    var found := SearchBindings(bindings, search);
    if found == None {
      return None;
    }
    if found.value == [] {
      return Some(map[]);
    }
    var orgAdminResponse := FillResponse(found.value);
    r := Some(orgAdminResponse);
  }

  /** The flag is set where the map has the id; elsewhere the loop assigns to its own copy. */
  function Flagged(isOrgAdmin: map<string, OrgAdmin>): User -> User {
    (u: User) => if u.id in isOrgAdmin then u.(isOrgAdmin := isOrgAdmin[u.id].isOrgAdmin) else u
  }

  method MergeOrgAdmins(u: Users, isOrgAdmin: map<string, OrgAdmin>)
    modifies u`users
    ensures u.users == Map(old(u.users), Flagged(isOrgAdmin))
  {
    for i := 0 to |u.users|
      invariant |u.users| == |old(u.users)|
      invariant forall k :: 0 <= k < i ==> u.users[k] == Flagged(isOrgAdmin)(old(u.users)[k])
      invariant forall k :: i <= k < |u.users| ==> u.users[k] == old(u.users)[k]
    {
      var user := u.users[i];
      if user.id in isOrgAdmin {
        u.users := u.users[i := u.users[i].(isOrgAdmin := isOrgAdmin[user.id].isOrgAdmin)];
      } else {
        user := user.(isOrgAdmin := false);
      }
    }
  }

  // ----- the answer -----

  function ToV3(u: User): UserV3Response {
    UserV3Response(u.id, u.username, u.email, u.firstName, u.lastName, u.isActive, u.isOrgAdmin, u.isInternal, u.locale)
  }

  method UsersToV3Response(users: seq<User>) returns (r: UserV3Responses)
    ensures fresh(r) && r.responses == Map(users, ToV3)
  {
    r := new UserV3Responses();
    for i := 0 to |users|
      invariant fresh(r) && |r.responses| == i
      invariant forall k :: 0 <= k < i ==> r.responses[k] == ToV3(users[k])
    {
      var user := users[i];
      r.AddV3Response(UserV3Response(user.id, user.username, user.email, user.firstName, user.lastName,
                                     user.isActive, user.isOrgAdmin, user.isInternal, user.locale));
    }
  }

  /** The user with the flag that the bindings justify. */
  function WithBinding(bindings: seq<RoleBinding>): User -> User {
    (u: User) => u.(isOrgAdmin := IsBound(bindings, u.id))
  }

  /** What the handler should answer for the accounts that were found. */
  function Answer(found: seq<Account>, key: string, bindings: seq<RoleBinding>, adminOnly: bool): seq<UserV3Response> {
    var users := Map(Map(found, ToUser(key)), WithBinding(bindings));
    Map(if adminOnly then Filter(users, IsAdmin) else users, ToV3)
  }

  predicate CleanIds(found: seq<Account>) {
    forall i :: 0 <= i < |found| ==> QuoteFree(found[i].id)
  }

  lemma {:induction false} BindingMapKeys(bindings: seq<RoleBinding>, ids: seq<string>, id: string)
    requires id in ids && forall i :: 0 <= i < |ids| ==> QuoteFree(ids[i])
    ensures AllConjs(OrgAdminQuery(ids))
    ensures var found := SearchBindings(bindings, Print(OrgAdminQuery(ids)));
      found.Some? && (id in BindingMap(found.value) <==> IsBound(bindings, id))
  {
    OrgAdminQueryShape(ids);
    ParsePrint(OrgAdminQuery(ids));
    var e := DisjOf(OrgAdminQuery(ids));
    var found := Filter(bindings, SelectedBinding(e));
    FilterMembers(bindings, SelectedBinding(e));
    if id in BindingMap(found) {
      var b :| b in found && b.accountId == id;
      OrgAdminSearchSelects(ids, b);
    }
    if IsBound(bindings, id) {
      var i :| 0 <= i < |bindings| && bindings[i].accountId == id && bindings[i].roleId == ORGANIZATION_ADMIN;
      OrgAdminSearchSelects(ids, bindings[i]);
      assert bindings[i] in found;
    }
  }

  /** The merged flag is the justified one exactly when no user without a binding came with the
      flag set already. Users built from accounts never do: FoundNeverFlagged. */
  lemma MergedFlagIff(u: User, bound: map<string, OrgAdmin>, bindings: seq<RoleBinding>)
    requires u.id in bound <==> IsBound(bindings, u.id)
    requires forall id :: id in bound ==> bound[id].isOrgAdmin
    ensures Flagged(bound)(u) == WithBinding(bindings)(u) <==> (u.isOrgAdmin ==> IsBound(bindings, u.id))
  {
  }

  lemma FoundNeverFlagged(found: seq<Account>, key: string)
    ensures forall i :: 0 <= i < |found| ==> !Map(found, ToUser(key))[i].isOrgAdmin
  {
  }

  predicate NamedBy(hits: seq<RoleBinding>, id: string) {
    exists i :: 0 <= i < |hits| && hits[i].accountId == id
  }

  function WithHit(hits: seq<RoleBinding>): User -> User {
    (u: User) => u.(isOrgAdmin := NamedBy(hits, u.id))
  }

  /** Whatever the search found, clearing only the copy does no harm to users built from accounts:
      a user leaves the merge flagged exactly when a found binding names its id. */
  lemma FlagsFollowHits(found: seq<Account>, key: string, hits: seq<RoleBinding>)
    ensures Map(Map(found, ToUser(key)), Flagged(BindingMap(hits))) == Map(Map(found, ToUser(key)), WithHit(hits))
  {
    FoundNeverFlagged(found, key);
    var users := Map(found, ToUser(key));
    forall i | 0 <= i < |users| ensures Flagged(BindingMap(hits))(users[i]) == WithHit(hits)(users[i]) {
      if k :| 0 <= k < |hits| && hits[k].accountId == users[i].id {
        assert hits[k] in hits;
      }
    }
  }

  /** For quote-free ids the search for bindings succeeds, and the merge gives every user the flag
      that the bindings justify. */
  lemma FlagsAreJustified(found: seq<Account>, key: string, bindings: seq<RoleBinding>)
    requires CleanIds(found)
    ensures AllConjs(OrgAdminQuery(Ids(Map(found, ToUser(key)))))
    ensures var users := Map(found, ToUser(key));
      var hits := SearchBindings(bindings, Print(OrgAdminQuery(Ids(users))));
      hits.Some? && Map(users, Flagged(BindingMap(hits.value))) == Map(users, WithBinding(bindings))
  {
    var users := Map(found, ToUser(key));
    var ids := Ids(users);
    if found == [] {
      EmptySearchSelectsAll(bindings);
      assert ids == [];
    } else {
      OrgAdminQueryShape(ids);
      BindingMapKeys(bindings, ids, ids[0]);
      var hits := SearchBindings(bindings, Print(OrgAdminQuery(ids))).value;
      forall i | 0 <= i < |users| ensures Flagged(BindingMap(hits))(users[i]) == WithBinding(bindings)(users[i]) {
        assert ids[i] == users[i].id;
        BindingMapKeys(bindings, ids, ids[i]);
      }
    }
  }

  /** The answer when the search for bindings found `hits`. */
  function AnswerFrom(found: seq<Account>, key: string, hits: seq<RoleBinding>, adminOnly: bool): seq<UserV3Response> {
    var users := Map(Map(found, ToUser(key)), WithHit(hits));
    Map(if adminOnly then Filter(users, IsAdmin) else users, ToV3)
  }

  /** For quote-free ids it is the answer the bindings justify. Without accounts the search text is
      empty and finds every binding, which the merge of no users ignores. */
  lemma CleanAnswer(found: seq<Account>, key: string, bindings: seq<RoleBinding>, adminOnly: bool)
    requires CleanIds(found)
    ensures AllConjs(OrgAdminQuery(Ids(Map(found, ToUser(key)))))
    ensures var hits := SearchBindings(bindings, Print(OrgAdminQuery(Ids(Map(found, ToUser(key))))));
      hits.Some? && AnswerFrom(found, key, hits.value, adminOnly) == Answer(found, key, bindings, adminOnly)
  {
    FlagsAreJustified(found, key, bindings);
    var hits := SearchBindings(bindings, Print(OrgAdminQuery(Ids(Map(found, ToUser(key)))))).value;
    FlagsFollowHits(found, key, hits);
  }

  method AnswerUsers(found: seq<Account>, key: string, bindings: seq<RoleBinding>, adminOnly: bool)
    returns (r: Option<seq<UserV3Response>>)
    ensures AllConjs(OrgAdminQuery(Ids(Map(found, ToUser(key)))))
    ensures r == match SearchBindings(bindings, Print(OrgAdminQuery(Ids(Map(found, ToUser(key))))))
                 case None => None
                 case Some(hits) => Some(AnswerFrom(found, key, hits, adminOnly))
  {
    var u := ResponseToUsers(found, key);
    var isOrgAdmin := GetOrgAdmin(u.users, bindings);
    if isOrgAdmin == None {
      return None;
    }
    FlagsFollowHits(found, key, SearchBindings(bindings, Print(OrgAdminQuery(Ids(u.users)))).value);
    MergeOrgAdmins(u, isOrgAdmin.value);
    if adminOnly {
      u.RemoveNonOrgAdmins();
    }
    var answer := UsersToV3Response(u.users);
    r := Some(answer.responses);
  }

  /** `AccountsV3UsersHandler` past its guards, and its sibling with a request body. None is an
      answer of 500: one of the two searches was rejected. */
  method AccountsV3Users(orgId: string, body: Option<UsersByBody>, accounts: seq<Account>, bindings: seq<RoleBinding>,
                         key: string, adminOnly: bool) returns (r: Option<seq<UserV3Response>>)
    ensures AllConjs([BodyQuery(orgId, body.GetOr(UsersByBody("", "", "")))])
    ensures var found := SearchAccounts(accounts, Print([BodyQuery(orgId, body.GetOr(UsersByBody("", "", "")))]));
      if found == None then r == None
      else
        && AllConjs(OrgAdminQuery(Ids(Map(found.value, ToUser(key)))))
        && r == (match SearchBindings(bindings, Print(OrgAdminQuery(Ids(Map(found.value, ToUser(key))))))
                 case None => None
                 case Some(hits) => Some(AnswerFrom(found.value, key, hits, adminOnly)))
        && (CleanIds(found.value) ==> r == Some(Answer(found.value, key, bindings, adminOnly)))
  {
    var search: string;
    if body.Some? {
      search := CreateAccountsV3UsersBySearchString(orgId, body.value);
    } else {
      search := CreateAccountsV3UsersSearchString(orgId);
    }
    BodyQueryShape(orgId, body.GetOr(UsersByBody("", "", "")));
    var found := SearchAccounts(accounts, search);
    if found == None {
      return None;
    }
    r := AnswerUsers(found.value, key, bindings, adminOnly);
    if CleanIds(found.value) {
      CleanAnswer(found.value, key, bindings, adminOnly);
    }
  }

  /** One line of the answer: the account, field by field, with the given flag. */
  predicate Shows(v: UserV3Response, a: Account, key: string, flagged: bool) {
    && v.id == a.id && v.username == a.username && v.email == a.email
    && v.firstName == a.firstName && v.lastName == a.lastName
    && v.isActive && v.isOrgAdmin == flagged && v.locale == "en_US"
    && (v.isInternal <==> exists i :: 0 <= i < |a.labels| && a.labels[i].0 == key && a.labels[i].1 == "true")
  }

  /** Without the filter the answer shows the accounts in their order, each flagged exactly when the
      admin role is bound to it. */
  lemma AnswerShows(found: seq<Account>, key: string, bindings: seq<RoleBinding>)
    ensures var answer := Answer(found, key, bindings, false);
      |answer| == |found| && forall k :: 0 <= k < |found| ==> Shows(answer[k], found[k], key, IsBound(bindings, found[k].id))
  {
    forall k | 0 <= k < |found|
      ensures Shows(Answer(found, key, bindings, false)[k], found[k], key, IsBound(bindings, found[k].id))
    {
      AccountsDescribed(found, key, k);
    }
  }

  // ----- users by name -----

  /** What a request gets: the status written first, and the users written to the body, if any. */
  datatype Sent = Sent(status: nat, users: Option<seq<User>>)

  function FirstStatus(written: Option<nat>, status: nat): nat {
    written.GetOr(status)
  }

  /** A body that is not JSON leaves no names, and its 400 does not end the request. */
  ghost function UsersByNameOutcome(names: Option<seq<string>>, queryReads: bool, accounts: seq<Account>,
                                    bindings: seq<RoleBinding>, key: string): Sent
  {
    UsernameQueryShape(names.GetOr([]));
    var written := if names.None? then Some(400) else None;
    if !queryReads then Sent(400, None)
    else
      match SearchAccounts(accounts, Print(UsernameQuery(names.GetOr([]))))
      case None => Sent(FirstStatus(written, 500), None)
      case Some(found) =>
        OrgAdminQueryShape(Ids(Map(found, ToUser(key))));
        match SearchBindings(bindings, Print(OrgAdminQuery(Ids(Map(found, ToUser(key))))))
        case None => Sent(FirstStatus(written, 500), None)
        case Some(hits) => Sent(FirstStatus(written, 200), Some(Map(Map(found, ToUser(key)), WithHit(hits))))
  }

  /** `UsersV1Handler` with the account service: no names stands for a body that cannot be read. */
  method UsersByName(names: Option<seq<string>>, queryReads: bool, accounts: seq<Account>, bindings: seq<RoleBinding>,
                     key: string) returns (sent: Sent)
    ensures sent == UsersByNameOutcome(names, queryReads, accounts, bindings, key)
  {
    var written: Option<nat> := None;
    var usernames := names.GetOr([]);
    if names == None {
      written := Some(400);
    }
    if !queryReads {
      return Sent(FirstStatus(written, 400), None);
    }
    var search := CreateSearchString(usernames);
    var found := SearchAccounts(accounts, search);
    if found == None {
      return Sent(FirstStatus(written, 500), None);
    }
    var u := ResponseToUsers(found.value, key);
    var isOrgAdmin := GetOrgAdmin(u.users, bindings);
    if isOrgAdmin == None {
      return Sent(FirstStatus(written, 500), None);
    }
    FlagsFollowHits(found.value, key, SearchBindings(bindings, Print(OrgAdminQuery(Ids(u.users)))).value);
    MergeOrgAdmins(u, isOrgAdmin.value);
    sent := Sent(FirstStatus(written, 200), Some(u.users));
  }

  lemma UsersByNameClean(names: Option<seq<string>>, accounts: seq<Account>, bindings: seq<RoleBinding>, key: string)
    requires AllQuoteFree(names.GetOr([])) && CleanIds(accounts)
    ensures var list := names.GetOr([]);
      var shown := if list == [] then accounts else Filter(accounts, Listed(list));
      UsersByNameOutcome(names, true, accounts, bindings, key)
        == Sent(if names.None? then 400 else 200, Some(Map(Map(shown, ToUser(key)), WithBinding(bindings))))
  {
    var list := names.GetOr([]);
    UsernameSearchFinds(list, accounts);
    var shown := if list == [] then accounts else Filter(accounts, Listed(list));
    FilterMembers(accounts, Listed(list));
    forall i | 0 <= i < |shown| ensures QuoteFree(shown[i].id) {
      assert shown[i] in accounts;
    }
    FlagsAreJustified(shown, key, bindings);
    FlagsFollowHits(shown, key, SearchBindings(bindings, Print(OrgAdminQuery(Ids(Map(shown, ToUser(key)))))).value);
  }

  lemma BoundUsersDescribed(shown: seq<Account>, key: string, bindings: seq<RoleBinding>, k: nat)
    requires k < |shown|
    ensures Describes(Map(Map(shown, ToUser(key)), WithBinding(bindings))[k], shown[k], key, IsBound(bindings, shown[k].id))
  {
    AccountsDescribed(shown, key, k);
  }

  /** For quote-free names and ids: the body carries the listed accounts with the justified flags.
      Asked for nobody it carries every account, and so it does after the 400 to an unreadable body. */
  lemma UsersByNameShows(names: Option<seq<string>>, accounts: seq<Account>, bindings: seq<RoleBinding>, key: string)
    requires AllQuoteFree(names.GetOr([])) && CleanIds(accounts)
    ensures var list := names.GetOr([]);
      var shown := if list == [] then accounts else Filter(accounts, (a: Account) => a.username in list);
      var sent := UsersByNameOutcome(names, true, accounts, bindings, key);
      && sent.status == (if names.None? then 400 else 200)
      && sent.users.Some? && |sent.users.value| == |shown|
      && forall k :: 0 <= k < |shown| ==> Describes(sent.users.value[k], shown[k], key, IsBound(bindings, shown[k].id))
  {
    UsersByNameClean(names, accounts, bindings, key);
    hide UsersByNameOutcome, Describes, IsBound, ToUser, WithBinding;
    var list := names.GetOr([]);
    FilterAgrees(accounts, Listed(list), (a: Account) => a.username in list);
    var shown := if list == [] then accounts else Filter(accounts, Listed(list));
    forall k | 0 <= k < |shown|
      ensures Describes(Map(Map(shown, ToUser(key)), WithBinding(bindings))[k], shown[k], key, IsBound(bindings, shown[k].id))
    {
      BoundUsersDescribed(shown, key, bindings, k);
    }
  }

  /** When nothing is shown: the query does not read, or one of the two searches is rejected. The
      status is 400 whenever the body or the query does not read, and 500 when only a search fails. */
  lemma UsersByNameRefusals(names: Option<seq<string>>, queryReads: bool, accounts: seq<Account>,
                            bindings: seq<RoleBinding>, key: string)
    ensures AllConjs(UsernameQuery(names.GetOr([])))
    ensures var sent := UsersByNameOutcome(names, queryReads, accounts, bindings, key);
      var found := SearchAccounts(accounts, Print(UsernameQuery(names.GetOr([]))));
      && (sent.status == 400 <==> names.None? || !queryReads)
      && (sent.status == 500 <==> names.Some? && queryReads && sent.users.None?)
      && (sent.status == 200 <==> names.Some? && queryReads && sent.users.Some?)
      && (sent.users.Some? ==> queryReads && found.Some? && |sent.users.value| == |found.value|)
      && (!queryReads || found.None? ==> sent.users.None?)
  {
    UsernameQueryShape(names.GetOr([]));
  }

  // ----- what the answer contains -----

  function BoundAccount(bindings: seq<RoleBinding>): Account -> bool {
    (a: Account) => IsBound(bindings, a.id)
  }

  lemma {:induction false} AdminsOfMapped(found: seq<Account>, key: string, bindings: seq<RoleBinding>)
    ensures Filter(Map(Map(found, ToUser(key)), WithBinding(bindings)), IsAdmin)
      == Map(Filter(found, BoundAccount(bindings)), (a: Account) => WithBinding(bindings)(ToUser(key)(a)))
  {
    if found != [] {
      var n := |found| - 1;
      AdminsOfMapped(found[..n], key, bindings);
      var users := Map(Map(found, ToUser(key)), WithBinding(bindings));
      assert users[..n] == Map(Map(found[..n], ToUser(key)), WithBinding(bindings));
      assert users[n] == WithBinding(bindings)(ToUser(key)(found[n]));
    }
  }

  /** With the filter on, the answer lists exactly the users with a binding, in the order of the
      accounts and with the fields of the account carried over. */
  lemma AdminAnswer(found: seq<Account>, key: string, bindings: seq<RoleBinding>)
    ensures Answer(found, key, bindings, true)
      == Map(Filter(found, BoundAccount(bindings)),
             (a: Account) => ToV3(WithBinding(bindings)(ToUser(key)(a))))
    ensures var bound := Filter(found, (a: Account) => IsBound(bindings, a.id));
      var answer := Answer(found, key, bindings, true);
      |answer| == |bound| && forall k :: 0 <= k < |bound| ==> Shows(answer[k], bound[k], key, true)
  {
    AdminsOfMapped(found, key, bindings);
    FilterAgrees(found, BoundAccount(bindings), (a: Account) => IsBound(bindings, a.id));
    FilterMembers(found, BoundAccount(bindings));
    var bound := Filter(found, BoundAccount(bindings));
    forall k | 0 <= k < |bound| ensures Shows(Answer(found, key, bindings, true)[k], bound[k], key, true) {
      assert bound[k] in bound;
      AccountsDescribed(bound, key, k);
    }
  }
}
