/** What the printed searches select, and that the account service and the direct filter of
    findUsersBy select the same users. */
module QueryMeaning {
  import opened Sequences
  import opened Models
  import opened SearchText
  import opened FindUsers
  import opened AccountQueries

  // ----- LIKE with a trailing percent sign -----

  predicate WildcardFree(p: string) {
    forall i :: 0 <= i < |p| ==> p[i] != '%' && p[i] != '_'
  }

  lemma {:induction false} PercentMatchesAll(s: string)
    ensures LikeMatch(s, "%")
  {
    if s != [] {
      PercentMatchesAll(s[1..]);
    } else {
      assert LikeMatch([], "%"[1..]);
    }
  }

  lemma FirstOf(p: string)
    requires p != []
    ensures (p + "%")[0] == p[0] && (p + "%")[1..] == p[1..] + "%"
  {
  }

  lemma {:induction false} LikeIsPrefix(s: string, p: string)
    requires WildcardFree(p)
    ensures LikeMatch(s, p + "%") <==> p <= s
  {
    if p == [] {
      assert p + "%" == "%";
      PercentMatchesAll(s);
    } else if s != [] {
      FirstOf(p);
      LikeIsPrefix(s[1..], p[1..]);
      assert p <= s <==> p[0] == s[0] && p[1..] <= s[1..];
    }
  }

  lemma SkipOne(s: string, rest: string)
    requires s != [] && LikeMatch(s[1..], rest)
    ensures LikeMatch(s, ['%'] + rest)
  {
    var p := ['%'] + rest;
    assert p[0] == '%' && p[1..] == rest;
    assert LikeMatch(s[1..], p);
  }

  /** A text that starts with `p` matches it read as a pattern, whatever wildcards `p` contains. */
  lemma {:induction false} PrefixMatches(s: string, p: string)
    requires p <= s
    ensures LikeMatch(s, p + "%")
  {
    if p == [] {
      assert p + "%" == "%";
      PercentMatchesAll(s);
    } else {
      FirstOf(p);
      PrefixMatches(s[1..], p[1..]);
      if p[0] == '%' {
        SkipOne(s, p[1..] + "%");
        assert p + "%" == ['%'] + (p[1..] + "%");
      }
    }
  }

  /** A pattern with a wildcard at `i` matches a text that does not start with it: the text with
      the percent sign left out, or with another character for the underscore. */
  lemma {:induction false} WildcardWitness(p: string, i: nat) returns (s: string)
    requires i < |p| && (p[i] == '%' || p[i] == '_')
    ensures LikeMatch(s, p + "%") && !(p <= s)
    decreases i
  {
    FirstOf(p);
    if i > 0 {
      var t := WildcardWitness(p[1..], i - 1);
      s := [if p[0] == '%' || p[0] == '_' then 'a' else p[0]] + t;
      assert s[1..] == t;
      if p[0] == '%' {
        assert LikeMatch(t, p[1..] + "%");
        SkipOne(s, p[1..] + "%");
        assert p + "%" == ['%'] + (p[1..] + "%");
      }
    } else {
      PrefixMatches(p[1..], p[1..]);
      s := (if p[0] == '_' then "a" else "") + p[1..];
      if p[0] == '_' {
        assert s[1..] == p[1..];
        assert s[0] == 'a';
      } else {
        assert s == p[1..];
        assert |s| < |p|;
      }
    }
  }

  predicate LikeMeansPrefix(s: string, p: string) {
    LikeMatch(s, p + "%") <==> p <= s
  }

  /** The pattern that the client appends a percent sign to selects the texts with that prefix
      exactly when it contains no wildcard. */
  lemma LikeIsPrefixIff(p: string)
    ensures (forall s :: LikeMeansPrefix(s, p)) <==> WildcardFree(p)
  {
    if WildcardFree(p) {
      forall s ensures LikeMeansPrefix(s, p) {
        LikeIsPrefix(s, p);
      }
    } else {
      var i :| 0 <= i < |p| && (p[i] == '%' || p[i] == '_');
      var s := WildcardWitness(p, i);
      assert !LikeMeansPrefix(s, p);
    }
  }

  // ----- searching by usernames -----

  predicate AllQuoteFree(texts: seq<string>) {
    forall i :: 0 <= i < |texts| ==> QuoteFree(texts[i])
  }

  lemma UsernameQueryMeans(names: seq<string>, a: Account)
    ensures AllConjs(UsernameQuery(names))
    ensures Eval(DisjOf(UsernameQuery(names)), AccountField(a)) <==> names == [] || a.username in names
  {
    var d := UsernameQuery(names);
    UsernameQueryShape(names);
    EvalDisj(d, AccountField(a));
    forall i | 0 <= i < |names| ensures Eval(ConjOf(d[i]), AccountField(a)) <==> a.username == names[i] {
      assert d[i] == [Cmp("username", names[i])];
    }
    if a.username in names {
      var i :| 0 <= i < |names| && names[i] == a.username;
      assert Eval(ConjOf(d[i]), AccountField(a));
    }
  }

  /** For quote-free names, whatever else is in them, the search selects exactly the accounts whose
      username is in the list; without names its text is empty and it selects every account. */
  lemma UsernameSearchSelects(names: seq<string>, a: Account)
    requires AllQuoteFree(names)
    ensures AllConjs(UsernameQuery(names))
    ensures Parse(Print(UsernameQuery(names))) == Some(DisjOf(UsernameQuery(names)))
    ensures Eval(DisjOf(UsernameQuery(names)), AccountField(a)) <==> names == [] || a.username in names
  {
    UsernameQueryShape(names);
    ParsePrint(UsernameQuery(names));
    UsernameQueryMeans(names, a);
  }

  /** The text is read back as that list exactly when no name contains a quote. */
  lemma UsernameSearchReadBackIff(names: seq<string>)
    ensures AllConjs(UsernameQuery(names))
    ensures Parse(Print(UsernameQuery(names))) == Some(DisjOf(UsernameQuery(names))) <==> AllQuoteFree(names)
  {
    UsernameQueryShape(names);
    ParsePrintIff(UsernameQuery(names));
  }

  function Listed(names: seq<string>): Account -> bool {
    (a: Account) => a.username in names
  }

  lemma UsernameSearchFinds(names: seq<string>, all: seq<Account>)
    requires AllQuoteFree(names)
    ensures AllConjs(UsernameQuery(names))
    ensures SearchAccounts(all, Print(UsernameQuery(names))) == Some(if names == [] then all else Filter(all, Listed(names)))
  {
    UsernameQueryShape(names);
    ParsePrint(UsernameQuery(names));
    var p := SelectedAccount(DisjOf(UsernameQuery(names)));
    forall k | 0 <= k < |all| ensures p(all[k]) <==> names == [] || Listed(names)(all[k]) {
      UsernameQueryMeans(names, all[k]);
    }
    if names == [] {
      FilterKeepsAll(all, p);
    } else {
      FilterAgrees(all, p, Listed(names));
    }
  }

  /** The search finds the listed accounts, and those only, exactly unless it is asked for nobody
      while there are accounts: then it finds them all. */
  lemma UsernameSearchFindsListedIff(names: seq<string>, all: seq<Account>)
    requires AllQuoteFree(names)
    ensures AllConjs(UsernameQuery(names))
    ensures SearchAccounts(all, Print(UsernameQuery(names))) == Some(Filter(all, Listed(names)))
      <==> names != [] || all == []
  {
    UsernameSearchFinds(names, all);
    if names == [] {
      FilterKeepsNone(all, Listed(names));
    }
  }

  // ----- searching for organization admins -----

  lemma OrgAdminMeans(id: string, b: RoleBinding)
    ensures Eval(ConjOf([Cmp("account.id", id), Cmp("role.id", ORGANIZATION_ADMIN)]), BindingField(b))
      <==> b.accountId == id && b.roleId == "OrganizationAdmin"
  {
    var conj := [Cmp("account.id", id), Cmp("role.id", ORGANIZATION_ADMIN)];
    EvalConj(conj, BindingField(b));
    assert Eval(conj[0], BindingField(b)) <==> b.accountId == id;
    assert Eval(conj[1], BindingField(b)) <==> b.roleId == "OrganizationAdmin";
  }

  /** For quote-free ids the search selects exactly the bindings of the admin role to an account of
      the list, as `and` binds tighter than `or`; without ids it selects every binding. */
  lemma OrgAdminSearchSelects(ids: seq<string>, b: RoleBinding)
    requires AllQuoteFree(ids)
    ensures AllConjs(OrgAdminQuery(ids))
    ensures Parse(Print(OrgAdminQuery(ids))) == Some(DisjOf(OrgAdminQuery(ids)))
    ensures Eval(DisjOf(OrgAdminQuery(ids)), BindingField(b))
      <==> ids == [] || (b.accountId in ids && b.roleId == "OrganizationAdmin")
  {
    var d := OrgAdminQuery(ids);
    OrgAdminQueryShape(ids);
    ParsePrint(d);
    EvalDisj(d, BindingField(b));
    forall i | 0 <= i < |ids|
      ensures Eval(ConjOf(d[i]), BindingField(b)) <==> b.accountId == ids[i] && b.roleId == "OrganizationAdmin"
    {
      OrgAdminMeans(ids[i], b);
    }
    if b.accountId in ids && b.roleId == "OrganizationAdmin" {
      var i :| 0 <= i < |ids| && ids[i] == b.accountId;
      assert Eval(ConjOf(d[i]), BindingField(b));
    }
  }

  /** Without accounts the text is empty, and every binding of any role is selected. */
  lemma EmptySearchSelectsAll(all: seq<RoleBinding>)
    ensures AllConjs(OrgAdminQuery([]))
    ensures Print(OrgAdminQuery([])) == ""
    ensures SearchBindings(all, Print(OrgAdminQuery([]))) == Some(all)
  {
    OrgAdminQueryShape([]);
    assert Lex("") == Some([]);
    FilterKeepsAll(all, SelectedBinding(Everything));
  }

  // ----- searching by the request body -----

  predicate CleanBody(orgId: string, body: UsersByBody) {
    QuoteFree(orgId) && QuoteFree(body.primaryEmail)
    && QuoteFree(body.emailStartsWith) && QuoteFree(body.principalStartsWith)
  }

  lemma {:induction false} EvalWith(conj: seq<Expr>, wanted: bool, e: Expr, fields: string -> string)
    requires conj != []
    ensures Eval(ConjOf(With(conj, wanted, e)), fields) <==> Eval(ConjOf(conj), fields) && (wanted ==> Eval(e, fields))
  {
    EvalConj(conj, fields);
    EvalConj(With(conj, wanted, e), fields);
    if wanted {
      assert forall i :: 0 <= i < |conj| ==> (conj + [e])[i] == conj[i];
      assert (conj + [e])[|conj|] == e;
    }
  }

  lemma WithClean(conj: seq<Expr>, wanted: bool, e: Expr)
    requires AllPrintable(conj) && Printable(e) && CleanConj(conj) && QuoteFree(Target(e))
    ensures AllPrintable(With(conj, wanted, e)) && CleanConj(With(conj, wanted, e))
  {
  }

  lemma BodyQueryClean(orgId: string, body: UsersByBody)
    requires CleanBody(orgId, body)
    ensures AllConjs([BodyQuery(orgId, body)]) && Clean([BodyQuery(orgId, body)])
  {
    WordFields();
    var c0 := [Cmp(ORGANIZATION_ID, orgId)];
    assert AllPrintable(c0) && CleanConj(c0);
    var c1 := With(c0, body.emailStartsWith != "", EmailStart(body));
    WithClean(c0, body.emailStartsWith != "", EmailStart(body));
    var c2 := With(c1, body.primaryEmail != "", EmailIs(body));
    WithClean(c1, body.primaryEmail != "", EmailIs(body));
    WithClean(c2, body.principalStartsWith != "", PrincipalStart(body));
  }

  lemma BodyMeans(orgId: string, body: UsersByBody, a: Account)
    ensures Eval(ConjOf(BodyQuery(orgId, body)), AccountField(a)) <==>
      && a.orgId == orgId
      && (body.emailStartsWith != "" ==> LikeMatch(a.email, body.emailStartsWith + "%"))
      && (body.primaryEmail != "" ==> a.email == body.primaryEmail)
      && (body.principalStartsWith != "" ==> LikeMatch(a.username, body.principalStartsWith + "%"))
  {
    var c0 := [Cmp(ORGANIZATION_ID, orgId)];
    var c1 := With(c0, body.emailStartsWith != "", EmailStart(body));
    var c2 := With(c1, body.primaryEmail != "", EmailIs(body));
    EvalWith(c0, body.emailStartsWith != "", EmailStart(body), AccountField(a));
    EvalWith(c1, body.primaryEmail != "", EmailIs(body), AccountField(a));
    EvalWith(c2, body.principalStartsWith != "", PrincipalStart(body), AccountField(a));
  }

  /** The search is read back as intended, and selects the accounts of the organization that pass
      the wanted tests. */
  lemma BodySearchSelects(orgId: string, body: UsersByBody, a: Account)
    requires CleanBody(orgId, body)
    ensures AllConjs([BodyQuery(orgId, body)])
    ensures Parse(Print([BodyQuery(orgId, body)])) == Some(ConjOf(BodyQuery(orgId, body)))
    ensures Eval(ConjOf(BodyQuery(orgId, body)), AccountField(a)) <==>
      && a.orgId == orgId
      && (body.emailStartsWith != "" ==> LikeMatch(a.email, body.emailStartsWith + "%"))
      && (body.primaryEmail != "" ==> a.email == body.primaryEmail)
      && (body.principalStartsWith != "" ==> LikeMatch(a.username, body.principalStartsWith + "%"))
  {
    BodyQueryClean(orgId, body);
    ParsePrint([BodyQuery(orgId, body)]);
    BodyMeans(orgId, body, a);
  }

  // ----- the two backends -----

  /** The query that the direct filter gets for the same request. */
  function DirectQuery(orgId: string, body: UsersByBody): Query {
    Query("", orgId, "", "", 0, "", "", Some(body), None)
  }

  /** The same person in both backends. */
  predicate SamePerson(a: Account, u: User) {
    a.username == u.username && a.email == u.email && a.orgId == u.orgId
  }

  /** The wanted address does not match the wanted start: both backends select nobody. */
  predicate Impossible(body: UsersByBody) {
    body.primaryEmail != "" && !LikeMatch(body.primaryEmail, body.emailStartsWith + "%")
  }

  /** The texts of a request for which both backends mean the same. */
  predicate AgreeableBody(orgId: string, body: UsersByBody) {
    Impossible(body) ||
    (orgId != "" && WildcardFree(body.principalStartsWith) &&
     if body.primaryEmail == "" then WildcardFree(body.emailStartsWith) else body.emailStartsWith <= body.primaryEmail)
  }

  /** Both backends decide alike about one person. */
  predicate AgreeOn(orgId: string, body: UsersByBody, a: Account, u: User, fold: string -> string) {
    Eval(ConjOf(BodyQuery(orgId, body)), AccountField(a)) <==> Matches(DirectQuery(orgId, body), fold, u)
  }

  lemma AgreeableAgrees(orgId: string, body: UsersByBody, a: Account, u: User, fold: string -> string)
    requires AgreeableBody(orgId, body) && SamePerson(a, u)
    ensures AgreeOn(orgId, body, a, u, fold)
  {
    BodyMeans(orgId, body, a);
    var start := body.emailStartsWith;
    if body.primaryEmail != "" && start <= body.primaryEmail {
      PrefixMatches(body.primaryEmail, start);
    }
    if Impossible(body) {
      PercentMatchesAll(body.primaryEmail);
      assert start == "" ==> start + "%" == "%";
    } else {
      LikeIsPrefix(a.username, body.principalStartsWith);
      if body.primaryEmail == "" {
        LikeIsPrefix(a.email, start);
      }
    }
  }

  function Person(username: string, email: string, orgId: string): (Account, User) {
    (Account("", username, email, "", "", "", orgId, "", "", []),
     User(username, "", email, "", "", "", "", true, false, false, "", orgId, "", "", ""))
  }

  lemma WildcardText(p: string) returns (s: string)
    requires !WildcardFree(p)
    ensures LikeMatch(s, p + "%") && !(p <= s)
  {
    var i :| 0 <= i < |p| && (p[i] == '%' || p[i] == '_');
    s := WildcardWitness(p, i);
  }

  /** Somebody about whom the backends part. */
  lemma PartingPerson(orgId: string, body: UsersByBody, fold: string -> string) returns (a: Account, u: User)
    requires !AgreeableBody(orgId, body)
    ensures SamePerson(a, u) && !AgreeOn(orgId, body, a, u, fold)
  {
    var start := body.emailStartsWith;
    var email := if body.primaryEmail != "" then body.primaryEmail else start;
    var username, org := body.principalStartsWith, orgId;
    PrefixMatches(start, start);
    PrefixMatches(username, username);
    if start <= email {
      if orgId == "" {
        org := "x";
      } else if body.primaryEmail == "" && !WildcardFree(start) {
        email := WildcardText(start);
      } else {
        username := WildcardText(username);
      }
    }
    var (account, user) := Person(username, email, org);
    a, u := account, user;
    BodyMeans(orgId, body, a);
  }

  /** Whatever the organization and the wanted tests: the backends agree on everybody exactly when
      no address can pass, or the organization is not empty, the wanted start of the username has no
      wildcard, and the wanted address starts with the wanted start of an address, which must have no
      wildcard when no address is wanted. */
  lemma BackendsAgreeIff(orgId: string, body: UsersByBody, fold: string -> string)
    ensures (forall a, u :: SamePerson(a, u) ==> AgreeOn(orgId, body, a, u, fold)) <==> AgreeableBody(orgId, body)
  {
    if AgreeableBody(orgId, body) {
      forall a, u | SamePerson(a, u) ensures AgreeOn(orgId, body, a, u, fold) {
        AgreeableAgrees(orgId, body, a, u, fold);
      }
    } else {
      var a, u := PartingPerson(orgId, body, fold);
    }
  }

  // ----- whole lists -----

  /** The same people in both backends, in the same order. */
  ghost predicate SamePeople(accounts: seq<Account>, users: seq<User>) {
    |accounts| == |users| && forall i :: 0 <= i < |users| ==> SamePerson(accounts[i], users[i])
  }

  /** Two lists that agree position by position are filtered alike. */
  lemma {:induction false} FilterAlike(accounts: seq<Account>, users: seq<User>, p: Account -> bool, q: User -> bool)
    requires SamePeople(accounts, users)
    requires forall i :: 0 <= i < |users| ==> (p(accounts[i]) <==> q(users[i]))
    ensures SamePeople(Filter(accounts, p), Filter(users, q))
  {
    if users != [] {
      FilterAlike(accounts[..|users| - 1], users[..|users| - 1], p, q);
    }
  }

  /** The account search succeeds and selects the people that the direct filter selects, in the
      same order. */
  ghost predicate SelectAlike(search: string, q: Query, accounts: seq<Account>, users: seq<User>, fold: string -> string) {
    var found := SearchAccounts(accounts, search);
    found.Some? && SamePeople(found.value, FirstMatches(q, fold, users))
  }

  ghost predicate AlwaysAlike(search: string, q: Query, fold: string -> string) {
    forall accounts, users :: SamePeople(accounts, users) ==> SelectAlike(search, q, accounts, users, fold)
  }

  ghost predicate AgreeOnEverybody(e: Expr, q: Query, fold: string -> string) {
    forall a, u :: SamePerson(a, u) ==> (Eval(e, AccountField(a)) <==> Matches(q, fold, u))
  }

  lemma OnePersonParts(search: string, q: Query, a: Account, u: User, fold: string -> string)
    requires Parse(search).Some? && q.limit == 0
    requires !(Eval(Parse(search).value, AccountField(a)) <==> Matches(q, fold, u))
    ensures !SelectAlike(search, q, [a], [u], fold)
  {
    FilterSnoc([], a, SelectedAccount(Parse(search).value));
    FilterSnoc([], u, Selected(q, fold));
    assert [] + [a] == [a] && [] + [u] == [u];
  }

  /** A search without a limit selects alike from every list exactly when its text is read at all
      and decides alike about everybody. */
  lemma AlwaysAlikeIff(search: string, q: Query, fold: string -> string)
    requires q.limit == 0
    ensures AlwaysAlike(search, q, fold) <==> Parse(search).Some? && AgreeOnEverybody(Parse(search).value, q, fold)
  {
    if Parse(search) == None {
      assert SamePeople([], []) && !SelectAlike(search, q, [], [], fold);
    } else if AgreeOnEverybody(Parse(search).value, q, fold) {
      forall accounts, users | SamePeople(accounts, users) ensures SelectAlike(search, q, accounts, users, fold) {
        FilterAlike(accounts, users, SelectedAccount(Parse(search).value), Selected(q, fold));
      }
    } else {
      var a, u :| SamePerson(a, u) && !(Eval(Parse(search).value, AccountField(a)) <==> Matches(q, fold, u));
      OnePersonParts(search, q, a, u, fold);
      assert SamePeople([a], [u]);
    }
  }

  // ----- lists of usernames -----

  /** The query that the direct filter gets for a list of usernames. */
  function ListQuery(names: seq<string>): Query {
    Query("", "", "", "", 0, "", "", None, Some(names))
  }

  /** Somebody is listed, and nobody is taken for another by case folding. */
  ghost predicate LiteralNames(names: seq<string>, fold: string -> string) {
    names != [] && forall key :: Named(names, key, fold) ==> key in names
  }

  lemma ListedIsNamed(names: seq<string>, key: string, fold: string -> string)
    requires key in names
    ensures Named(names, key, fold)
  {
    var i :| 0 <= i < |names| && names[i] == key;
    assert fold(names[i]) == fold(key);
  }

  lemma ListTestsAgreeIff(names: seq<string>, fold: string -> string)
    ensures AllConjs(UsernameQuery(names))
    ensures AgreeOnEverybody(DisjOf(UsernameQuery(names)), ListQuery(names), fold) <==> LiteralNames(names, fold)
  {
    UsernameQueryShape(names);
    var e, q := DisjOf(UsernameQuery(names)), ListQuery(names);
    forall a, u | SamePerson(a, u)
      ensures Eval(e, AccountField(a)) <==> names == [] || u.username in names
      ensures Matches(q, fold, u) <==> Named(names, u.username, fold)
    {
      UsernameQueryMeans(names, a);
    }
    if LiteralNames(names, fold) {
      forall a, u | SamePerson(a, u) ensures Eval(e, AccountField(a)) <==> Matches(q, fold, u) {
        if u.username in names {
          ListedIsNamed(names, u.username, fold);
        }
      }
    } else {
      var key := "";
      if names != [] {
        key :| Named(names, key, fold) && key !in names;
      }
      var (a, u) := Person(key, "", "");
      assert SamePerson(a, u) && !(Eval(e, AccountField(a)) <==> Matches(q, fold, u));
    }
  }

  /** For quote-free names: the account search and the direct filter select the same people from
      every list exactly when somebody is listed and no other name folds to a listed one. */
  lemma SameListSelectionIff(names: seq<string>, fold: string -> string)
    requires AllQuoteFree(names)
    ensures AllConjs(UsernameQuery(names))
    ensures AlwaysAlike(Print(UsernameQuery(names)), ListQuery(names), fold) <==> LiteralNames(names, fold)
  {
    UsernameSearchReadBackIff(names);
    ListTestsAgreeIff(names, fold);
    AlwaysAlikeIff(Print(UsernameQuery(names)), ListQuery(names), fold);
  }

  // ----- request bodies -----

  /** Every quote replaced by a letter. */
  function Blurred(s: string): (r: string)
    ensures |r| == |s|
    ensures r == s <==> QuoteFree(s)
  {
    var r := Map(s, (c: char) => if c == '\'' then 'a' else c);
    assert !QuoteFree(s) ==> exists i :: 0 <= i < |s| && s[i] == '\'' && r[i] != s[i];
    r
  }

  lemma BlurredTail(s: string)
    requires s != []
    ensures Blurred(s)[1..] == Blurred(s[1..])
  {
  }

  /** A pattern without quotes cannot tell a quote from a letter. */
  lemma {:induction false} LikeBlurred(s: string, p: string)
    requires QuoteFree(p) && LikeMatch(s, p)
    ensures LikeMatch(Blurred(s), p)
    decreases |s| + |p|
  {
    if s != [] {
      BlurredTail(s);
    }
    if p != [] {
      if p[0] == '%' {
        if LikeMatch(s, p[1..]) {
          LikeBlurred(s, p[1..]);
        } else {
          LikeBlurred(s[1..], p);
        }
      } else {
        LikeBlurred(s[1..], p[1..]);
      }
    }
  }

  /** Nor can an expression that was read from a text: its literals contain no quote. */
  lemma {:induction false} EvalBlurred(e: Expr, fields: string -> string, blurred: string -> string)
    requires CleanExpr(e) && Eval(e, fields) && forall f :: blurred(f) == Blurred(fields(f))
    ensures Eval(e, blurred)
  {
    match e
    case Like(f, p) => LikeBlurred(fields(f), p);
    case And(l, r) =>
      EvalBlurred(l, fields, blurred);
      EvalBlurred(r, fields, blurred);
    case Or(l, r) =>
      if Eval(l, fields) {
        EvalBlurred(l, fields, blurred);
      } else {
        EvalBlurred(r, fields, blurred);
      }
    case _ =>
  }

  /** The direct filter can select somebody: the wanted address starts as wanted. */
  predicate Possible(body: UsersByBody) {
    body.primaryEmail == "" || body.emailStartsWith <= body.primaryEmail
  }

  /** No expression read from a text stands for a body with quotes, whatever the quotes turn the
      printed text into. */
  lemma NoReadingWithQuotes(orgId: string, body: UsersByBody, e: Expr, fold: string -> string)
    requires CleanExpr(e) && AgreeOnEverybody(e, DirectQuery(orgId, body), fold) && Possible(body)
    ensures CleanBody(orgId, body)
  {
    var email := if body.primaryEmail != "" then body.primaryEmail else body.emailStartsWith;
    var username := body.principalStartsWith;
    var (a, u) := Person(username, email, orgId);
    assert SamePerson(a, u) && Matches(DirectQuery(orgId, body), fold, u);
    var (a', u') := Person(Blurred(username), Blurred(email), Blurred(orgId));
    assert Blurred("") == "";
    EvalBlurred(e, AccountField(a), AccountField(a'));
    assert SamePerson(a', u') && Matches(DirectQuery(orgId, body), fold, u');
    assert username <= Blurred(username);
    assert username == Blurred(username);
    if body.primaryEmail == "" {
      assert email <= Blurred(email);
      assert email == Blurred(email);
    }
  }

  lemma NobodyIsWanted(orgId: string, body: UsersByBody, e: Expr, fold: string -> string)
    requires !Possible(body)
    ensures AgreeOnEverybody(e, DirectQuery(orgId, body), fold) <==> forall a :: !Eval(e, AccountField(a))
  {
    if a :| Eval(e, AccountField(a)) {
      var u := Person(a.username, a.email, a.orgId).1;
      assert SamePerson(a, u) && !Matches(DirectQuery(orgId, body), fold, u);
    }
  }

  /** The account search and findUsersBy select the same people in the same order from every list
      exactly when the texts contain no quote and mean the same to both; when the body contradicts
      itself, exactly when the printed text is read and selects nobody either. */
  lemma SameSelectionIff(orgId: string, body: UsersByBody, fold: string -> string)
    ensures AllConjs([BodyQuery(orgId, body)])
    ensures var search := Print([BodyQuery(orgId, body)]);
      var alike := AlwaysAlike(search, DirectQuery(orgId, body), fold);
      && (Possible(body) ==> (alike <==> CleanBody(orgId, body) && AgreeableBody(orgId, body)))
      && (!Possible(body) ==> (alike <==> Parse(search).Some? && forall a :: !Eval(Parse(search).value, AccountField(a))))
      && (CleanBody(orgId, body) ==> (alike <==> AgreeableBody(orgId, body)))
  {
    BodyQueryShape(orgId, body);
    var search, q := Print([BodyQuery(orgId, body)]), DirectQuery(orgId, body);
    AlwaysAlikeIff(search, q, fold);
    if CleanBody(orgId, body) {
      BodyQueryClean(orgId, body);
      ParsePrint([BodyQuery(orgId, body)]);
      BackendsAgreeIff(orgId, body, fold);
      assert AgreeOnEverybody(ConjOf(BodyQuery(orgId, body)), q, fold) <==> AgreeableBody(orgId, body);
    }
    if Parse(search).Some? {
      if !Possible(body) {
        NobodyIsWanted(orgId, body, Parse(search).value, fold);
      } else if AgreeOnEverybody(Parse(search).value, q, fold) {
        ParsedIsClean(search);
        NoReadingWithQuotes(orgId, body, Parse(search).value, fold);
      }
    }
  }

  /** Under the condition on the texts, the account search and findUsersBy select the same people in
      the same order. */
  lemma SameSelection(orgId: string, body: UsersByBody, accounts: seq<Account>, users: seq<User>, fold: string -> string)
    requires CleanBody(orgId, body) && AgreeableBody(orgId, body) && SamePeople(accounts, users)
    ensures AllConjs([BodyQuery(orgId, body)])
    ensures SelectAlike(Print([BodyQuery(orgId, body)]), DirectQuery(orgId, body), accounts, users, fold)
  {
    SameSelectionIff(orgId, body, fold);
  }
}
