/** The search texts that the account client writes, and what they select. */
module AccountQueries {
  import opened Sequences
  import opened Models
  import opened SearchText

  /** An account of the service; the labels are left out but for the one the model reads. */
  datatype Account = Account(
    id: string, username: string, email: string, firstName: string, lastName: string, href: string,
    orgId: string, orgName: string, kind: string, labels: seq<(string, string)>)

  datatype RoleBinding = RoleBinding(accountId: string, roleId: string)

  const ORGANIZATION_ID := "organization.id"
  const ORGANIZATION_ADMIN := "OrganizationAdmin"

  // ----- the service: a search over an arbitrary collection -----

  function AccountField(a: Account): string -> string {
    f =>
      if f == "username" then a.username
      else if f == "email" then a.email
      else if f == "organization.id" then a.orgId
      else if f == "id" then a.id
      else ""
  }

  function BindingField(b: RoleBinding): string -> string {
    f => if f == "account.id" then b.accountId else if f == "role.id" then b.roleId else ""
  }

  function SelectedAccount(e: Expr): Account -> bool {
    a => Eval(e, AccountField(a))
  }

  function SelectedBinding(e: Expr): RoleBinding -> bool {
    b => Eval(e, BindingField(b))
  }

  /** None when the text is not a search. */
  function SearchAccounts(all: seq<Account>, search: string): Option<seq<Account>> {
    match Parse(search)
    case None => None
    case Some(e) => Some(Filter(all, SelectedAccount(e)))
  }

  function SearchBindings(all: seq<RoleBinding>, search: string): Option<seq<RoleBinding>> {
    match Parse(search)
    case None => None
    case Some(e) => Some(Filter(all, SelectedBinding(e)))
  }

  // ----- the queries the texts stand for -----

  function UsernameQuery(names: seq<string>): (d: seq<seq<Expr>>)
    ensures |d| == |names|
  {
    Map(names, name => [Cmp("username", name)])
  }

  function OrgAdminQuery(ids: seq<string>): (d: seq<seq<Expr>>)
    ensures |d| == |ids|
  {
    Map(ids, id => [Cmp("account.id", id), Cmp("role.id", ORGANIZATION_ADMIN)])
  }

  function With(conj: seq<Expr>, wanted: bool, e: Expr): (r: seq<Expr>)
    ensures conj != [] ==> r != []
  {
    if wanted then conj + [e] else conj
  }

  function EmailStart(body: UsersByBody): Expr { Like("email", body.emailStartsWith + "%") }

  function EmailIs(body: UsersByBody): Expr { Cmp("email", body.primaryEmail) }

  function PrincipalStart(body: UsersByBody): Expr { Like("username", body.principalStartsWith + "%") }

  /** The organization, and the optional tests of the request body in the order they are written. */
  function BodyQuery(orgId: string, body: UsersByBody): (conj: seq<Expr>)
    ensures conj != []
  {
    With(With(With([Cmp(ORGANIZATION_ID, orgId)],
                   body.emailStartsWith != "", EmailStart(body)),
              body.primaryEmail != "", EmailIs(body)),
         body.principalStartsWith != "", PrincipalStart(body))
  }

  lemma WordFields()
    ensures IsField("username") && IsField("email") && IsField("account.id") && IsField("role.id")
    ensures IsField(ORGANIZATION_ID)
  {
  }

  lemma UsernameQueryShape(names: seq<string>)
    ensures AllConjs(UsernameQuery(names))
    ensures (forall i :: 0 <= i < |names| ==> QuoteFree(names[i])) <==> Clean(UsernameQuery(names))
  {
    WordFields();
    var d := UsernameQuery(names);
    assert AllConjs(d);
    forall i | 0 <= i < |names| ensures QuoteFree(names[i]) <==> CleanConj(d[i]) {
      assert d[i] == [Cmp("username", names[i])];
      assert Target(d[i][0]) == names[i];
    }
    if forall i :: 0 <= i < |names| ==> QuoteFree(names[i]) {
      assert Clean(d);
    }
    if Clean(d) {
      forall i | 0 <= i < |names| ensures QuoteFree(names[i]) {
        assert CleanConj(d[i]);
      }
    }
  }

  lemma OrgAdminQueryShape(ids: seq<string>)
    ensures AllConjs(OrgAdminQuery(ids))
    ensures (forall i :: 0 <= i < |ids| ==> QuoteFree(ids[i])) <==> Clean(OrgAdminQuery(ids))
  {
    WordFields();
    var d := OrgAdminQuery(ids);
    assert AllConjs(d);
    forall i | 0 <= i < |ids| ensures QuoteFree(ids[i]) <==> CleanConj(d[i]) {
      assert d[i] == [Cmp("account.id", ids[i]), Cmp("role.id", ORGANIZATION_ADMIN)];
      assert Target(d[i][0]) == ids[i] && Target(d[i][1]) == ORGANIZATION_ADMIN;
    }
    if Clean(d) {
      forall i | 0 <= i < |ids| ensures QuoteFree(ids[i]) {
        assert CleanConj(d[i]);
      }
    }
  }

  lemma BodyQueryShape(orgId: string, body: UsersByBody)
    ensures AllConjs([BodyQuery(orgId, body)])
  {
    WordFields();
  }

  // ----- the printers -----

  lemma SingleAtomText(e: Expr)
    requires Printable(e)
    ensures ConjText([e]) == AtomText(e)
  {
  }

  method CreateSearchString(names: seq<string>) returns (search: string)
    ensures AllConjs(UsernameQuery(names))
    ensures search == Print(UsernameQuery(names))
  {
    UsernameQueryShape(names);
    ghost var texts := ConjTexts(UsernameQuery(names));
    search := "";
    for i := 0 to |names|
      invariant search == Join(texts[..i], " or ")
    {
      if i > 0 {
        search := search + " or ";
      }
      search := search + ("username='" + names[i] + "'");
      assert texts[i] == "username='" + names[i] + "'" by {
        SingleAtomText(Cmp("username", names[i]));
        assert "username" + "='" == "username='";
      }
      assert texts[..i + 1] == texts[..i] + [texts[i]];
      JoinSnoc(texts[..i], texts[i], " or ");
    }
    assert texts[..|names|] == texts;
  }

  lemma AccountIdLiteral()
    ensures "account.id" + "='" == "account.id='"
  {
  }

  lemma RoleLiteral()
    ensures "role.id" + "='" + ORGANIZATION_ADMIN + "'" == "role.id='OrganizationAdmin'"
  {
  }

  lemma ConnectiveLiteral()
    ensures "' and " + "role.id='OrganizationAdmin'" == "' and role.id='OrganizationAdmin'"
  {
  }

  lemma GlueTests(first: string, second: string)
    ensures (first + "'") + " and " + second == first + ("' and " + second)
  {
    RegroupThree(first, "'", " and ");
    assert "'" + " and " == "' and ";
    RegroupThree(first, "' and ", second);
  }

  lemma TwoAtomsText(a: Expr, b: Expr)
    requires Printable(a) && Printable(b)
    ensures AllPrintable([a, b])
    ensures ConjText([a, b]) == AtomText(a) + " and " + AtomText(b)
  {
    assert AtomTexts([a, b]) == [AtomText(a)] + [AtomText(b)];
    JoinSnoc([AtomText(a)], AtomText(b), " and ");
  }

  lemma OrgAdminText(id: string)
    requires Printable(Cmp("account.id", id)) && Printable(Cmp("role.id", ORGANIZATION_ADMIN))
    ensures AllPrintable([Cmp("account.id", id), Cmp("role.id", ORGANIZATION_ADMIN)])
    ensures ConjText([Cmp("account.id", id), Cmp("role.id", ORGANIZATION_ADMIN)])
      == "account.id='" + id + "' and role.id='OrganizationAdmin'"
  {
    var a, r := Cmp("account.id", id), Cmp("role.id", ORGANIZATION_ADMIN);
    TwoAtomsText(a, r);
    assert AtomText(a) == ("account.id='" + id) + "'" by { AccountIdLiteral(); }
    assert AtomText(r) == "role.id='OrganizationAdmin'" by { RoleLiteral(); }
    GlueTests("account.id='" + id, "role.id='OrganizationAdmin'");
    ConnectiveLiteral();
  }

  method CreateOrgAdminSearchString(ids: seq<string>) returns (search: string)
    ensures AllConjs(OrgAdminQuery(ids))
    ensures search == Print(OrgAdminQuery(ids))
  {
    OrgAdminQueryShape(ids);
    ghost var texts := ConjTexts(OrgAdminQuery(ids));
    search := "";
    for i := 0 to |ids|
      invariant search == Join(texts[..i], " or ")
    {
      if i > 0 {
        search := search + " or ";
      }
      search := search + ("account.id='" + ids[i] + "' and role.id='OrganizationAdmin'");
      WordFields();
      OrgAdminText(ids[i]);
      assert texts[..i + 1] == texts[..i] + [texts[i]];
      JoinSnoc(texts[..i], texts[i], " or ");
    }
    assert texts[..|ids|] == texts;
  }

  /** `organization.id='...'` */
  method CreateAccountsV3UsersSearchString(orgId: string) returns (search: string)
    ensures AllConjs([[Cmp(ORGANIZATION_ID, orgId)]])
    ensures search == Print([[Cmp(ORGANIZATION_ID, orgId)]])
  {
    WordFields();
    search := ORGANIZATION_ID + "='" + orgId + "'";
    SingleAtomText(Cmp(ORGANIZATION_ID, orgId));
  }

  lemma AppendedAtomText(conj: seq<Expr>, e: Expr)
    requires AllPrintable(conj) && Printable(e)
    ensures AllPrintable(conj + [e])
    ensures ConjText(conj + [e]) == ConjText(conj) + " and " + AtomText(e)
  {
    assert AtomTexts(conj + [e]) == AtomTexts(conj) + [AtomText(e)];
    JoinSnoc(AtomTexts(conj), AtomText(e), " and ");
  }

  lemma LikeText(field: string, start: string)
    ensures " and " + AtomText(Like(field, start + "%")) == (" and " + field + " like '") + start + "%'"
  {
    var head := field + " like '";
    RegroupThree(head, start, "%");
    RegroupThree(head + start, "%", "'");
    assert "%" + "'" == "%'";
    RegroupThree(" and ", field, " like '");
    RegroupThree(" and ", head, start);
    RegroupThree(" and ", head + start, "%'");
  }

  lemma EmailStartText(start: string)
    ensures " and " + AtomText(Like("email", start + "%")) == " and email like '" + start + "%'"
  {
    LikeText("email", start);
    assert " and " + "email" + " like '" == " and email like '";
  }

  lemma PrincipalStartText(start: string)
    ensures " and " + AtomText(Like("username", start + "%")) == " and username like '" + start + "%'"
  {
    LikeText("username", start);
    assert " and " + "username" + " like '" == " and username like '";
  }

  lemma EmailText(value: string)
    ensures " and " + AtomText(Cmp("email", value)) == " and email='" + value + "'"
  {
    RegroupThree(" and ", "email" + "='", value);
    RegroupThree(" and ", "email" + "='" + value, "'");
    assert " and " + ("email" + "='") == " and email='";
  }

  /** Appending the text of a wanted test to the text of a conjunction. */
  lemma WithText(conj: seq<Expr>, wanted: bool, e: Expr)
    requires AllPrintable(conj) && Printable(e)
    ensures AllPrintable(With(conj, wanted, e))
    ensures ConjText(With(conj, wanted, e)) == if wanted then ConjText(conj) + (" and " + AtomText(e)) else ConjText(conj)
  {
    if wanted {
      AppendedAtomText(conj, e);
      RegroupThree(ConjText(conj), " and ", AtomText(e));
    }
  }

  /** The tests are appended one by one. */
  method CreateAccountsV3UsersBySearchString(orgId: string, body: UsersByBody) returns (search: string)
    ensures AllConjs([BodyQuery(orgId, body)])
    ensures search == Print([BodyQuery(orgId, body)])
  {
    WordFields();
    search := CreateAccountsV3UsersSearchString(orgId);
    ghost var conj := [Cmp(ORGANIZATION_ID, orgId)];
    EmailStartText(body.emailStartsWith);
    WithText(conj, body.emailStartsWith != "", EmailStart(body));
    if body.emailStartsWith != "" {
      search := search + (" and email like '" + body.emailStartsWith + "%'");
    }
    conj := With(conj, body.emailStartsWith != "", EmailStart(body));
    EmailText(body.primaryEmail);
    WithText(conj, body.primaryEmail != "", EmailIs(body));
    if body.primaryEmail != "" {
      search := search + (" and email='" + body.primaryEmail + "'");
    }
    conj := With(conj, body.primaryEmail != "", EmailIs(body));
    PrincipalStartText(body.principalStartsWith);
    WithText(conj, body.principalStartsWith != "", PrincipalStart(body));
    if body.principalStartsWith != "" {
      search := search + (" and username like '" + body.principalStartsWith + "%'");
    }
    conj := With(conj, body.principalStartsWith != "", PrincipalStart(body));
    assert search == ConjText(conj) && ConjTexts([conj]) == [ConjText(conj)];
  }
}
