/** Users as the services exchange them. */
module Models {
  import opened Sequences

  datatype User = User(
    username: string, id: string, email: string, firstName: string, lastName: string,
    accountNumber: string, addressString: string,
    isActive: bool, isOrgAdmin: bool, isInternal: bool,
    locale: string, orgId: string, displayName: string, entitlements: string, userType: string)

  datatype UserV3Response = UserV3Response(
    id: string, username: string, email: string, firstName: string, lastName: string,
    isActive: bool, isOrgAdmin: bool, isInternal: bool, locale: string)

  datatype UsersByBody = UsersByBody(primaryEmail: string, emailStartsWith: string, principalStartsWith: string)

  function IsAdmin(u: User): bool { u.isOrgAdmin }

  class Users {
    var userCount: nat
    var users: seq<User>

    constructor ()
      ensures users == [] && userCount == 0
    {
      users, userCount := [], 0;
    }

    method AddUser(user: User)
      modifies this`users
      ensures users == old(users) + [user]
    {
      users := users + [user];
    }

    /** The count is left as it was. */
    method RemoveNonOrgAdmins()
      modifies this`users
      ensures users == Filter(old(users), IsAdmin)
      ensures users == Filter(old(users), (u: User) => u.isOrgAdmin)
    {
      var filtered := [];
      for i := 0 to |users|
        invariant users == old(users) && filtered == Filter(users[..i], IsAdmin)
      {
        assert users[..i + 1] == users[..i] + [users[i]];
        FilterSnoc(users[..i], users[i], IsAdmin);
        if users[i].isOrgAdmin {
          filtered := filtered + [users[i]];
        }
      }
      assert users[..|users|] == users;
      FilterAgrees(users, IsAdmin, (u: User) => u.isOrgAdmin);
      users := filtered;
    }
  }

  class UserV3Responses {
    var responses: seq<UserV3Response>

    constructor ()
      ensures responses == []
    {
      responses := [];
    }

    method AddV3Response(response: UserV3Response)
      modifies this
      ensures responses == old(responses) + [response]
    {
      responses := responses + [response];
    }
  }
}
