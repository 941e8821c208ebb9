/** `findUsersBy`: one loop with filters, an early stop at the limit, a flag parsed inside the
    loop, and a sort of the page. */
module FindUsers {
  import opened Sequences
  import opened Models

  datatype Query = Query(
    accountNo: string, orgId: string, adminOnly: string, status: string, limit: int,
    sortOrder: string, queryBy: string,
    input: Option<UsersByBody>,   // None: the nil pointer
    users: Option<seq<string>>)   // None: no list; an empty list selects nobody

  /** `strconv.ParseBool` */
  function ParseBool(s: string): Option<bool> {
    if s in {"1", "t", "T", "TRUE", "true", "True"} then Some(true)
    else if s in {"0", "f", "F", "FALSE", "false", "False"} then Some(false)
    else None
  }

  // ----- the declarative form -----

  predicate FlagFails(q: Query) {
    q.adminOnly != "" && ParseBool(q.adminOnly) == None
  }

  predicate MatchesAdmin(q: Query, u: User) {
    q.adminOnly != "" && ParseBool(q.adminOnly) == Some(true) ==> u.isOrgAdmin
  }

  predicate MatchesStatus(q: Query, u: User) {
    (q.status == "disabled" ==> !u.isActive) && (q.status == "enabled" ==> u.isActive)
  }

  predicate MatchesBody(b: UsersByBody, u: User) {
    && (b.primaryEmail != "" ==> u.email == b.primaryEmail)
    && (b.emailStartsWith != "" ==> b.emailStartsWith <= u.email)
    && (b.principalStartsWith != "" ==> b.principalStartsWith <= u.username)
  }

  function Key(q: Query, u: User): string {
    if q.queryBy == "userId" then u.id else u.username
  }

  /** Two texts are equal under case folding when `fold` maps them to the same text. */
  predicate Named(names: seq<string>, key: string, fold: string -> string) {
    exists i :: 0 <= i < |names| && fold(names[i]) == fold(key)
  }

  predicate Matches(q: Query, fold: string -> string, u: User) {
    && MatchesAdmin(q, u)
    && MatchesStatus(q, u)
    && (q.accountNo != "" ==> u.accountNumber == q.accountNo)
    && (q.orgId != "" ==> u.orgId == q.orgId)
    && (q.input.Some? ==> MatchesBody(q.input.value, u))
    && (q.users.Some? ==> Named(q.users.value, Key(q, u), fold))
  }

  function Selected(q: Query, fold: string -> string): User -> bool {
    u => Matches(q, fold, u)
  }

  function Take<T>(s: seq<T>, limit: int): (r: seq<T>)
    ensures r <= s
    ensures |r| == if limit > 0 && limit < |s| then limit else |s|
  {
    if limit > 0 && limit < |s| then s[..limit] else s
  }

  /** The first `limit` selected users, in the order of the list. */
  function FirstMatches(q: Query, fold: string -> string, list: seq<User>): seq<User> {
    Take(Filter(list, Selected(q, fold)), q.limit)
  }

  /** What the parameters select, test by test. */
  lemma SelectedMeans(q: Query, fold: string -> string, u: User)
    ensures Selected(q, fold)(u) <==>
      && (q.adminOnly in {"1", "t", "T", "TRUE", "true", "True"} ==> u.isOrgAdmin)
      && (q.status == "disabled" ==> !u.isActive)
      && (q.status == "enabled" ==> u.isActive)
      && (q.accountNo == "" || u.accountNumber == q.accountNo)
      && (q.orgId == "" || u.orgId == q.orgId)
      && (q.input.None? || q.input.value.primaryEmail == "" || u.email == q.input.value.primaryEmail)
      && (q.input.None? || q.input.value.emailStartsWith <= u.email)
      && (q.input.None? || q.input.value.principalStartsWith <= u.username)
      && (q.users.Some? ==> var key := if q.queryBy == "userId" then u.id else u.username;
            exists i :: 0 <= i < |q.users.value| && fold(q.users.value[i]) == fold(key))
  {
  }

  /** The flag is refused exactly when it is neither empty nor one of the twelve texts. */
  lemma FlagFailsMeans(q: Query)
    ensures !FlagFails(q) <==>
      q.adminOnly in {"", "1", "t", "T", "TRUE", "true", "True", "0", "f", "F", "FALSE", "false", "False"}
  {
  }

  // ----- descending usernames -----

  /** `strings.Compare` */
  function Compare(a: string, b: string): int {
    if a == [] then (if b == [] then 0 else -1)
    else if b == [] then 1
    else if a[0] < b[0] then -1
    else if a[0] > b[0] then 1
    else Compare(a[1..], b[1..])
  }

  lemma {:induction false} CompareIsOrder(a: string, b: string)
    ensures Compare(a, b) == -Compare(b, a)
    ensures Compare(a, b) == 0 <==> a == b
    ensures -1 <= Compare(a, b) <= 1
  {
    if a != [] && b != [] {
      CompareIsOrder(a[1..], b[1..]);
      if a[0] == b[0] && a[1..] == b[1..] {
        assert a == [a[0]] + a[1..] && b == [b[0]] + b[1..];
      }
    }
  }

  lemma {:induction false} CompareTransitive(a: string, b: string, c: string)
    requires Compare(a, b) >= 0 && Compare(b, c) >= 0
    ensures Compare(a, c) >= 0
  {
    if a != [] && b != [] && c != [] {
      if a[0] == b[0] && b[0] == c[0] {
        CompareTransitive(a[1..], b[1..], c[1..]);
      }
    }
  }

  /** Of two different texts the greater one continues the other or has the greater character at
      the first place where they differ. */
  ghost predicate Greater(a: string, b: string) {
    (b <= a && b != a) || exists k :: 0 <= k < |a| && k < |b| && a[..k] == b[..k] && a[k] > b[k]
  }

  lemma GreaterTail(a: string, b: string)
    requires a != [] && b != [] && a[0] == b[0]
    ensures Greater(a, b) <==> Greater(a[1..], b[1..])
  {
    assert a == [a[0]] + a[1..] && b == [b[0]] + b[1..];
    if k :| 0 <= k < |a| && k < |b| && a[..k] == b[..k] && a[k] > b[k] {
      assert a[1..][..k - 1] == a[..k][1..] && b[1..][..k - 1] == b[..k][1..];
      assert a[1..][k - 1] > b[1..][k - 1];
    }
    if k :| 0 <= k < |a| - 1 && k < |b| - 1 && a[1..][..k] == b[1..][..k] && a[1..][k] > b[1..][k] {
      assert a[..k + 1] == [a[0]] + a[1..][..k] && b[..k + 1] == [b[0]] + b[1..][..k];
      assert a[k + 1] > b[k + 1];
    }
  }

  lemma {:induction false} CompareMeans(a: string, b: string)
    ensures Compare(a, b) > 0 <==> Greater(a, b)
  {
    if a != [] && b != [] {
      if a[0] == b[0] {
        GreaterTail(a, b);
        CompareMeans(a[1..], b[1..]);
      } else if a[0] > b[0] {
        assert a[..0] == b[..0];
      } else if k :| 0 <= k < |a| && k < |b| && a[..k] == b[..k] && a[k] > b[k] {
        assert k > 0 ==> a[..k][0] == b[..k][0];
      }
    }
  }

  predicate NotBefore(a: User, b: User) {
    Compare(a.username, b.username) >= 0
  }

  /** No username is followed by a greater one. */
  ghost predicate Descending(s: seq<User>) {
    forall i, j :: 0 <= i < j < |s| ==> !Greater(s[j].username, s[i].username)
  }

  lemma DescendingMeans(s: seq<User>)
    ensures Pairwise(s, NotBefore) <==> Descending(s)
  {
    forall i, j | 0 <= i < j < |s| ensures NotBefore(s[i], s[j]) <==> !Greater(s[j].username, s[i].username) {
      CompareMeans(s[j].username, s[i].username);
      CompareIsOrder(s[i].username, s[j].username);
    }
  }

  /** The first `i` users are in descending order and not before any of the others. */
  ghost predicate SortedUpto(s: seq<User>, i: nat) {
    forall j, k :: 0 <= j < i && j < k < |s| ==> NotBefore(s[j], s[k])
  }

  method Greatest(a: array<User>, i: nat) returns (top: nat)
    requires i < a.Length
    ensures i <= top < a.Length
    ensures forall k :: i <= k < a.Length ==> NotBefore(a[top], a[k])
  {
    top := i;
    CompareIsOrder(a[i].username, a[i].username);
    for j := i + 1 to a.Length
      invariant i <= top < j <= a.Length
      invariant forall k :: i <= k < j ==> NotBefore(a[top], a[k])
    {
      CompareIsOrder(a[j].username, a[top].username);
      if Compare(a[j].username, a[top].username) == 1 {
        forall k | i <= k < j ensures NotBefore(a[j], a[k]) {
          CompareTransitive(a[j].username, a[top].username, a[k].username);
        }
        CompareIsOrder(a[j].username, a[j].username);
        top := j;
      }
    }
  }

  lemma SwapKeepsSorted(was: seq<User>, now: seq<User>, i: nat, top: nat)
    requires i <= top < |was| && now == was[i := was[top]][top := was[i]]
    requires SortedUpto(was, i) && forall k :: i <= k < |was| ==> NotBefore(was[top], was[k])
    ensures SortedUpto(now, i + 1)
  {
    forall j, k | 0 <= j < i + 1 && j < k < |now| ensures NotBefore(now[j], now[k]) {
      var k' := if k == top then i else if k == i then top else k;
      assert now[k] == was[k'];
    }
  }

  lemma SwapPermutes(was: seq<User>, now: seq<User>, i: nat, top: nat)
    requires i < |was| && top < |was| && now == was[i := was[top]][top := was[i]]
    ensures multiset(now) == multiset(was)
  {
  }

  /** `sort.Slice` with the order "username greater": in place, and any arrangement of equal
      usernames. Selection sort stands for the library's algorithm. */
  method SortSlice(a: array<User>)
    modifies a
    ensures Pairwise(a[..], NotBefore)
    ensures multiset(a[..]) == old(multiset(a[..]))
  {
    for i := 0 to a.Length
      invariant SortedUpto(a[..], i)
      invariant multiset(a[..]) == old(multiset(a[..]))
    {
      var top := Greatest(a, i);
      ghost var was := a[..];
      a[i], a[top] := a[top], a[i];
      assert a[..] == was[i := was[top]][top := was[i]];
      SwapKeepsSorted(was, a[..], i, top);
      SwapPermutes(was, a[..], i, top);
    }
  }

  // ----- the code -----

  /** The tests of one iteration, up to `continue`; the flag has been parsed already. */
  method Keep(q: Query, fold: string -> string, isAdminOnly: bool, user: User) returns (keep: bool)
    requires isAdminOnly <==> q.adminOnly != "" && ParseBool(q.adminOnly) == Some(true)
    ensures keep <==> Matches(q, fold, user)
  {
    if isAdminOnly && !user.isOrgAdmin {
      return false;
    }
    if q.status == "disabled" {
      if user.isActive {
        return false;
      }
    } else if q.status == "enabled" {
      if !user.isActive {
        return false;
      }
    }
    if q.accountNo != "" && user.accountNumber != q.accountNo {
      return false;
    }
    if q.orgId != "" && user.orgId != q.orgId {
      return false;
    }
    if q.input.Some? {
      var input := q.input.value;
      if input.primaryEmail != "" && user.email != input.primaryEmail {
        return false;
      }
      if input.emailStartsWith != "" && !(input.emailStartsWith <= user.email) {
        return false;
      }
      if input.principalStartsWith != "" && !(input.principalStartsWith <= user.username) {
        return false;
      }
    }
    if q.users.Some? {
      var found := false;
      for i := 0 to |q.users.value|
        invariant found <==> exists k :: 0 <= k < i && fold(q.users.value[k]) == fold(Key(q, user))
      {
        if q.queryBy == "userId" {
          if fold(q.users.value[i]) == fold(user.id) {
            found := true;
          }
        } else {
          if fold(q.users.value[i]) == fold(user.username) {
            found := true;
          }
        }
      }
      if !found {
        return false;
      }
    }
    keep := true;
  }

  lemma Extend(list: seq<User>, i: nat, p: User -> bool)
    requires i < |list|
    ensures Filter(list[..i + 1], p) == Filter(list[..i], p) + (if p(list[i]) then [list[i]] else [])
  {
    assert list[..i + 1] == list[..i] + [list[i]];
    FilterSnoc(list[..i], list[i], p);
  }

  /** Stopping once the limit is reached loses nothing of the page. */
  lemma StoppedEarly(list: seq<User>, i: nat, p: User -> bool, limit: int)
    requires i <= |list|
    requires i < |list| ==> limit > 0 && |Filter(list[..i], p)| == limit
    requires limit > 0 ==> |Filter(list[..i], p)| <= limit
    ensures Filter(list[..i], p) == Take(Filter(list, p), limit)
  {
    assert list == list[..i] + list[i..];
    FilterConcat(list[..i], list[i..], p);
    if i == |list| {
      assert list[..i] == list;
    }
  }

  /** The loop over the users, with its early stop; None is the error return. */
  method CollectUsers(q: Query, fold: string -> string, usersList: seq<User>) returns (r: Option<seq<User>>)
    ensures r == if FlagFails(q) && usersList != [] then None else Some(FirstMatches(q, fold, usersList))
  {
    var p := Selected(q, fold);
    var out := [];
    var i := 0;
    assert usersList[..0] == [];
    while i < |usersList|
      invariant i <= |usersList| && out == Filter(usersList[..i], p)
      invariant q.limit > 0 ==> |out| < q.limit
      invariant i > 0 ==> !FlagFails(q)
    {
      var user := usersList[i];
      var isAdminOnly := false;
      if q.adminOnly != "" {
        var parsed := ParseBool(q.adminOnly);
        if parsed == None {
          return None;
        }
        isAdminOnly := parsed.value;
      }
      var keep := Keep(q, fold, isAdminOnly, user);
      Extend(usersList, i, p);
      i := i + 1;
      if keep {
        out := out + [user];
        if q.limit > 0 && |out| >= q.limit {
          break;
        }
      }
    }
    StoppedEarly(usersList, i, p, q.limit);
    r := Some(out);
  }

  /** On every input: an error exactly when the flag is not empty, does not parse and there is a
      user to look at; otherwise the first `limit` selected users, in the order of the list, or
      arranged by descending username for "des". */
  method FindUsersBy(q: Query, fold: string -> string, usersList: seq<User>) returns (r: Option<seq<User>>)
    ensures r == None <==> FlagFails(q) && usersList != []
    ensures r.Some? && q.sortOrder != "des" ==> r.value == FirstMatches(q, fold, usersList)
    ensures r.Some? && q.sortOrder == "des" ==>
      multiset(r.value) == multiset(FirstMatches(q, fold, usersList)) && Descending(r.value)
  {
    r := CollectUsers(q, fold, usersList);
    if r.Some? && q.sortOrder == "des" {
      var out := r.value;
      var a := new User[|out|](k requires 0 <= k < |out| => out[k]);
      assert a[..] == out;
      SortSlice(a);
      DescendingMeans(a[..]);
      r := Some(a[..]);
    }
  }

  // ----- when the answer is determined -----

  predicate After(a: User, b: User) {
    Compare(a.username, b.username) > 0
  }

  lemma CountsTwice<T>(s: seq<T>, i: nat, j: nat)
    requires i < j < |s| && s[i] == s[j]
    ensures multiset(s)[s[i]] >= 2
  {
    assert s == s[..j] + s[j..];
    assert s[i] in s[..j] && s[j] in s[j..];
  }

  lemma {:induction false} CountsOnce<T>(s: seq<T>, x: T)
    requires forall i, j :: 0 <= i < j < |s| ==> s[i] != s[j]
    ensures multiset(s)[x] <= 1
  {
    if s != [] {
      CountsOnce(s[1..], x);
      assert s == [s[0]] + s[1..];
      assert x == s[0] ==> x !in s[1..];
    }
  }

  lemma NoRepeats<T>(a: seq<T>, b: seq<T>)
    requires multiset(a) == multiset(b) && forall i, j :: 0 <= i < j < |a| ==> a[i] != a[j]
    ensures forall i, j :: 0 <= i < j < |b| ==> b[i] != b[j]
  {
    forall i, j | 0 <= i < j < |b| ensures b[i] != b[j] {
      if b[i] == b[j] {
        CountsTwice(b, i, j);
        CountsOnce(a, b[i]);
        assert false;
      }
    }
  }

  /** With distinct usernames on the page the sorted answer is determined: any other arrangement
      that meets the contract is the same. */
  lemma SortedAnswerIsDetermined(a: seq<User>, b: seq<User>)
    requires multiset(a) == multiset(b) && Descending(a) && Descending(b)
    requires forall i, j :: 0 <= i < j < |a| ==> a[i].username != a[j].username
    ensures a == b
  {
    DescendingMeans(a);
    DescendingMeans(b);
    NoRepeats(a, b);
    forall i, j | 0 <= i < j < |a| ensures After(a[i], a[j]) {
      CompareIsOrder(a[i].username, a[j].username);
      assert NotBefore(a[i], a[j]);
    }
    forall i, j | 0 <= i < j < |b| ensures After(b[i], b[j]) {
      CompareIsOrder(b[i].username, b[j].username);
      assert NotBefore(b[i], b[j]) && b[i] in multiset(a) && b[j] in multiset(a);
      var p :| 0 <= p < |a| && a[p] == b[i];
      var q :| 0 <= q < |a| && a[q] == b[j];
      assert a[p].username != a[q].username;
    }
    forall x, y | x in a && y in a && After(x, y) ensures !After(y, x) {
      CompareIsOrder(x.username, y.username);
    }
    ArrangementIsDetermined(a, b, After);
  }
}
