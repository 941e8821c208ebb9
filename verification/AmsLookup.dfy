/** The mailer's lookup through the account service: the names to look up become a search
    text, and the accounts it selects fill the table. */
module AmsLookup {
  import opened Sequences
  import opened SearchText
  import opened AccountQueries
  import opened QueryMeaning
  import opened Mailer

  function Entries(found: seq<Account>): (r: seq<Entry>)
    ensures |r| == |found|
  {
    Map(found, (a: Account) => Entry(a.username, a.email))
  }

  /** Some account carries the name, with this address. */
  ghost predicate Carries(accounts: seq<Account>, name: string, address: string) {
    exists a :: a in accounts && a.username == name && a.email == address
  }

  ghost predicate Known(accounts: seq<Account>, name: string) {
    exists a :: a in accounts && a.username == name
  }

  lemma OneMore(front: seq<Account>, last: Account, name: string, address: string)
    ensures Known(front + [last], name) <==> Known(front, name) || last.username == name
    ensures Carries(front, name, address) ==> Carries(front + [last], name, address)
    ensures last.username == name ==> Carries(front + [last], name, last.email)
  {
    var all := front + [last];
    assert last in all;
    forall a | a in front ensures a in all {
    }
  }

  lemma OverlayOneMore(keys: set<string>, front: seq<Account>, last: Account)
    ensures Overlay(Blank(keys), Entries(front + [last]))
      == Overlay(Blank(keys), Entries(front))[last.username := last.email]
  {
    assert Entries(front + [last])[..|front|] == Entries(front);
  }

  /** The table after the found accounts: an account with the name decides its address, and
      without one the table keeps what it had. */
  lemma {:induction false} AddressOrigin(keys: set<string>, found: seq<Account>, name: string)
    requires name in keys
    ensures var table := Overlay(Blank(keys), Entries(found));
      name in table && if Known(found, name) then Carries(found, name, table[name]) else table[name] == ""
  {
    if found != [] {
      var front, last := found[..|found| - 1], found[|found| - 1];
      AddressOrigin(keys, front, name);
      OverlayOneMore(keys, front, last);
      OneMore(front, last, name, Overlay(Blank(keys), Entries(front))[name]);
      assert found == front + [last];
    }
  }

  /** The search selects exactly the accounts that carry one of the names. */
  lemma HitsCarryNames(names: seq<string>, all: seq<Account>)
    requires names != [] && forall i :: 0 <= i < |names| ==> QuoteFree(names[i])
    ensures AllConjs(UsernameQuery(names))
    ensures var hits := SearchAccounts(all, Print(UsernameQuery(names)));
      hits.Some? && forall a :: a in hits.value <==> a in all && a.username in names
  {
    var e := DisjOf(UsernameQuery(names));
    UsernameSearchSelects(names, Account("", "", "", "", "", "", "", "", "", []));
    FilterMembers(all, SelectedAccount(e));
    forall a: Account ensures SelectedAccount(e)(a) <==> a.username in names {
      UsernameSearchSelects(names, a);
    }
  }

  lemma {:induction false} NoNewKeys(keys: set<string>, found: seq<Account>)
    requires forall a :: a in found ==> a.username in keys
    ensures Overlay(Blank(keys), Entries(found)).Keys == keys
  {
    if found != [] {
      NoNewKeys(keys, found[..|found| - 1]);
      assert Entries(found)[..|found| - 1] == Entries(found[..|found| - 1]);
      assert found[|found| - 1] in found;
    }
  }

  /** For quote-free names, listed in any order: the table holds exactly the names looked up; a
      name that some account carries gets the address of such an account, and any other name gets
      the empty address. */
  lemma LookupThroughAccounts(keys: set<string>, names: seq<string>, all: seq<Account>, name: string)
    requires (forall n :: n in names <==> n in keys) && forall i :: 0 <= i < |names| ==> QuoteFree(names[i])
    requires name in keys
    ensures AllConjs(UsernameQuery(names))
    ensures var hits := SearchAccounts(all, Print(UsernameQuery(names)));
      && hits.Some?
      && var table := Overlay(Blank(keys), Entries(hits.value));
      && table.Keys == keys
      && if Known(all, name) then Carries(all, name, table[name]) else table[name] == ""
  {
    assert name in names;
    HitsCarryNames(names, all);
    var hits := SearchAccounts(all, Print(UsernameQuery(names))).value;
    AddressOrigin(keys, hits, name);
    NoNewKeys(keys, hits);
    if a :| a in all && a.username == name {
      assert a in hits;
    }
  }

  // ----- the recipients of an email -----

  /** The account service as the mailer asks it: the keys, listed in any order, become one search. */
  ghost function Directory(all: seq<Account>, order: set<string> -> seq<string>): set<string> -> Option<seq<Entry>> {
    (keys: set<string>) =>
      UsernameQueryShape(order(keys));
      match SearchAccounts(all, Print(UsernameQuery(order(keys))))
      case None => None
      case Some(hits) => Some(Entries(hits))
  }

  ghost predicate Enumerates(order: set<string> -> seq<string>) {
    forall keys :: forall n :: n in order(keys) <==> n in keys
  }

  /** What should stand for a name: the address of an account that carries it, or the empty text
      when there is none. */
  ghost function ResolvedIn(all: seq<Account>): (string, string) -> bool {
    (name: string, address: string) => if Known(all, name) then Carries(all, name, address) else address == ""
  }

  /** The table holds the names of the email, each with what should stand for it. */
  ghost predicate Resolves(all: seq<Account>, table: map<string, string>) {
    forall name :: name in table ==> '@' !in name && ResolvedIn(all)(name, table[name])
  }

  lemma TableOfAccounts(keys: set<string>, all: seq<Account>, order: set<string> -> seq<string>)
    returns (table: map<string, string>)
    requires Enumerates(order) && keys != {} && forall name :: name in keys ==> QuoteFree(name) && '@' !in name
    ensures Resolve(keys, "ams", Directory(all, order)) == Some(table)
    ensures table.Keys == keys && Resolves(all, table)
  {
    var names := order(keys);
    assert forall n :: n in names <==> n in keys;
    var some :| some in keys;
    LookupThroughAccounts(keys, names, all, some);
    table := Overlay(Blank(keys), Entries(SearchAccounts(all, Print(UsernameQuery(names))).value));
    forall name | name in table ensures '@' !in name && ResolvedIn(all)(name, table[name]) {
      LookupThroughAccounts(keys, names, all, name);
    }
  }

  lemma NothingToResolve(l: Lists, right: (string, string) -> bool)
    requires LookupKeys(l) == {}
    ensures AllDelivered(l, l, name => '@' !in name, right)
  {
    forall name | name in l.recipients || name in l.cc || name in l.bcc ensures '@' in name {
      assert name !in LookupKeys(l);
    }
  }

  /** For quote-free names, whatever the service's order: the lookup succeeds, and in each of the
      three lists the names are resolved, the addresses stay, and the list is cut behind its last
      name. */
  lemma RecipientsResolved(l: Lists, all: seq<Account>, order: set<string> -> seq<string>)
    requires Enumerates(order) && forall name :: name in LookupKeys(l) ==> QuoteFree(name)
    ensures var out := Lookup(l, "ams", Directory(all, order));
      !out.failed && AllDelivered(l, out.lists, name => '@' !in name, ResolvedIn(all))
  {
    hide AllDelivered, Enumerates, Directory, Resolve, RewriteEach, QuoteFree;
    var keys := LookupKeys(l);
    if keys == {} {
      NothingToResolve(l, ResolvedIn(all));
    } else {
      var table := TableOfAccounts(keys, all, order);
      ListsDelivered(l, table, name => '@' !in name, ResolvedIn(all));
    }
  }
}
