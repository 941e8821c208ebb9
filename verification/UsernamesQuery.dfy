/** The keycloak client's list of usernames, joined by commas. */
module UsernamesQuery {
  import opened Sequences

  /** The list without its leading empty names. */
  function DropEmpty(names: seq<string>): (r: seq<string>)
    ensures |r| <= |names|
    ensures r != [] ==> r[0] != ""
  {
    if names == [] || names[0] != "" then names else DropEmpty(names[1..])
  }

  lemma {:induction false} DropEmptySnoc(names: seq<string>, x: string)
    ensures DropEmpty(names + [x]) == if DropEmpty(names) == [] && x == "" then [] else DropEmpty(names) + [x]
  {
    if names != [] && names[0] == "" {
      DropEmptySnoc(names[1..], x);
      assert (names + [x])[1..] == names[1..] + [x];
    } else if names == [] {
      assert (names + [x])[1..] == [];
    }
  }

  lemma {:induction false} JoinFirstNonEmpty(names: seq<string>)
    requires names != [] && names[0] != ""
    ensures Join(names, ",") != ""
  {
    if |names| > 1 {
      JoinFirstNonEmpty(names[..|names| - 1]);
    }
  }

  lemma JoinEmptyIff(names: seq<string>)
    ensures Join(DropEmpty(names), ",") == "" <==> DropEmpty(names) == []
  {
    if DropEmpty(names) != [] {
      JoinFirstNonEmpty(DropEmpty(names));
    }
  }

  /** A name is written without a comma as long as nothing has been written. */
  method CreateUsernamesQuery(usernames: seq<string>) returns (usernameQuery: string)
    ensures usernameQuery == Join(DropEmpty(usernames), ",")
  {
    usernameQuery := "";
    for i := 0 to |usernames|
      invariant usernameQuery == Join(DropEmpty(usernames[..i]), ",")
    {
      var username := usernames[i];
      assert usernames[..i + 1] == usernames[..i] + [username];
      DropEmptySnoc(usernames[..i], username);
      JoinEmptyIff(usernames[..i]);
      JoinSnoc(DropEmpty(usernames[..i]), username, ",");
      if usernameQuery == "" {
        usernameQuery := usernameQuery + username;
      } else {
        usernameQuery := usernameQuery + ("," + username);
        RegroupThree(Join(DropEmpty(usernames[..i]), ","), ",", username);
      }
    }
    assert usernames[..|usernames|] == usernames;
  }

  // ----- reading the list back -----

  /** Splitting at every comma. */
  function Split(text: string): (parts: seq<string>)
    ensures parts != []
  {
    if text == "" then [""]
    else
      var parts := Split(text[1..]);
      if text[0] == ',' then [""] + parts else [[text[0]] + parts[0]] + parts[1..]
  }

  predicate CommaFree(names: seq<string>) {
    forall i :: 0 <= i < |names| ==> ',' !in names[i]
  }

  lemma {:induction false} PartsAreCommaFree(text: string)
    ensures CommaFree(Split(text))
  {
    if text != "" {
      PartsAreCommaFree(text[1..]);
    }
  }

  lemma {:induction false} SplitOne(name: string)
    requires ',' !in name
    ensures Split(name) == [name]
  {
    if name != "" {
      SplitOne(name[1..]);
      assert [name[0]] + name[1..] == name;
    }
  }

  lemma {:induction false} SplitAtComma(name: string, rest: string)
    requires ',' !in name
    ensures Split(name + "," + rest) == [name] + Split(rest)
  {
    var text := name + "," + rest;
    if name == "" {
      assert text == "," + rest && text[1..] == rest;
    } else {
      SplitAtComma(name[1..], rest);
      assert text[1..] == name[1..] + "," + rest;
      assert [name[0]] + name[1..] == name;
    }
  }

  lemma {:induction false} SplitJoin(names: seq<string>)
    requires names != [] && CommaFree(names)
    ensures Split(Join(names, ",")) == names
  {
    if |names| == 1 {
      SplitOne(names[0]);
    } else {
      JoinFront(names, ",");
      SplitJoin(names[1..]);
      SplitAtComma(names[0], Join(names[1..], ","));
    }
  }

  lemma {:induction false} DropEmptyCommaFree(names: seq<string>)
    requires CommaFree(names)
    ensures CommaFree(DropEmpty(names))
    ensures names != [] && names[0] == "" ==> |DropEmpty(names)| < |names|
  {
    if names != [] && names[0] == "" {
      DropEmptyCommaFree(names[1..]);
    }
  }

  /** The service reads the list back exactly when it is not empty, no name contains a comma, and
      the first name is not empty, unless the list is the single empty name. */
  lemma ReadBackIff(names: seq<string>)
    ensures Split(Join(DropEmpty(names), ",")) == names
      <==> names != [] && CommaFree(names) && (names[0] != "" || |names| == 1)
  {
    var text := Join(DropEmpty(names), ",");
    PartsAreCommaFree(text);
    if names != [] && CommaFree(names) {
      DropEmptyCommaFree(names);
      if DropEmpty(names) == [] {
        assert Split(text) == [""];
      } else {
        SplitJoin(DropEmpty(names));
      }
      if names[0] == "" && |names| == 1 {
        assert DropEmpty(names[1..]) == [];
      }
    }
  }
}
