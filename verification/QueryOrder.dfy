/** `createV3QueryOrder` appends to a package variable, so what it returns depends on every
    call before. */
module QueryOrder {
  import opened AccountQueries

  function Suffix(sortOrder: string): string {
    if sortOrder == "" then "" else " " + sortOrder
  }

  /** The directions of all requests so far, one after the other. */
  function Suffixes(history: seq<string>): string {
    if history == [] then "" else Suffixes(history[..|history| - 1]) + Suffix(history[|history| - 1])
  }

  lemma LastSuffix(history: seq<string>, sortOrder: string)
    ensures Suffixes(history + [sortOrder]) == Suffixes(history) + Suffix(sortOrder)
    ensures ORGANIZATION_ID + Suffixes(history) + Suffix(sortOrder)
      == ORGANIZATION_ID + Suffixes(history + [sortOrder])
  {
    assert (history + [sortOrder])[..|history|] == history;
  }

  class Package {
    var order: string
    ghost var history: seq<string>

    ghost predicate Valid()
      reads this
    {
      order == ORGANIZATION_ID + Suffixes(history)
    }

    constructor ()
      ensures Valid() && history == [] && order == "organization.id"
    {
      order, history := ORGANIZATION_ID, [];
    }

    method CreateV3QueryOrder(sortOrder: string) returns (r: string)
      requires Valid()
      modifies this
      ensures Valid() && history == old(history) + [sortOrder]
      ensures r == ORGANIZATION_ID + Suffixes(history)
      ensures order == r == old(order) + (if sortOrder == "" then "" else " " + sortOrder)
    {
      if sortOrder != "" {
        order := order + (" " + sortOrder);
      }
      history := history + [sortOrder];
      LastSuffix(old(history), sortOrder);
      assert old(order) + "" == old(order);
      r := order;
    }
  }

  /** No text was appended exactly when no request carried a direction. */
  lemma {:induction false} NoSuffixIff(history: seq<string>)
    ensures |Suffixes(history)| == 0 <==> forall i :: 0 <= i < |history| ==> history[i] == ""
  {
    if history != [] {
      var front, last := history[..|history| - 1], history[|history| - 1];
      NoSuffixIff(front);
      assert |Suffixes(history)| == |Suffixes(front)| + |Suffix(last)|;
      assert forall i :: 0 <= i < |front| ==> history[i] == front[i];
    }
  }

  /** A call returns the intended order exactly when no call before it carried a direction. */
  lemma OrderIsIntendedIff(history: seq<string>, sortOrder: string)
    ensures ORGANIZATION_ID + Suffixes(history + [sortOrder])
        == "organization.id" + (if sortOrder == "" then "" else " " + sortOrder)
      <==> forall i :: 0 <= i < |history| ==> history[i] == ""
  {
    LastSuffix(history, sortOrder);
    NoSuffixIff(history);
    var text := ORGANIZATION_ID + Suffixes(history + [sortOrder]);
    assert |text| == |ORGANIZATION_ID| + |Suffixes(history)| + |Suffix(sortOrder)|;
    if |Suffixes(history)| == 0 {
      assert Suffixes(history) == "";
      assert Suffixes(history + [sortOrder]) == Suffix(sortOrder);
    }
  }
}
