/**
 * client/src/pages/Home.tsx: the page state (the names, the generated groups
 * and whether groups have been generated) and the handlers that change it.
 * Each handler is one sequential state change; the toasts it shows are not
 * modelled. Where a handler regenerates the groups, `rolls` are the draws of
 * that shuffle.
 */
module HomePage {
  import opened Utils

  /** `s` without any occurrence of `x` (`filter((name) => name !== x)`). */
  function Without(s: seq<string>, x: string): (r: seq<string>)
    ensures x !in r
    ensures forall y :: y != x ==> multiset(r)[y] == multiset(s)[y]
  {
    if s == [] then []
    else
      var rest := Without(s[1..], x);
      assert s == [s[0]] + s[1..];
      if s[0] == x then rest else [s[0]] + rest
  }

  /** Removing a name works piece by piece, so the names kept stay in their order. */
  lemma {:induction false} WithoutAppend(a: seq<string>, b: seq<string>, x: string)
    ensures Without(a + b, x) == Without(a, x) + Without(b, x)
  {
    if a != [] {
      assert (a + b)[1..] == a[1..] + b;
      WithoutAppend(a[1..], b, x);
    } else {
      assert a + b == b;
    }
  }

  /** The batch elements not already in `names`, in batch order; repeats inside the batch are kept. */
  function NotIn(batch: seq<string>, names: seq<string>): seq<string>
  {
    if batch == [] then []
    else
      var rest := NotIn(batch[..|batch| - 1], names);
      var last := batch[|batch| - 1];
      if last in names then rest else rest + [last]
  }

  /**
   * A name already listed is never added; any other name is added as many
   * times as the batch holds it.
   */
  lemma {:induction false} NotInCounts(batch: seq<string>, names: seq<string>)
    ensures forall y :: multiset(NotIn(batch, names))[y] == if y in names then 0 else multiset(batch)[y]
  {
    if batch != [] {
      var init, last := batch[..|batch| - 1], batch[|batch| - 1];
      NotInCounts(init, names);
      assert batch == init + [last];
    }
  }

  lemma NotInSnoc(batch: seq<string>, x: string, names: seq<string>)
    ensures NotIn(batch + [x], names) == if x in names then NotIn(batch, names) else NotIn(batch, names) + [x]
  {
    assert (batch + [x])[..|batch + [x]| - 1] == batch;
  }

  /** A batch that repeats a new name adds it twice. */
  lemma NotInKeepsRepeats(name: string, names: seq<string>)
    requires name !in names
    ensures NotIn([name, name], names) == [name, name]
  {
    assert [name, name][..1] == [name];
    assert [name][..0] == [];
    assert NotIn([name], names) == [name];
  }

  /** `generatePairs(names)` on the page's names. */
  method PairUp(names: seq<string>, rolls: seq<nat>) returns (pairs: seq<seq<string>>)
    requires RollsFit(rolls, |names|)
    ensures pairs == Pairs(Shuffled(names, rolls))
  {
    var items := new string[|names|](k requires 0 <= k < |names| => names[k]);
    assert items[..] == names;
    pairs := GeneratePairs(items, rolls);
  }

  class Home {
    var names: seq<string>
    var pairs: seq<seq<string>>
    var pairsGenerated: bool

    /** Groups exist only once generated, and never for an empty list. */
    ghost predicate Valid()
      reads this
    {
      (pairsGenerated ==> names != []) && (!pairsGenerated ==> pairs == [])
    }

    constructor ()
      ensures Valid()
      ensures names == [] && pairs == [] && !pairsGenerated
    {
      names, pairs, pairsGenerated := [], [], false;
    }

    /** addName: refuses a name already in the list; otherwise appends it. The groups are left as they are. */
    method AddName(name: string) returns (added: bool)
      requires Valid()
      modifies this
      ensures Valid()
      ensures added <==> name !in old(names)
      ensures names == if added then old(names) + [name] else old(names)
      ensures pairs == old(pairs) && pairsGenerated == old(pairsGenerated)
    {
      if name in names {
        return false;
      }
      names := names + [name];
      return true;
    }

    /**
     * removeName: drops every occurrence of the name. If groups had been
     * generated they are regenerated from the remaining names, or cleared
     * (and the flag reset) when no name remains.
     */
    method RemoveName(nameToRemove: string, rolls: seq<nat>)
      requires Valid()
      requires RollsFit(rolls, |Without(names, nameToRemove)|)
      modifies this
      ensures Valid()
      ensures names == Without(old(names), nameToRemove)
      ensures old(pairsGenerated) && names != [] ==> pairsGenerated && pairs == Pairs(Shuffled(names, rolls))
      ensures old(pairsGenerated) && names == [] ==> !pairsGenerated && pairs == []
      ensures !old(pairsGenerated) ==> !pairsGenerated && pairs == old(pairs)
    {
      var newNames := Without(names, nameToRemove);
      names := newNames;
      if pairsGenerated {
        if |newNames| > 0 {
          pairs := PairUp(newNames, rolls);
        } else {
          pairs := [];
          pairsGenerated := false;
        }
      }
    }

    /** clearNames: no names, no groups. */
    method ClearNames()
      requires Valid()
      modifies this
      ensures Valid()
      ensures names == [] && pairs == [] && !pairsGenerated
    {
      names, pairs, pairsGenerated := [], [], false;
    }

    /** handleGeneratePairs: does nothing on an empty list; otherwise generates the groups. */
    method HandleGeneratePairs(rolls: seq<nat>)
      requires Valid()
      requires RollsFit(rolls, |names|)
      modifies this
      ensures Valid()
      ensures names == old(names)
      ensures old(names) == [] ==> pairs == old(pairs) && pairsGenerated == old(pairsGenerated)
      ensures old(names) != [] ==> pairsGenerated && pairs == Pairs(Shuffled(names, rolls))
    {
      if |names| == 0 {
        return;
      }
      pairs := PairUp(names, rolls);
      pairsGenerated := true;
    }

    /**
     * handleBulkAdd: appends the batch elements that are not already in the
     * list, in batch order, counting them. If any were added and groups had
     * been generated, the groups are regenerated from the longer list.
     */
    method HandleBulkAdd(bulkNames: seq<string>, rolls: seq<nat>) returns (addedCount: nat)
      requires Valid()
      requires RollsFit(rolls, |names| + |NotIn(bulkNames, names)|)
      modifies this
      ensures Valid()
      ensures addedCount == |NotIn(bulkNames, old(names))|
      ensures names == old(names) + NotIn(bulkNames, old(names))
      ensures pairsGenerated == old(pairsGenerated)
      ensures old(pairsGenerated) && addedCount > 0 ==> pairs == Pairs(Shuffled(names, rolls))
      ensures !(old(pairsGenerated) && addedCount > 0) ==> pairs == old(pairs)
    {
      if |bulkNames| == 0 {
        return 0;
      }
      addedCount := 0;
      var uniqueNames: seq<string> := [];
      var i := 0;
      while i < |bulkNames|
        invariant 0 <= i <= |bulkNames|
        invariant names == old(names) && pairs == old(pairs) && pairsGenerated == old(pairsGenerated)
        invariant uniqueNames == NotIn(bulkNames[..i], names)
        invariant addedCount == |uniqueNames|
      {
        assert bulkNames[..i + 1] == bulkNames[..i] + [bulkNames[i]];
        NotInSnoc(bulkNames[..i], bulkNames[i], names);
        if bulkNames[i] !in names {
          addedCount := addedCount + 1;
          uniqueNames := uniqueNames + [bulkNames[i]];
        }
        i := i + 1;
      }
      assert bulkNames[..i] == bulkNames;
      if addedCount > 0 {
        var newNames := names + uniqueNames;
        names := newNames;
        if pairsGenerated {
          pairs := PairUp(newNames, rolls);
        }
      }
    }
  }
}
