/**
 * github-pages-build.js, lines 40-89: the person-list service the static
 * build writes out as client/src/lib/localStorage.ts. It keeps a list of
 * persons in browser storage and checks for an existing person by name
 * only. Here the stored list is the field `stored`; every write to storage
 * is counted in `saves`, so the contracts can say when a write happens.
 */
module PagesStore {
  import opened Text
  import opened ClientSchema

  /** `persons.some(p => p.name === name)`. */
  predicate HasName(persons: seq<Person>, name: string) {
    exists k :: 0 <= k < |persons| && persons[k].name == name
  }

  /** No two persons share a name. */
  ghost predicate DistinctNames(persons: seq<Person>) {
    forall i, j :: 0 <= i < j < |persons| ==> persons[i].name != persons[j].name
  }

  lemma SnocKeepsDistinct(persons: seq<Person>, person: Person)
    requires DistinctNames(persons) && !HasName(persons, person.name)
    ensures DistinctNames(persons + [person])
  {
    forall i, j | 0 <= i < j < |persons| + 1
      ensures (persons + [person])[i].name != (persons + [person])[j].name
    {
      if j == |persons| {
        assert persons[i].name != person.name;
      }
    }
  }

  /** `persons.filter(p => p.name !== name)`. */
  function WithoutName(persons: seq<Person>, name: string): (r: seq<Person>)
    ensures |r| <= |persons|
    ensures forall p :: p in r <==> p in persons && p.name != name
    ensures forall p :: multiset(r)[p] == if p.name != name then multiset(persons)[p] else 0
    ensures !HasName(r, name)
  {
    if persons == [] then []
    else
      var rest := WithoutName(persons[1..], name);
      assert persons == [persons[0]] + persons[1..];
      assert forall p :: p in persons <==> p == persons[0] || p in persons[1..];
      if persons[0].name != name then [persons[0]] + rest else rest
  }

  /** The filter works person by person: filtering a concatenation filters each part. */
  lemma {:induction false} WithoutNameAppend(a: seq<Person>, b: seq<Person>, name: string)
    ensures WithoutName(a + b, name) == WithoutName(a, name) + WithoutName(b, name)
  {
    if a == [] {
      AppendEmpty(b);
    } else {
      TailAppend(a, b);
      WithoutNameAppend(a[1..], b, name);
      var head := if a[0].name != name then [a[0]] else [];
      AppendAssoc(head, WithoutName(a[1..], name), WithoutName(b, name));
    }
  }

  /** Dropping persons keeps the remaining names distinct. */
  lemma {:induction false} WithoutNameKeepsDistinct(persons: seq<Person>, name: string)
    requires DistinctNames(persons)
    ensures DistinctNames(WithoutName(persons, name))
  {
    if persons != [] {
      var rest := WithoutName(persons[1..], name);
      WithoutNameKeepsDistinct(persons[1..], name);
      if persons[0].name != name {
        forall k | 0 <= k < |rest| ensures rest[k].name != persons[0].name {
          assert rest[k] in persons[1..];
          var j :| 0 <= j < |persons[1..]| && persons[1..][j] == rest[k];
          assert persons[j + 1] == rest[k];
        }
      }
    }
  }

  lemma HasNameCons(persons: seq<Person>, name: string)
    requires persons != []
    ensures HasName(persons, name) <==> persons[0].name == name || HasName(persons[1..], name)
  {
    if HasName(persons[1..], name) {
      var k :| 0 <= k < |persons[1..]| && persons[1..][k].name == name;
      assert persons[k + 1].name == name;
    }
    if HasName(persons, name) && persons[0].name != name {
      var k :| 0 <= k < |persons| && persons[k].name == name;
      assert persons[1..][k - 1].name == name;
    }
  }

  /** Filtering by name shortens the list exactly when that name is present. */
  lemma {:induction false} WithoutNameShorter(persons: seq<Person>, name: string)
    ensures |WithoutName(persons, name)| < |persons| <==> HasName(persons, name)
    ensures !HasName(persons, name) ==> WithoutName(persons, name) == persons
  {
    if persons != [] {
      WithoutNameShorter(persons[1..], name);
      HasNameCons(persons, name);
      assert [persons[0]] + persons[1..] == persons;
    }
  }

  /**
   * The list after `addPersons`: each person of the batch, in batch order,
   * is appended unless a person with that name is present at that moment.
   */
  function AddAll(persons: seq<Person>, batch: seq<Person>): (r: seq<Person>)
    ensures |persons| <= |r| <= |persons| + |batch|
    ensures r[..|persons|] == persons
  {
    if batch == [] then persons
    else
      var acc := AddAll(persons, batch[..|batch| - 1]);
      var person := batch[|batch| - 1];
      if HasName(acc, person.name) then acc
      else
        assert (acc + [person])[..|persons|] == acc[..|persons|];
        acc + [person]
  }

  lemma AddAllSnoc(persons: seq<Person>, batch: seq<Person>, person: Person)
    ensures AddAll(persons, batch + [person]) ==
      var acc := AddAll(persons, batch);
      if HasName(acc, person.name) then acc else acc + [person]
  {
    assert (batch + [person])[..|batch|] == batch;
  }

  /** Adding a batch to a list with distinct names leaves the names distinct. */
  lemma {:induction false} AddAllKeepsDistinct(persons: seq<Person>, batch: seq<Person>)
    requires DistinctNames(persons)
    ensures DistinctNames(AddAll(persons, batch))
  {
    if batch != [] {
      var init, person := batch[..|batch| - 1], batch[|batch| - 1];
      AddAllKeepsDistinct(persons, init);
      if !HasName(AddAll(persons, init), person.name) {
        SnocKeepsDistinct(AddAll(persons, init), person);
      }
    }
  }

  /** After adding a batch, every name of the batch is present, and the list only grew by batch persons. */
  lemma {:induction false} AddAllCovers(persons: seq<Person>, batch: seq<Person>)
    ensures forall k :: 0 <= k < |batch| ==> HasName(AddAll(persons, batch), batch[k].name)
    ensures forall k :: |persons| <= k < |AddAll(persons, batch)| ==> AddAll(persons, batch)[k] in batch
  {
    if batch != [] {
      var init, person := batch[..|batch| - 1], batch[|batch| - 1];
      AddAllCovers(persons, init);
      var acc, r := AddAll(persons, init), AddAll(persons, batch);
      assert r == acc || r == acc + [person];
      forall k | 0 <= k < |batch| ensures HasName(r, batch[k].name) {
        if k < |init| {
          assert batch[k] == init[k];
          var j :| 0 <= j < |acc| && acc[j].name == init[k].name;
          assert r[j] == acc[j];
        } else if r == acc + [person] {
          assert r[|acc|] == person;
        }
      }
      forall k | |persons| <= k < |r| ensures r[k] in batch {
        if k < |acc| {
          assert r[k] == acc[k] && acc[k] in init;
        } else {
          assert r[k] == person;
        }
      }
    }
  }

  /** A name repeated inside the batch is added once: the second copy finds the first. */
  lemma AddAllRepeatOnce(persons: seq<Person>, person: Person)
    requires !HasName(persons, person.name)
    ensures AddAll(persons, [person, person]) == persons + [person]
  {
    assert [person, person][..1] == [person];
    assert [person][..0] == [];
    assert AddAll(persons, [person]) == persons + [person];
    assert (persons + [person])[|persons|].name == person.name;
  }

  class LocalPersonStore {
    var stored: seq<Person>
    var saves: nat

    constructor (initial: seq<Person>)
      ensures stored == initial && saves == 0
    {
      stored, saves := initial, 0;
    }

    /** getPersons: the stored list. */
    method GetPersons() returns (persons: seq<Person>)
      ensures persons == stored
    {
      persons := stored;
    }

    /**
     * addPerson: refuses a person whose name is already stored, without
     * writing; otherwise appends the person and writes once.
     */
    method AddPerson(person: Person) returns (added: bool)
      modifies this
      ensures added <==> !HasName(old(stored), person.name)
      ensures stored == if added then old(stored) + [person] else old(stored)
      ensures saves == if added then old(saves) + 1 else old(saves)
      ensures DistinctNames(old(stored)) ==> DistinctNames(stored)
    {
      var persons := stored;
      if HasName(persons, person.name) {
        return false;
      }
      if DistinctNames(persons) {
        SnocKeepsDistinct(persons, person);
      }
      persons := persons + [person];
      stored := persons;
      saves := saves + 1;
      return true;
    }

    /**
     * removePerson: drops every person with that name; reports, and writes,
     * only when the list got shorter.
     */
    method RemovePerson(person: Person) returns (removed: bool)
      modifies this
      ensures stored == WithoutName(old(stored), person.name)
      ensures removed <==> HasName(old(stored), person.name)
      ensures saves == if removed then old(saves) + 1 else old(saves)
      ensures DistinctNames(old(stored)) ==> DistinctNames(stored)
    {
      var persons := stored;
      var initialLength := |persons|;
      WithoutNameShorter(persons, person.name);
      if DistinctNames(persons) {
        WithoutNameKeepsDistinct(persons, person.name);
      }
      persons := WithoutName(persons, person.name);
      if |persons| != initialLength {
        stored := persons;
        saves := saves + 1;
        return true;
      }
      return false;
    }

    /** clearPersons: writes the empty list. */
    method ClearPersons()
      modifies this
      ensures stored == [] && saves == old(saves) + 1
    {
      stored := [];
      saves := saves + 1;
    }

    /**
     * addPersons: goes through the batch in order, appending each person
     * whose name is not present at that moment; returns how many were
     * appended and writes once when that is at least one.
     */
    method AddPersons(newPersons: seq<Person>) returns (addedCount: nat)
      modifies this
      ensures stored == AddAll(old(stored), newPersons)
      ensures addedCount == |stored| - |old(stored)|
      ensures saves == if addedCount > 0 then old(saves) + 1 else old(saves)
      ensures DistinctNames(old(stored)) ==> DistinctNames(stored)
    {
      var persons := stored;
      addedCount := 0;
      var i := 0;
      while i < |newPersons|
        invariant 0 <= i <= |newPersons|
        invariant stored == old(stored) && saves == old(saves)
        invariant persons == AddAll(stored, newPersons[..i])
        invariant addedCount == |persons| - |stored|
      {
        var newPerson := newPersons[i];
        assert newPersons[..i + 1] == newPersons[..i] + [newPerson];
        AddAllSnoc(stored, newPersons[..i], newPerson);
        if !HasName(persons, newPerson.name) {
          persons := persons + [newPerson];
          addedCount := addedCount + 1;
        }
        i := i + 1;
      }
      assert newPersons[..i] == newPersons;
      if DistinctNames(stored) {
        AddAllKeepsDistinct(stored, newPersons);
      }
      if addedCount > 0 {
        stored := persons;
        saves := saves + 1;
      }
    }
  }
}
