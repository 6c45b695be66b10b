/**
 * The four things the request handler does to the store while it holds the
 * lock: compute the next id and append, find the first record with an id,
 * rename it, and `retain` the records whose id differs.
 */
module StoreOps {
  import opened Wrappers
  import opened People
  import Text

  /**
   * `people.last().map(|p| p.id + 1).unwrap_or(1)`. The addition is checked,
   * as in a debug build: `None` stands for the overflow panic when the last
   * id is already `u32::MAX`.
   */
  function NextId(people: Store): (r: Option<u32>)
    ensures r.None? <==> |people| > 0 && people[|people| - 1].id == U32_MAX
    ensures |people| == 0 ==> r == Some(1)
    ensures r.Some? ==> r.value == LastId(people) + 1
  {
    if |people| == 0 then Some(1)
    else if people[|people| - 1].id == U32_MAX then None
    else Some(people[|people| - 1].id + 1)
  }

  /** Under increasing ids the next id exceeds every stored id: it is the maximum plus one. */
  lemma NextIdAboveAll(people: Store)
    requires IdsIncreasing(people)
    requires NextId(people).Some?
    ensures forall i :: 0 <= i < |people| ==> people[i].id < NextId(people).value
    ensures |people| > 0 ==> exists i :: 0 <= i < |people| && NextId(people).value == people[i].id + 1
  {
    LastIdIsMax(people);
    if |people| > 0 {
      assert NextId(people).value == people[|people| - 1].id + 1;
    }
  }

  /** The record a successful create appends. */
  function Append(people: Store, id: u32, name: string): (r: Store)
    ensures |r| == |people| + 1 && r[..|people|] == people
    ensures r[|people|] == Person(id, name)
  {
    people + [Person(id, name)]
  }

  /** Appending a fresh id above every stored one and a non-blank name keeps the invariant. */
  lemma AppendPreservesValid(people: Store, name: string)
    requires Valid(people)
    requires NextId(people).Some?
    requires !Text.AllWhitespace(name)
    ensures Valid(Append(people, NextId(people).value, name))
  {
    NextIdAboveAll(people);
  }

  /** `people.iter_mut().find(|p| p.id == id)`: the index of the first record with that id. */
  function FindFirst(people: Store, id: u32): (r: Option<nat>)
    ensures r.Some? ==> r.value < |people| && people[r.value].id == id
    ensures r.Some? ==> forall j :: 0 <= j < r.value ==> people[j].id != id
    ensures r.None? <==> forall j :: 0 <= j < |people| ==> people[j].id != id
    decreases |people|
  {
    if |people| == 0 then None
    else if people[0].id == id then Some(0)
    else match FindFirst(people[1..], id)
      case None => None
      case Some(k) => Some(k + 1)
  }

  /** `person.name = new_name.to_string()` on the record at index `i`. */
  function Rename(people: Store, i: nat, name: string): (r: Store)
    requires i < |people|
    ensures |r| == |people|
    ensures r[i] == Person(people[i].id, name)
    ensures forall j :: 0 <= j < |people| && j != i ==> r[j] == people[j]
  {
    people[i := Person(people[i].id, name)]
  }

  /** Renaming leaves every id where it was. */
  lemma RenameKeepsIds(people: Store, i: nat, name: string)
    requires i < |people|
    ensures forall j :: 0 <= j < |people| ==> Rename(people, i, name)[j].id == people[j].id
  {
  }

  /** Renaming with a non-blank name keeps the invariant. */
  lemma RenamePreservesValid(people: Store, i: nat, name: string)
    requires Valid(people) && i < |people|
    requires !Text.AllWhitespace(name)
    ensures Valid(Rename(people, i, name))
  {
    RenameKeepsIds(people, i, name);
  }

  /** `people.retain(|p| p.id != id)`: keeps, in order, the records whose id differs. */
  function Retain(people: Store, id: u32): (r: Store)
    ensures |r| <= |people|
    ensures r == people <==> forall j :: 0 <= j < |people| ==> people[j].id != id
    ensures r != people ==> |r| < |people|
    decreases |people|
  {
    if |people| == 0 then []
    else if people[0].id == id then Retain(people[1..], id)
    else [people[0]] + Retain(people[1..], id)
  }

  /** A record survives `Retain` exactly when it was stored and its id differs. */
  lemma {:induction false} RetainMembers(people: Store, id: u32)
    ensures forall p :: p in Retain(people, id) <==> p in people && p.id != id
    decreases |people|
  {
    if |people| > 0 {
      RetainMembers(people[1..], id);
      assert people == [people[0]] + people[1..];
    }
  }

  /** What survives `Retain` of a store with increasing ids still has increasing ids. */
  lemma {:induction false} RetainKeepsIdsIncreasing(people: Store, id: u32)
    requires IdsIncreasing(people)
    ensures IdsIncreasing(Retain(people, id))
    decreases |people|
  {
    if |people| > 0 {
      var rest := Retain(people[1..], id);
      RetainKeepsIdsIncreasing(people[1..], id);
      if people[0].id != id {
        RetainMembers(people[1..], id);
        forall k | 0 <= k < |rest|
          ensures people[0].id < rest[k].id
        {
          assert rest[k] in people[1..];
        }
      }
    }
  }

  /** On a single record, `Retain` keeps it exactly when its id differs. */
  lemma RetainSingle(p: Person, id: u32)
    ensures Retain([p], id) == (if p.id == id then [] else [p])
  {
    assert [p][1..] == [];
  }

  /**
   * `Retain` works record by record and keeps the survivors where they were:
   * retaining on a concatenation is retaining on each part, concatenated.
   * With `RetainSingle` this pins the result down on every store, with
   * duplicate ids and out-of-order ids included.
   */
  lemma {:induction false} RetainConcat(a: Store, b: Store, id: u32)
    ensures Retain(a + b, id) == Retain(a, id) + Retain(b, id)
    decreases |a|
  {
    if |a| == 0 {
      assert a + b == b;
    } else {
      assert (a + b)[0] == a[0];
      assert (a + b)[1..] == a[1..] + b;
      RetainConcat(a[1..], b, id);
    }
  }

  /** Survivors keep their order and their duplicates whatever order the ids are in. */
  lemma RetainExamples()
    ensures Retain([Person(2, "a"), Person(1, "b"), Person(3, "c")], 3) == [Person(2, "a"), Person(1, "b")]
    ensures Retain([Person(2, "a"), Person(1, "b"), Person(2, "c"), Person(3, "d")], 2) == [Person(1, "b"), Person(3, "d")]
    ensures Retain([Person(2, "a"), Person(1, "b"), Person(2, "c"), Person(3, "d")], 3)
      == [Person(2, "a"), Person(1, "b"), Person(2, "c")]
  {
  }

  /** Retaining keeps the invariant: what survives is a subsequence of a valid store. */
  lemma RetainPreservesValid(people: Store, id: u32)
    requires Valid(people)
    ensures Valid(Retain(people, id))
  {
    var r := Retain(people, id);
    RetainKeepsIdsIncreasing(people, id);
    RetainMembers(people, id);
    forall i | 0 <= i < |r|
      ensures !Text.AllWhitespace(r[i].name)
    {
      assert r[i] in people;
    }
  }
}
