/**
 * The `Person` record, the shared store of records, the invariant every
 * request keeps, and the compiled-in seed store.
 */
module People {
  import Text

  /** Largest value of Rust's `u32`. */
  const U32_MAX: int := 0xFFFF_FFFF

  /** Rust's `u32`: the integers 0 ..= 4294967295. */
  type u32 = x: int | 0 <= x <= U32_MAX

  /** `struct Person { id: u32, name: String }`. */
  datatype Person = Person(id: u32, name: string)

  /** The `Vec<Person>` behind the server's mutex, in insertion order. */
  type Store = seq<Person>

  /** Ids strictly increase along the store. */
  ghost predicate IdsIncreasing(people: Store) {
    forall i, j :: 0 <= i < j < |people| ==> people[i].id < people[j].id
  }

  /** No two records share an id. */
  ghost predicate IdsDistinct(people: Store) {
    forall i, j :: 0 <= i < |people| && 0 <= j < |people| && i != j ==> people[i].id != people[j].id
  }

  /**
   * No stored name is empty or all whitespace (by the contract of
   * `Text.Trim`, the same as: no name trims to the empty string).
   */
  ghost predicate NamesNonBlank(people: Store) {
    forall i :: 0 <= i < |people| ==> !Text.AllWhitespace(people[i].name)
  }

  /** The invariant the request handler keeps. */
  ghost predicate Valid(people: Store) {
    IdsIncreasing(people) && NamesNonBlank(people)
  }

  /** The id of the last record, 0 for an empty store. */
  function LastId(people: Store): (r: u32)
  {
    if |people| == 0 then 0 else people[|people| - 1].id
  }

  /** The store the server starts with: Alice, Bob and Charlie with ids 1, 2, 3. */
  const Seed: Store := [Person(1, "Alice"), Person(2, "Bob"), Person(3, "Charlie")]

  /** Increasing ids are pairwise distinct. */
  lemma IncreasingIdsAreDistinct(people: Store)
    requires IdsIncreasing(people)
    ensures IdsDistinct(people)
  {
  }

  /** With increasing ids the last record holds the largest id. */
  lemma LastIdIsMax(people: Store)
    requires IdsIncreasing(people)
    ensures forall i :: 0 <= i < |people| ==> people[i].id <= LastId(people)
  {
  }

  /** The seed store satisfies the invariant. */
  lemma SeedValid()
    ensures Valid(Seed)
    ensures LastId(Seed) == 3
  {
    assert !Text.IsWhitespace(Seed[0].name[0]);
    assert !Text.IsWhitespace(Seed[1].name[0]);
    assert !Text.IsWhitespace(Seed[2].name[0]);
  }
}
