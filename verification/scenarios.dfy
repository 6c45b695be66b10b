/**
 * Request/response scenarios, replayed on the seed store.
 * The JSON decoder is left abstract; each scenario states what the decoder
 * makes of the body it sends.
 *
 * A scenario on `/people/{id}` takes its path as a parameter pinned by
 * `requires path == "/people/…"` instead of writing the literal into the
 * request: with the literal inline the verifier keeps re-evaluating the id
 * parsing on constants inside one large proof, and the proof gets out of
 * hand. The statement is the same: the path can only be that literal.
 */
module Scenarios {
  import opened Wrappers
  import opened People
  import opened StoreOps
  import opened IdPath
  import opened Payload
  import opened Handler
  import opened HandlerProperties

  /** A decoded body `{"name": <name>}`. */
  function NameBody(name: string): Json {
    JObject(map["name" := JString(name)])
  }

  /** Listing the fresh store: Alice, Bob and Charlie with ids 1, 2, 3, in that order. */
  lemma ListSeed(decode: Decoder)
    ensures Handle(Request(Get, "/people", Utf8("")), Seed, decode) == Step(Respond(OK, Listing(Seed)), Seed)
    ensures Seed[0] == Person(1, "Alice") && Seed[1] == Person(2, "Bob") && Seed[2] == Person(3, "Charlie")
  {
  }

  /** Adding Dana to the fresh store gives her id 4, after the three seed records. */
  lemma AddDana(body: string, decode: Decoder)
    requires decode(body) == Some(NameBody("Dana"))
    ensures Handle(Request(Post, "/people", Utf8(body)), Seed, decode)
      == Step(Respond(OK, Message(ADDED)), Seed + [Person(4, "Dana")])
  {
    NameBodyValid(body, decode, "Dana");
    SeedValid();
    CreateStep(Request(Post, "/people", Utf8(body)), Seed, decode, "Dana");
  }

  /** A name of two spaces is rejected as empty and the store is untouched. */
  lemma BlankNameRejected(body: string, decode: Decoder)
    requires decode(body) == Some(NameBody("  "))
    ensures Handle(Request(Post, "/people", Utf8(body)), Seed, decode)
      == Step(Respond(BAD_REQUEST, Message(EMPTY_NAME)), Seed)
  {
    assert Text.AllWhitespace("  ");
    assert ValidateName(body, decode) == Failure(EMPTY_NAME);
  }

  /** A body `{"name": <name>}` whose name starts with a visible character passes validation. */
  lemma NameBodyValid(body: string, decode: Decoder, name: string)
    requires decode(body) == Some(NameBody(name))
    requires |name| > 0 && !Text.IsWhitespace(name[0])
    ensures ValidateName(body, decode) == Success(name)
  {
    assert !Text.AllWhitespace(name);
  }

  /** Where ids 2 and 99 sit in the seed store, and the seed with Bob renamed. */
  lemma SeedLookups()
    ensures FindFirst(Seed, 2) == Some(1)
    ensures FindFirst(Seed, 99) == None
    ensures Rename(Seed, 1, "Bobby") == [Person(1, "Alice"), Person(2, "Bobby"), Person(3, "Charlie")]
  {
    assert Seed[0].id == 1 && Seed[1].id == 2 && Seed[2].id == 3;
  }

  /** The path `/people/{n}` is routed with the id text `n` in decimal, which parses back to `n`. */
  lemma IdPathFacts(path: string, n: u32)
    requires path == PREFIX + Decimal(n)
    ensures StartsWith(path, PREFIX)
    ensures TrimPrefixMatches(path) == Decimal(n)
    ensures ParseId(Decimal(n)) == Some(n)
  {
    PathIdRoundTrip(n);
    assert path[..|PREFIX|] == PREFIX;
  }

  /** A PUT on a path under the prefix is an update of the id text left after stripping it. */
  lemma UpdateAt(path: string, idText: string, body: RawBody, people: Store, decode: Decoder)
    requires StartsWith(path, PREFIX) && TrimPrefixMatches(path) == idText
    ensures Handle(Request(Put, path, body), people, decode) == UpdatePerson(idText, body, people, decode)
  {
    RouteOfArms(Put, path);
  }

  /** A DELETE on a path under the prefix is a delete of the id text left after stripping it. */
  lemma DeleteAt(path: string, idText: string, body: RawBody, people: Store, decode: Decoder)
    requires StartsWith(path, PREFIX) && TrimPrefixMatches(path) == idText
    ensures Handle(Request(Delete, path, body), people, decode) == DeletePerson(idText, people)
  {
    RouteOfArms(Delete, path);
  }

  /** Renaming record 2 to Bobby changes only that record's name. */
  lemma RenameBob(path: string, body: string, decode: Decoder)
    // the path is pinned here rather than inlined; see the module comment
    requires path == "/people/2"
    requires decode(body) == Some(NameBody("Bobby"))
    ensures Handle(Request(Put, path, Utf8(body)), Seed, decode)
      == Step(Respond(OK, Message(UPDATED)), [Person(1, "Alice"), Person(2, "Bobby"), Person(3, "Charlie")])
  {
    assert Handle(Request(Put, path, Utf8(body)), Seed, decode) == UpdatePerson("2", Utf8(body), Seed, decode) by {
      assert Decimal(2) == "2";
      IdPathFacts(path, 2);
      UpdateAt(path, "2", Utf8(body), Seed, decode);
    }
    assert ParseId("2") == Some(2) by {
      PathIdRoundTrip(2);
      assert Decimal(2) == "2";
    }
    assert ValidateName(BodyText(Utf8(body)), decode) == Success("Bobby") by {
      NameBodyValid(body, decode, "Bobby");
    }
    SeedLookups();
  }

  /** Renaming an id that is not stored answers 404 and changes nothing. */
  lemma RenameMissing(path: string, body: string, decode: Decoder)
    // the path is pinned here rather than inlined; see the module comment
    requires path == "/people/99"
    requires decode(body) == Some(NameBody("X"))
    ensures Handle(Request(Put, path, Utf8(body)), Seed, decode)
      == Step(Respond(NOT_FOUND, Message(PERSON_NOT_FOUND)), Seed)
  {
    assert Handle(Request(Put, path, Utf8(body)), Seed, decode) == UpdatePerson("99", Utf8(body), Seed, decode) by {
      assert Decimal(99) == "99";
      IdPathFacts(path, 99);
      UpdateAt(path, "99", Utf8(body), Seed, decode);
    }
    assert ParseId("99") == Some(99) by {
      PathIdRoundTrip(99);
      assert Decimal(99) == "99";
    }
    assert ValidateName(BodyText(Utf8(body)), decode) == Success("X") by {
      NameBodyValid(body, decode, "X");
    }
    SeedLookups();
  }

  /** Retaining the records whose id is not 1: first on the seed, then on what is left. */
  lemma SeedWithoutAlice()
    ensures Retain(Seed, 1) == [Person(2, "Bob"), Person(3, "Charlie")]
    ensures Retain([Person(2, "Bob"), Person(3, "Charlie")], 1) == [Person(2, "Bob"), Person(3, "Charlie")]
  {
    assert Seed[1..] == [Person(2, "Bob"), Person(3, "Charlie")];
  }

  /** Deleting record 1 removes Alice; deleting it again answers 404. */
  lemma DeleteAliceTwice(path: string, decode: Decoder)
    // the path is pinned here rather than inlined; see the module comment
    requires path == "/people/1"
    ensures Handle(Request(Delete, path, NotUtf8), Seed, decode)
      == Step(Respond(OK, Message(DELETED)), [Person(2, "Bob"), Person(3, "Charlie")])
    ensures Handle(Request(Delete, path, NotUtf8), [Person(2, "Bob"), Person(3, "Charlie")], decode)
      == Step(Respond(NOT_FOUND, Message(PERSON_NOT_FOUND)), [Person(2, "Bob"), Person(3, "Charlie")])
  {
    assert StartsWith(path, PREFIX) && TrimPrefixMatches(path) == "1" && ParseId("1") == Some(1) by {
      assert Decimal(1) == "1";
      IdPathFacts(path, 1);
    }
    DeleteAt(path, "1", NotUtf8, Seed, decode);
    DeleteAt(path, "1", NotUtf8, [Person(2, "Bob"), Person(3, "Charlie")], decode);
    SeedWithoutAlice();
  }

  /** Deleting Charlie (id 3), the last record of the seed, leaves Alice and Bob. */
  lemma DeleteCharlie(path: string, decode: Decoder)
    // the path is pinned here rather than inlined; see the module comment
    requires path == "/people/3"
    ensures Handle(Request(Delete, path, NotUtf8), Seed, decode).store == [Person(1, "Alice"), Person(2, "Bob")]
  {
    assert Handle(Request(Delete, path, NotUtf8), Seed, decode) == DeletePerson("3", Seed) by {
      assert Decimal(3) == "3";
      IdPathFacts(path, 3);
      DeleteAt(path, "3", NotUtf8, Seed, decode);
    }
    assert ParseId("3") == Some(3) by {
      PathIdRoundTrip(3);
      assert Decimal(3) == "3";
    }
    assert Retain(Seed, 3) == [Person(1, "Alice"), Person(2, "Bob")] by {
      assert Seed[1..][1..][1..] == [];
    }
  }

  /** Adding Dana after Alice and Bob gives her id 3. */
  lemma AddDanaAfterBob(body: string, decode: Decoder)
    requires decode(body) == Some(NameBody("Dana"))
    ensures Handle(Request(Post, "/people", Utf8(body)), [Person(1, "Alice"), Person(2, "Bob")], decode).store
      == [Person(1, "Alice"), Person(2, "Bob"), Person(3, "Dana")]
  {
    var kept := [Person(1, "Alice"), Person(2, "Bob")];
    NameBodyValid(body, decode, "Dana");
    assert LastId(kept) == 2;
    CreateStep(Request(Post, "/people", Utf8(body)), kept, decode, "Dana");
    assert kept + [Person(3, "Dana")] == [Person(1, "Alice"), Person(2, "Bob"), Person(3, "Dana")];
  }

  /** Deleting Charlie (id 3) and then adding Dana hands id 3 out again. */
  lemma DeleteCharlieThenAddDana(path: string, body: string, decode: Decoder)
    // the path is pinned here rather than inlined; see the module comment
    requires path == "/people/3"
    requires decode(body) == Some(NameBody("Dana"))
    ensures var afterDelete := Handle(Request(Delete, path, NotUtf8), Seed, decode).store;
      Handle(Request(Post, "/people", Utf8(body)), afterDelete, decode).store
        == [Person(1, "Alice"), Person(2, "Bob"), Person(3, "Dana")]
  {
    DeleteCharlie(path, decode);
    AddDanaAfterBob(body, decode);
  }
}
