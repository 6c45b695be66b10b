/**
 * What `handle_request` promises, stated over the model: the list is
 * read-only, creation appends with the next id, update renames in place,
 * delete removes exactly the matching records, every failure leaves the
 * store alone, and the store invariant holds across any series of requests.
 */
module HandlerProperties {
  import opened Wrappers
  import opened People
  import opened StoreOps
  import opened IdPath
  import opened Payload
  import opened Handler

  /** GET on exactly `/people` returns the whole store in order and changes nothing, so a second list agrees. */
  lemma ListIsReadOnly(req: Request, again: Request, people: Store, decode: Decoder)
    requires req.verb == Get && req.path == COLLECTION
    requires again.verb == Get && again.path == COLLECTION
    ensures Handle(req, people, decode) == Step(Respond(OK, Listing(people)), people)
    ensures Handle(again, Handle(req, people, decode).store, decode).outcome == Handle(req, people, decode).outcome
  {
  }

  /**
   * A valid create appends one record at the end whose id is the last id
   * plus one (1 for an empty store) and whose name is the `name` string of
   * the body, untrimmed; every earlier record is unchanged.
   */
  lemma CreateAppends(req: Request, people: Store, decode: Decoder)
    requires req.verb == Post && req.path == COLLECTION
    requires ValidateName(BodyText(req.body), decode).Success?
    requires |people| == 0 || people[|people| - 1].id < U32_MAX
    ensures Handle(req, people, decode).outcome == Respond(OK, Message(ADDED))
    ensures |Handle(req, people, decode).store| == |people| + 1
    ensures Handle(req, people, decode).store[..|people|] == people
    ensures Handle(req, people, decode).store[|people|].id == (if |people| == 0 then 1 else people[|people| - 1].id + 1)
    ensures decode(BodyText(req.body)).Some?
    ensures decode(BodyText(req.body)).value.fields["name"] == JString(Handle(req, people, decode).store[|people|].name)
  {
    assert Handle(req, people, decode) == CreatePerson(req.body, people, decode);
  }

  /** A valid create on a store whose last id is `u32::MAX` overflows: the handler panics and the store is untouched. */
  lemma CreateOverflowPanics(req: Request, people: Store, decode: Decoder)
    requires req.verb == Post && req.path == COLLECTION
    requires ValidateName(BodyText(req.body), decode).Success?
    requires |people| > 0 && people[|people| - 1].id == U32_MAX
    ensures Handle(req, people, decode) == Step(Panic, people)
  {
    assert Handle(req, people, decode) == CreatePerson(req.body, people, decode);
  }

  /** The request reaches the body checks: a create, or an update whose id parsed. */
  predicate ReadsBody(req: Request) {
    match RouteOf(req.verb, req.path)
    case CreateRoute => true
    case UpdateRoute(idText) => ParseId(idText).Some?
    case _ => false
  }

  /**
   * A body that fails validation is answered with 400 and the first failing
   * check's message, before the store is touched.
   */
  lemma BodyErrorsLeaveStore(req: Request, people: Store, decode: Decoder)
    requires ReadsBody(req)
    requires ValidateName(BodyText(req.body), decode).Failure?
    ensures var text := BodyText(req.body);
      Handle(req, people, decode) == Step(Respond(BAD_REQUEST, Message(
        if decode(text).None? then INVALID_JSON
        else if NameField(decode(text).value).None? then MISSING_NAME
        else EMPTY_NAME)), people)
  {
  }

  /** A body that is not UTF-8 is read as empty text, which is not JSON, so it is reported as invalid JSON. */
  lemma NotUtf8IsInvalidJson(req: Request, people: Store, decode: Decoder)
    requires ReadsBody(req) && req.body == NotUtf8
    requires decode("") == None
    ensures Handle(req, people, decode) == Step(Respond(BAD_REQUEST, Message(INVALID_JSON)), people)
  {
  }

  /**
   * PUT or DELETE on `/people/...` whose id text is not a `u32` is answered
   * with 400 "Invalid ID format" whatever the body and the store.
   */
  lemma BadIdRejectedFirst(req: Request, people: Store, decode: Decoder)
    requires req.verb == Put || req.verb == Delete
    requires StartsWith(req.path, PREFIX)
    requires ParseId(TrimPrefixMatches(req.path)) == None
    ensures Handle(req, people, decode) == Step(Respond(BAD_REQUEST, Message(INVALID_ID)), people)
  {
    var idText := TrimPrefixMatches(req.path);
    if req.verb == Put {
      assert Handle(req, people, decode) == UpdatePerson(idText, req.body, people, decode) by {
        RouteOfArms(req.verb, req.path);
      }
      assert UpdatePerson(idText, req.body, people, decode) == Step(Respond(BAD_REQUEST, Message(INVALID_ID)), people);
    } else {
      assert Handle(req, people, decode) == DeletePerson(idText, people) by {
        RouteOfArms(req.verb, req.path);
      }
      assert DeletePerson(idText, people) == Step(Respond(BAD_REQUEST, Message(INVALID_ID)), people);
    }
  }

  /**
   * An update with a valid id and body renames the first record with that
   * id and nothing else: length, order and every id stay; an absent id is
   * 404 "Person not found" with the store unchanged.
   */
  lemma UpdateRenamesOnly(req: Request, people: Store, decode: Decoder, id: u32, name: string)
    requires req.verb == Put && StartsWith(req.path, PREFIX)
    requires ParseId(TrimPrefixMatches(req.path)) == Some(id)
    requires ValidateName(BodyText(req.body), decode) == Success(name)
    ensures var r := Handle(req, people, decode);
      if exists j :: 0 <= j < |people| && people[j].id == id then
        && r.outcome == Respond(OK, Message(UPDATED))
        && |r.store| == |people|
        && (forall j :: 0 <= j < |people| ==> r.store[j].id == people[j].id)
        && (exists i :: 0 <= i < |people| && people[i].id == id && r.store[i].name == name
              && forall j :: 0 <= j < |people| && j != i ==> r.store[j] == people[j])
      else
        r == Step(Respond(NOT_FOUND, Message(PERSON_NOT_FOUND)), people)
  {
    var r := Handle(req, people, decode);
    assert r == UpdatePerson(TrimPrefixMatches(req.path), req.body, people, decode);
    match FindFirst(people, id)
    case None =>
    case Some(i) =>
      assert r.store == Rename(people, i, name);
  }

  /** In a valid store, a successful update gives the new name to every record with that id. */
  lemma UpdateRenamesTheRecord(req: Request, people: Store, decode: Decoder, id: u32, name: string)
    requires Valid(people)
    requires req.verb == Put && StartsWith(req.path, PREFIX)
    requires ParseId(TrimPrefixMatches(req.path)) == Some(id)
    requires ValidateName(BodyText(req.body), decode) == Success(name)
    ensures var r := Handle(req, people, decode);
      && |r.store| == |people|
      && forall j :: 0 <= j < |people| ==> r.store[j] == (if people[j].id == id then Person(id, name) else people[j])
  {
    IncreasingIdsAreDistinct(people);
    var r := Handle(req, people, decode);
    assert r == UpdatePerson(TrimPrefixMatches(req.path), req.body, people, decode);
    match FindFirst(people, id)
    case None =>
      assert r.store == people;
    case Some(i) =>
      assert r.store == Rename(people, i, name);
      forall j | 0 <= j < |people|
        ensures r.store[j] == (if people[j].id == id then Person(id, name) else people[j])
      {
        if j != i {
          assert people[j].id != people[i].id;
        }
      }
  }

  /**
   * A delete with a valid id keeps exactly the records with other ids, and
   * answers 200 "Person deleted" exactly when something was removed,
   * 404 "Person not found" (store unchanged) otherwise.
   */
  lemma DeleteRemovesExactly(req: Request, people: Store, decode: Decoder, id: u32)
    requires req.verb == Delete && StartsWith(req.path, PREFIX)
    requires ParseId(TrimPrefixMatches(req.path)) == Some(id)
    ensures var r := Handle(req, people, decode);
      && (forall p :: p in r.store <==> p in people && p.id != id)
      && (r.outcome == Respond(OK, Message(DELETED)) <==> exists j :: 0 <= j < |people| && people[j].id == id)
      && (r.outcome != Respond(OK, Message(DELETED)) ==> r == Step(Respond(NOT_FOUND, Message(PERSON_NOT_FOUND)), people))
  {
    assert Handle(req, people, decode) == DeletePerson(TrimPrefixMatches(req.path), people) by {
      RouteOfArms(req.verb, req.path);
    }
    DeleteOpRemovesExactly(TrimPrefixMatches(req.path), people, id);
  }

  /** `DeleteRemovesExactly`, stated of the delete operation once the route is chosen. */
  lemma DeleteOpRemovesExactly(idText: string, people: Store, id: u32)
    requires ParseId(idText) == Some(id)
    ensures var r := DeletePerson(idText, people);
      && (forall p :: p in r.store <==> p in people && p.id != id)
      && (r.outcome == Respond(OK, Message(DELETED)) <==> exists j :: 0 <= j < |people| && people[j].id == id)
      && (r.outcome != Respond(OK, Message(DELETED)) ==> r == Step(Respond(NOT_FOUND, Message(PERSON_NOT_FOUND)), people))
  {
    RetainMembers(people, id);
  }

  /**
   * On any store, valid or not, a delete keeps the other records in their
   * original order: deleting from a store split in two parts deletes from
   * each part and keeps the parts in order.
   */
  lemma DeleteKeepsOrder(req: Request, a: Store, b: Store, decode: Decoder, id: u32)
    requires req.verb == Delete && StartsWith(req.path, PREFIX)
    requires ParseId(TrimPrefixMatches(req.path)) == Some(id)
    ensures Handle(req, a + b, decode).store == Retain(a, id) + Retain(b, id)
  {
    assert Handle(req, a + b, decode) == DeletePerson(TrimPrefixMatches(req.path), a + b) by {
      RouteOfArms(req.verb, req.path);
    }
    assert DeletePerson(TrimPrefixMatches(req.path), a + b).store == Retain(a + b, id);
    RetainConcat(a, b, id);
  }

  /** Deleting the same id twice: 200 the first time, 404 the second. */
  lemma DeleteTwice(req: Request, people: Store, decode: Decoder, id: u32)
    requires req.verb == Delete && StartsWith(req.path, PREFIX)
    requires ParseId(TrimPrefixMatches(req.path)) == Some(id)
    requires exists j :: 0 <= j < |people| && people[j].id == id
    ensures Handle(req, people, decode).outcome == Respond(OK, Message(DELETED))
    ensures Handle(req, Handle(req, people, decode).store, decode).outcome == Respond(NOT_FOUND, Message(PERSON_NOT_FOUND))
  {
    DeleteRemovesExactly(req, people, decode, id);
    var once := Handle(req, people, decode).store;
    DeleteRemovesExactly(req, once, decode, id);
    forall j | 0 <= j < |once|
      ensures once[j].id != id
    {
      assert once[j] in once;
    }
  }

  /** Every unmatched method and path is answered 404 with an empty body, store unchanged. */
  lemma UnmatchedIsNotFound(req: Request, people: Store, decode: Decoder)
    requires RouteOf(req.verb, req.path) == NoRoute
    ensures Handle(req, people, decode) == Step(Respond(NOT_FOUND, NoBody), people)
  {
  }

  /** Requests the router does not match: PUT and DELETE without the trailing slash, GET on one record, POST on one record. */
  lemma UnmatchedExamples()
    ensures RouteOf(Put, "/people") == NoRoute
    ensures RouteOf(Delete, "/people") == NoRoute
    ensures RouteOf(Get, "/people/1") == NoRoute
    ensures RouteOf(Post, "/people/") == NoRoute
    ensures RouteOf(Other("PATCH"), "/people/1") == NoRoute
    ensures RouteOf(Other("get"), COLLECTION) == NoRoute
  {
    assert !StartsWith("/people", PREFIX);
  }

  /** The prefix is stripped as often as it repeats: `/people//people/7` names id 7, `/people/people/7` is not an id. */
  lemma RepeatedPrefixStripped()
    ensures TrimPrefixMatches("/people//people/7") == "7"
    ensures ParseId(TrimPrefixMatches("/people/people/7")) == None
  {
    assert StartsWith("/people//people/7", PREFIX);
    assert "/people//people/7"[|PREFIX|..] == "/people/7";
    assert StartsWith("/people/7", PREFIX);
    assert "/people/7"[|PREFIX|..] == "7";
    assert !StartsWith("7", PREFIX);
    assert StartsWith("/people/people/7", PREFIX);
    assert "/people/people/7"[|PREFIX|..] == "people/7";
    assert "people/7"[0] != PREFIX[0];
    assert !StartsWith("people/7", PREFIX);
    assert !IsDigit('p');
  }

  /** A create keeps the store valid. */
  lemma CreatePreservesValid(body: RawBody, people: Store, decode: Decoder)
    requires Valid(people)
    ensures Valid(CreatePerson(body, people, decode).store)
  {
    var v := ValidateName(BodyText(body), decode);
    ValidateNameChecksInOrder(BodyText(body), decode);
    if v.Success? && NextId(people).Some? {
      assert CreatePerson(body, people, decode).store == Append(people, NextId(people).value, v.value);
      AppendPreservesValid(people, v.value);
    } else {
      assert CreatePerson(body, people, decode).store == people;
    }
  }

  /** An update keeps the store valid. */
  lemma UpdatePreservesValid(idText: string, body: RawBody, people: Store, decode: Decoder)
    requires Valid(people)
    ensures Valid(UpdatePerson(idText, body, people, decode).store)
  {
    var v := ValidateName(BodyText(body), decode);
    ValidateNameChecksInOrder(BodyText(body), decode);
    if ParseId(idText).Some? && v.Success? && FindFirst(people, ParseId(idText).value).Some? {
      var i := FindFirst(people, ParseId(idText).value).value;
      assert UpdatePerson(idText, body, people, decode).store == Rename(people, i, v.value);
      RenamePreservesValid(people, i, v.value);
    } else {
      assert UpdatePerson(idText, body, people, decode).store == people;
    }
  }

  /** A delete keeps the store valid. */
  lemma DeletePreservesValid(idText: string, people: Store)
    requires Valid(people)
    ensures Valid(DeletePerson(idText, people).store)
  {
    if ParseId(idText).Some? {
      assert DeletePerson(idText, people).store == Retain(people, ParseId(idText).value);
      RetainPreservesValid(people, ParseId(idText).value);
    } else {
      assert DeletePerson(idText, people).store == people;
    }
  }

  /** Every request keeps the store valid: ids strictly increasing and names non-blank. */
  lemma HandlePreservesValid(req: Request, people: Store, decode: Decoder)
    requires Valid(people)
    ensures Valid(Handle(req, people, decode).store)
  {
    match RouteOf(req.verb, req.path)
    case CreateRoute =>
      CreatePreservesValid(req.body, people, decode);
    case UpdateRoute(idText) =>
      UpdatePreservesValid(idText, req.body, people, decode);
    case DeleteRoute(idText) =>
      DeletePreservesValid(idText, people);
    case ListRoute =>
    case NoRoute =>
  }

  /** Any series of requests from a valid store ends in a valid store, whose ids are therefore distinct. */
  lemma {:induction false} RunPreservesValid(people: Store, reqs: seq<Request>, decode: Decoder)
    requires Valid(people)
    ensures Valid(Run(people, reqs, decode))
    ensures IdsDistinct(Run(people, reqs, decode))
    decreases |reqs|
  {
    if |reqs| > 0 {
      HandlePreservesValid(reqs[0], people, decode);
      RunPreservesValid(Handle(reqs[0], people, decode).store, reqs[1..], decode);
    } else {
      IncreasingIdsAreDistinct(people);
    }
  }

  /** From the seed, every reachable store is valid. */
  lemma ReachableFromSeedValid(reqs: seq<Request>, decode: Decoder)
    ensures Valid(Run(Seed, reqs, decode))
    ensures IdsDistinct(Run(Seed, reqs, decode))
  {
    SeedValid();
    RunPreservesValid(Seed, reqs, decode);
  }

  /** Records numbered consecutively from `first`, one per name. */
  function Numbered(first: nat, names: seq<string>): (r: Store)
    requires 0 < first && first + |names| <= U32_MAX + 1
    ensures |r| == |names|
    decreases |names|
  {
    if |names| == 0 then [] else [Person(first, names[0])] + Numbered(first + 1, names[1..])
  }

  /** The i-th numbered record has id `first + i` and the i-th name. */
  lemma {:induction false} NumberedEntries(first: nat, names: seq<string>)
    requires 0 < first && first + |names| <= U32_MAX + 1
    ensures forall i :: 0 <= i < |names| ==> Numbered(first, names)[i] == Person(first + i, names[i])
    decreases |names|
  {
    if |names| > 0 {
      NumberedEntries(first + 1, names[1..]);
      var r := Numbered(first, names);
      forall i | 0 < i < |names|
        ensures r[i] == Person(first + i, names[i])
      {
        assert r[i] == Numbered(first + 1, names[1..])[i - 1];
        assert names[1..][i - 1] == names[i];
      }
    }
  }

  /** `req` is a POST to `/people` whose body validates to `name`. */
  predicate CreateOf(req: Request, name: string, decode: Decoder) {
    req.verb == Post && req.path == COLLECTION && ValidateName(BodyText(req.body), decode) == Success(name)
  }

  /** Every request is a valid create carrying the corresponding name. */
  predicate AllCreates(reqs: seq<Request>, names: seq<string>, decode: Decoder)
    decreases |reqs|
  {
    && |reqs| == |names|
    && (|reqs| > 0 ==> CreateOf(reqs[0], names[0], decode) && AllCreates(reqs[1..], names[1..], decode))
  }

  /** A series of valid creates appends records numbered on from the last id, in request order. */
  lemma {:induction false} CreatesNumberFrom(people: Store, reqs: seq<Request>, names: seq<string>, decode: Decoder)
    requires AllCreates(reqs, names, decode)
    requires LastId(people) + |reqs| <= U32_MAX
    ensures Run(people, reqs, decode) == people + Numbered(LastId(people) + 1, names)
    decreases |reqs|
  {
    if |reqs| == 0 {
      assert people + Numbered(LastId(people) + 1, names) == people;
    } else {
      var after := people + [Person(LastId(people) + 1, names[0])];
      calc {
        Run(people, reqs, decode);
        == { RunFirstCreate(people, reqs, names, decode); }
        Run(after, reqs[1..], decode);
        == { RunFirstCreate(people, reqs, names, decode);
             CreatesNumberFrom(after, reqs[1..], names[1..], decode); }
        after + Numbered(LastId(people) + 2, names[1..]);
        == { NumberedAfterFirst(people, names); }
        people + Numbered(LastId(people) + 1, names);
      }
    }
  }

  /** Numbering on from a store equals numbering the first name, then the rest after it. */
  lemma NumberedAfterFirst(people: Store, names: seq<string>)
    requires |names| > 0 && LastId(people) + |names| <= U32_MAX
    ensures (people + [Person(LastId(people) + 1, names[0])]) + Numbered(LastId(people) + 2, names[1..])
      == people + Numbered(LastId(people) + 1, names)
  {
    var next := LastId(people) + 1;
    var first := [Person(next, names[0])];
    var rest := Numbered(next + 1, names[1..]);
    assert Numbered(next, names) == first + rest;
    assert (people + first) + rest == people + (first + rest);
  }

  /** The first of a series of valid creates appends its record, and the rest run on from there. */
  lemma RunFirstCreate(people: Store, reqs: seq<Request>, names: seq<string>, decode: Decoder)
    requires AllCreates(reqs, names, decode) && |reqs| > 0
    requires LastId(people) < U32_MAX
    ensures var after := people + [Person(LastId(people) + 1, names[0])];
      && LastId(after) == LastId(people) + 1
      && AllCreates(reqs[1..], names[1..], decode)
      && Run(people, reqs, decode) == Run(after, reqs[1..], decode)
  {
    CreateStep(reqs[0], people, decode, names[0]);
  }

  /** From an empty store, n valid creates give exactly the ids 1 .. n, each with its own request's name. */
  lemma CreatesFromEmpty(reqs: seq<Request>, names: seq<string>, decode: Decoder)
    requires AllCreates(reqs, names, decode)
    requires |reqs| <= U32_MAX
    ensures |Run([], reqs, decode)| == |reqs|
    ensures forall i :: 0 <= i < |reqs| ==> Run([], reqs, decode)[i] == Person(i + 1, names[i])
  {
    CreatesNumberFrom([], reqs, names, decode);
    assert [] + Numbered(1, names) == Numbered(1, names);
    NumberedEntries(1, names);
  }

  /**
   * Ids come from the last record, not from a counter: when at least two
   * records are stored, deleting the last one and then creating one puts
   * the new record in its place with the id after the new last record's,
   * which is no larger than the deleted id (and equal to it when the ids
   * have no gap there).
   */
  lemma DeleteLastThenCreateReusesId(del: Request, post: Request, people: Store, decode: Decoder)
    requires IdsIncreasing(people) && |people| > 1
    requires del.verb == Delete && StartsWith(del.path, PREFIX)
    requires ParseId(TrimPrefixMatches(del.path)) == Some(people[|people| - 1].id)
    requires post.verb == Post && post.path == COLLECTION
    requires ValidateName(BodyText(post.body), decode).Success?
    ensures var after := Handle(post, Handle(del, people, decode).store, decode).store;
      && after == people[..|people| - 1] + [Person(people[|people| - 2].id + 1, ValidateName(BodyText(post.body), decode).value)]
      && after[|after| - 1].id <= people[|people| - 1].id
  {
    var n := |people|;
    var kept := people[..n - 1];
    DeleteLastStep(del, people, decode);
    assert kept[n - 2] == people[n - 2];
    CreateAfter(del, post, people, kept, decode);
  }

  /** A create that follows a request which left `kept` numbers its record after `kept`'s last id. */
  lemma CreateAfter(first: Request, post: Request, people: Store, kept: Store, decode: Decoder)
    requires Handle(first, people, decode).store == kept
    requires |kept| > 0 && kept[|kept| - 1].id < U32_MAX
    requires post.verb == Post && post.path == COLLECTION
    requires ValidateName(BodyText(post.body), decode).Success?
    ensures Handle(post, Handle(first, people, decode).store, decode).store
      == kept + [Person(kept[|kept| - 1].id + 1, ValidateName(BodyText(post.body), decode).value)]
  {
    var name := ValidateName(BodyText(post.body), decode).value;
    calc {
      Handle(post, Handle(first, people, decode).store, decode).store;
      Handle(post, kept, decode).store;
      == { CreateStep(post, kept, decode, name); }
      kept + [Person(LastId(kept) + 1, name)];
    }
  }

  /** Deleting the id of the last record of a store with increasing ids drops just that record. */
  lemma DeleteLastStep(del: Request, people: Store, decode: Decoder)
    requires IdsIncreasing(people) && |people| > 0
    requires del.verb == Delete && StartsWith(del.path, PREFIX)
    requires ParseId(TrimPrefixMatches(del.path)) == Some(people[|people| - 1].id)
    ensures Handle(del, people, decode).store == people[..|people| - 1]
  {
    assert Handle(del, people, decode) == DeletePerson(TrimPrefixMatches(del.path), people);
    RetainDropsLast(people);
  }

  /** One valid create on a store whose last id is below `u32::MAX`: the new record goes at the end. */
  lemma CreateStep(req: Request, people: Store, decode: Decoder, name: string)
    requires req.verb == Post && req.path == COLLECTION
    requires ValidateName(BodyText(req.body), decode) == Success(name)
    requires LastId(people) < U32_MAX
    ensures Handle(req, people, decode).store == people + [Person(LastId(people) + 1, name)]
  {
    assert Handle(req, people, decode) == CreatePerson(req.body, people, decode);
    assert NextId(people) == Some(LastId(people) + 1);
  }

  /** In a store with increasing ids, removing the last id drops exactly the last record. */
  lemma {:induction false} RetainDropsLast(people: Store)
    requires IdsIncreasing(people) && |people| > 0
    ensures Retain(people, people[|people| - 1].id) == people[..|people| - 1]
    decreases |people|
  {
    var id := people[|people| - 1].id;
    if |people| > 1 {
      assert people[0].id != id;
      RetainDropsLast(people[1..]);
      assert people[1..][|people| - 2].id == id;
      assert [people[0]] + people[1..][..|people| - 2] == people[..|people| - 1];
    }
  }
}
