/**
 * `handle_request`: one request is one atomic step over the store (the
 * handler holds the store's lock across every read-then-write), mapping the
 * request and the store before it to a response and the store after it.
 */
module Handler {
  import opened Wrappers
  import opened People
  import opened StoreOps
  import opened IdPath
  import opened Payload

  /**
   * A method token other than the four the router names. Method tokens are
   * case-sensitive, so `get` is such a token, but `GET` is always parsed as
   * the standard method and never arrives here.
   */
  type OtherToken = t: string | t != "GET" && t != "POST" && t != "PUT" && t != "DELETE" witness "PATCH"

  /** The request method; `Other` covers every method the router does not name. */
  datatype Method = Get | Post | Put | Delete | Other(token: OtherToken)

  /** The request body as received: text when it is valid UTF-8. */
  datatype RawBody = Utf8(text: string) | NotUtf8

  /** The parts of a request the handler looks at; `path` is the URI path without the query. */
  datatype Request = Request(verb: Method, path: string, body: RawBody)

  /** The five arms of the router; the update and delete arms carry the text of `{id}`. */
  datatype Route = ListRoute | CreateRoute | UpdateRoute(idText: string) | DeleteRoute(idText: string) | NoRoute

  /** The response body: a message, the listed records, or nothing. */
  datatype Body = Message(text: string) | Listing(people: seq<Person>) | NoBody

  /**
   * What the client gets: a status and a body, or nothing at all when the
   * handler panics (the id overflow of a create).
   */
  datatype Outcome = Respond(status: int, body: Body) | Panic

  /** The response together with the store after the request. */
  datatype Step = Step(outcome: Outcome, store: Store)

  const COLLECTION: string := "/people"

  const OK: int := 200
  const BAD_REQUEST: int := 400
  const NOT_FOUND: int := 404

  const INVALID_ID: string := "Invalid ID format"
  const ADDED: string := "Person added"
  const UPDATED: string := "Person updated"
  const DELETED: string := "Person deleted"
  const PERSON_NOT_FOUND: string := "Person not found"

  /**
   * The match arms tried in order: GET and POST on exactly `/people`, PUT
   * and DELETE on any path starting with `/people/`, and nothing else.
   */
  function RouteOf(m: Method, path: string): Route {
    match m
    case Get => if path == COLLECTION then ListRoute else NoRoute
    case Post => if path == COLLECTION then CreateRoute else NoRoute
    case Put => if StartsWith(path, PREFIX) then UpdateRoute(TrimPrefixMatches(path)) else NoRoute
    case Delete => if StartsWith(path, PREFIX) then DeleteRoute(TrimPrefixMatches(path)) else NoRoute
    case Other(_) => NoRoute
  }

  /**
   * Each arm is selected exactly by its method and path condition; the id
   * text handed to PUT and DELETE is what is left of the path once the
   * prefix is stripped, and never itself starts with the prefix.
   */
  lemma RouteOfArms(m: Method, path: string)
    ensures RouteOf(m, path) == ListRoute <==> m == Get && path == COLLECTION
    ensures RouteOf(m, path) == CreateRoute <==> m == Post && path == COLLECTION
    ensures RouteOf(m, path).UpdateRoute? <==> m == Put && StartsWith(path, PREFIX)
    ensures RouteOf(m, path).DeleteRoute? <==> m == Delete && StartsWith(path, PREFIX)
    ensures RouteOf(m, path).UpdateRoute? || RouteOf(m, path).DeleteRoute? ==>
      && RouteOf(m, path).idText == TrimPrefixMatches(path)
      && !StartsWith(RouteOf(m, path).idText, PREFIX)
      && |RouteOf(m, path).idText| < |path|
  {
  }

  /** `String::from_utf8(bytes).unwrap_or_default()`: invalid UTF-8 becomes the empty text. */
  function BodyText(b: RawBody): string {
    match b
    case Utf8(text) => text
    case NotUtf8 => ""
  }

  /** GET `/people`: the whole store, in order, untouched. */
  function ListPeople(people: Store): Step {
    Step(Respond(OK, Listing(people)), people)
  }

  /**
   * POST `/people`: validate the body, then append a record with the next
   * id. Only a success changes the store, and then by one record at the end.
   */
  function CreatePerson(body: RawBody, people: Store, decode: Decoder): Step {
    match ValidateName(BodyText(body), decode)
    case Failure(msg) => Step(Respond(BAD_REQUEST, Message(msg)), people)
    case Success(name) =>
      match NextId(people)
      case None => Step(Panic, people)
      case Some(id) => Step(Respond(OK, Message(ADDED)), Append(people, id, name))
  }

  /**
   * PUT `/people/{id}`: parse the id, validate the body, then rename the
   * first record with that id. Only a success changes the store, and never
   * its length or its ids.
   */
  function UpdatePerson(idText: string, body: RawBody, people: Store, decode: Decoder): Step {
    match ParseId(idText)
    case None => Step(Respond(BAD_REQUEST, Message(INVALID_ID)), people)
    case Some(id) =>
      match ValidateName(BodyText(body), decode)
      case Failure(msg) => Step(Respond(BAD_REQUEST, Message(msg)), people)
      case Success(name) =>
        match FindFirst(people, id)
        case None => Step(Respond(NOT_FOUND, Message(PERSON_NOT_FOUND)), people)
        case Some(i) => Step(Respond(OK, Message(UPDATED)), Rename(people, i, name))
  }

  /**
   * DELETE `/people/{id}`: parse the id, retain the records with other ids,
   * and report success exactly when the store got shorter.
   */
  function DeletePerson(idText: string, people: Store): Step {
    match ParseId(idText)
    case None => Step(Respond(BAD_REQUEST, Message(INVALID_ID)), people)
    case Some(id) =>
      var kept := Retain(people, id);
      if |kept| < |people| then Step(Respond(OK, Message(DELETED)), kept)
      else Step(Respond(NOT_FOUND, Message(PERSON_NOT_FOUND)), kept)
  }

  /** One request against the store: route it, then run the selected operation. */
  function Handle(req: Request, people: Store, decode: Decoder): Step {
    match RouteOf(req.verb, req.path)
    case ListRoute => ListPeople(people)
    case CreateRoute => CreatePerson(req.body, people, decode)
    case UpdateRoute(idText) => UpdatePerson(idText, req.body, people, decode)
    case DeleteRoute(idText) => DeletePerson(idText, people)
    case NoRoute => Step(Respond(NOT_FOUND, NoBody), people)
  }

  /** A create that does not answer "Person added" leaves the store alone; a successful one appends one record. */
  lemma CreateFailureKeepsStore(body: RawBody, people: Store, decode: Decoder)
    ensures var r := CreatePerson(body, people, decode);
      && (r.outcome.Panic? || r.outcome.status in {OK, BAD_REQUEST})
      && (r.outcome != Respond(OK, Message(ADDED)) ==> r.store == people)
      && (r.outcome == Respond(OK, Message(ADDED)) ==> |r.store| == |people| + 1 && r.store[..|people|] == people)
  {
  }

  /** An update that does not answer "Person updated" leaves the store alone; no update changes its length. */
  lemma UpdateFailureKeepsStore(idText: string, body: RawBody, people: Store, decode: Decoder)
    ensures var r := UpdatePerson(idText, body, people, decode);
      && r.outcome.Respond? && r.outcome.status in {OK, BAD_REQUEST, NOT_FOUND}
      && (r.outcome != Respond(OK, Message(UPDATED)) ==> r.store == people)
      && |r.store| == |people|
  {
  }

  /** A delete reports "Person deleted" exactly when the store got shorter, and otherwise leaves it alone. */
  lemma DeleteFailureKeepsStore(idText: string, people: Store)
    ensures var r := DeletePerson(idText, people);
      && r.outcome.Respond? && r.outcome.status in {OK, BAD_REQUEST, NOT_FOUND}
      && (r.outcome == Respond(OK, Message(DELETED)) <==> |r.store| < |people|)
      && (r.outcome != Respond(OK, Message(DELETED)) ==> r.store == people)
  {
  }

  /**
   * Every failed request (a status other than 200, or the panic) leaves the
   * store exactly as it was, every response is 200, 400 or 404, and the only
   * way the store grows is by one record appended at its end.
   */
  lemma FailuresKeepStore(req: Request, people: Store, decode: Decoder)
    ensures var r := Handle(req, people, decode);
      && (r.outcome.Panic? || r.outcome.status != OK ==> r.store == people)
      && (r.outcome.Respond? ==> r.outcome.status in {OK, BAD_REQUEST, NOT_FOUND})
      && |r.store| <= |people| + 1
      && (|r.store| == |people| + 1 ==> r.store[..|people|] == people)
  {
    match RouteOf(req.verb, req.path)
    case ListRoute =>
    case CreateRoute =>
      CreateFailureKeepsStore(req.body, people, decode);
    case UpdateRoute(idText) =>
      UpdateFailureKeepsStore(idText, req.body, people, decode);
    case DeleteRoute(idText) =>
      DeleteFailureKeepsStore(idText, people);
    case NoRoute =>
  }

  /** The store after a series of requests, handled one at a time as the lock serialises them. */
  function Run(people: Store, reqs: seq<Request>, decode: Decoder): (r: Store)
    decreases |reqs|
  {
    if |reqs| == 0 then people else Run(Handle(reqs[0], people, decode).store, reqs[1..], decode)
  }
}
