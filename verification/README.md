# People service request handler, in Dafny

This project models the request handler of a small HTTP service that keeps
an in-memory list of people. Each person has a `u32` id and a name. The
service starts with Alice (1), Bob (2) and Charlie (3). It answers five
kinds of request:

- `GET /people` lists every record.
- `POST /people` creates a record from a JSON body `{"name": ...}`.
- `PUT /people/{id}` renames the record with that id.
- `DELETE /people/{id}` removes the records with that id.
- Anything else gets `404` with an empty body.

The model is one pure step function, `Handler.Handle(req, people, decode)`.
It takes a request and the current store, and returns the response
(`Outcome`) together with the new store (`Step`). Each request is one
atomic step. Before taking the store's lock, a request only reads its own
method, path and body; it does not touch the store. Create, update and
delete take the lock (src/main.rs:60, 110, 133) and hold it across their
read-then-write; list takes it only to read; the 404 arm never takes it.
`Handler.Run` folds `Handle` over a series of requests, in the order the
lock admits them.

Modules, in dependency order:

- `Wrappers`: `Option` and `Result`.
- `Text`: `str::trim` over the Unicode `White_Space` characters, which is
  what `char::is_whitespace` tests.
- `People`: `Person`, the store, the invariant `Valid` (ids strictly
  increasing along the list, and no blank names) and the seed store.
- `StoreOps`: the vector operations the handler uses:
  - the next id (`last().map(|p| p.id + 1).unwrap_or(1)`);
  - `push`;
  - `iter_mut().find`;
  - `retain`.
- `IdPath`: `trim_start_matches("/people/")`, and `str::parse::<u32>`
  both as a function and as the digit-by-digit method.
- `Payload`: an abstract JSON value, `value["name"].as_str()` and the
  three body checks, in their order.
- `Handler`: the route match and the four operations.
- `HandlerProperties`: the invariant, the per-operation laws and the id
  numbering laws.
- `Scenarios`: the seed-store request/response examples.

Three points where a client might expect something other than what the
code does; the model follows the code:

- **Next id.** A client might expect a new id to be the largest id + 1.
  The code uses the last record's id + 1 (src/main.rs:62). Under the
  invariant the two agree (`People.LastIdIsMax`, `StoreOps.NextIdAboveAll`).
- **Id reuse.** A client might expect ids never to be reused. The code
  reuses the id of a deleted last record.
  `HandlerProperties.DeleteLastThenCreateReusesId` gives the id handed
  out, and `Scenarios.DeleteCharlieThenAddDana` shows id 3 handed out twice.
- **Stored name.** A client might expect the name to be stored trimmed.
  The code trims only to test for emptiness and stores the name as sent
  (src/main.rs:54, 66, 113), and so does the model
  (`HandlerProperties.CreateAppends`, `HandlerProperties.UpdateRenamesTheRecord`).

## Model

| member | source | states |
|---|---|---|
| Text.TrimStart | src/main.rs:54 | the result is a suffix of the input; everything dropped is whitespace; the result is empty or starts with a non-whitespace character |
| Text.TrimEnd | src/main.rs:54 | the result is a prefix of the input; everything dropped is whitespace; the result is empty or ends with a non-whitespace character |
| Text.Trim | src/main.rs:54 | `name.trim().is_empty()` holds exactly when every character of the name is whitespace; a non-empty trim starts and ends with a non-whitespace character |
| People.IncreasingIdsAreDistinct | src/main.rs:112 | a store whose ids strictly increase has no two records with the same id, so `find` on an id can match only one record |
| People.LastIdIsMax | src/main.rs:62 | with increasing ids, the last record's id is the largest, so "last id + 1" equals "max id + 1" |
| People.SeedValid | src/main.rs:172-185 | the seed store Alice 1, Bob 2, Charlie 3 satisfies the invariant, and its last id is 3 |
| StoreOps.NextId | src/main.rs:62 | the new id is 1 for an empty store and otherwise the last id + 1; it is absent (the `+ 1` overflows) exactly when the last id is `u32::MAX` |
| StoreOps.NextIdAboveAll | src/main.rs:62 | with increasing ids the new id is above every stored id and one more than some stored id |
| StoreOps.Append | src/main.rs:64-68 | `push` keeps every earlier record and puts the new record last |
| StoreOps.AppendPreservesValid | src/main.rs:60-68 | appending a non-blank name under the next id keeps ids increasing and names non-blank |
| StoreOps.FindFirst | src/main.rs:112 | the index found holds the id and no earlier record does; nothing is found exactly when no record has the id |
| StoreOps.Rename | src/main.rs:113 | the record at the index gets the new name and keeps its id; every other record and the length are unchanged |
| StoreOps.RenameKeepsIds | src/main.rs:113 | renaming changes no id anywhere in the store |
| StoreOps.RenamePreservesValid | src/main.rs:104-113 | renaming with a non-blank name keeps the invariant |
| StoreOps.Retain | src/main.rs:135-138 | the store is unchanged exactly when no record has the id; otherwise it gets strictly shorter |
| StoreOps.RetainMembers | src/main.rs:136 | a record survives `retain` exactly when it was stored and its id differs from the deleted one |
| StoreOps.RetainKeepsIdsIncreasing | src/main.rs:136 | on a store whose ids strictly increase, what `retain` keeps still has strictly increasing ids |
| StoreOps.RetainSingle | src/main.rs:136 | on one record, `retain` keeps it exactly when its id differs from the deleted one |
| StoreOps.RetainConcat | src/main.rs:136 | `retain` on two parts joined is `retain` on each part, joined: survivors keep their original order and their duplicates on every store, ordered by id or not |
| StoreOps.RetainExamples | src/main.rs:136 | on stores out of id order and with a duplicate id, `retain` keeps the survivors in their original positions' order, duplicates included |
| StoreOps.RetainPreservesValid | src/main.rs:136 | `retain` keeps the invariant |
| IdPath.TrimPrefixMatches | src/main.rs:75 | every leading copy of `/people/` is stripped, not only the first: what is removed is a run of copies of the prefix and what is left does not start with it |
| IdPath.ParseIdChecked | src/main.rs:76-83 | the digit-at-a-time conversion with overflow checks agrees on every input with the value definition of `u32` parsing |
| IdPath.OverflowIsFinal | src/main.rs:76 | once the digits read so far exceed `u32::MAX`, the whole text is rejected, so the parser can stop early |
| IdPath.Decimal | src/main.rs:76 | the decimal spelling of a number is all digits, has no leading zero and has that number as its value |
| IdPath.LeadingZerosIgnored | src/main.rs:76 | leading zeros do not change the parsed value |
| IdPath.ParseDecimalRoundTrip | src/main.rs:76 | every `u32` written in decimal, with any leading zeros and an optional `+`, parses back to itself |
| IdPath.ParseIdRejects | src/main.rs:76-82 | the empty text, a lone `+`, a `-` sign, a trailing letter and `u32::MAX + 1` are all parse errors |
| IdPath.PathIdRoundTrip | src/main.rs:72-76 | the path `/people/` + decimal(n) yields the id text decimal(n), which parses to n |
| Payload.Lookup | src/main.rs:48 | indexing a JSON value by a key gives that field of an object, and `null` for a missing key or a non-object |
| Payload.NameField | src/main.rs:48 | `as_str()` on the `name` entry succeeds exactly when the value is an object whose `name` is a string, and yields that string |
| Payload.ValidateNameChecksInOrder | src/main.rs:37-58 | each of the three 400 messages is given exactly when the checks before it pass and its own fails; a success carries the body's `name` verbatim, and it is not all whitespace |
| Handler.RouteOfArms | src/main.rs:26-147 | GET and POST match only `/people` exactly; PUT and DELETE match exactly the paths starting with `/people/` and get the stripped id text; everything else falls through |
| Handler.CreateFailureKeepsStore | src/main.rs:32-70 | a create answers 200 or 400, or panics; anything other than "Person added" leaves the store as it was; a success appends one record at the end |
| Handler.UpdateFailureKeepsStore | src/main.rs:72-119 | an update answers 200, 400 or 404; anything other than "Person updated" leaves the store as it was; no update changes the length |
| Handler.DeleteFailureKeepsStore | src/main.rs:122-144 | a delete answers 200, 400 or 404; "Person deleted" is answered exactly when the store got shorter; otherwise the store is unchanged |
| Handler.FailuresKeepStore | src/main.rs:22-153 | every non-200 response and the panic leave the store unchanged; every status is 200, 400 or 404; the store grows by at most one record, at its end |
| HandlerProperties.ListIsReadOnly | src/main.rs:27-30 | `GET /people` answers 200 with the whole store in order and leaves it unchanged, so a second listing gives the same answer |
| HandlerProperties.CreateAppends | src/main.rs:60-70 | a valid create answers "Person added" and appends one record; its id is the last id + 1, or 1 when empty; its name is the body's `name` untrimmed; earlier records are unchanged |
| HandlerProperties.CreateOverflowPanics | src/main.rs:62 | a valid create when the last id is `u32::MAX` overflows `p.id + 1`; in a debug build that panics, leaving the store untouched |
| HandlerProperties.BodyErrorsLeaveStore | src/main.rs:87-108 | for a create, or an update with a well-formed id, a failing body gets 400 and the first failing check's message, and the store is untouched |
| HandlerProperties.NotUtf8IsInvalidJson | src/main.rs:87-96 | a body that is not UTF-8 becomes the empty text and is answered "Invalid JSON format" |
| HandlerProperties.BadIdRejectedFirst | src/main.rs:122-131 | a PUT or DELETE whose id text does not parse gets 400 "Invalid ID format" whatever the body, and the store is untouched |
| HandlerProperties.UpdateRenamesOnly | src/main.rs:110-119 | a valid update of a stored id answers "Person updated" and changes only that record's name; length and ids stay the same; an absent id gets 404 "Person not found" with the store unchanged |
| HandlerProperties.UpdateRenamesTheRecord | src/main.rs:112-114 | in a valid store, an update leaves the record with the id holding the new name and every other record unchanged |
| HandlerProperties.DeleteRemovesExactly | src/main.rs:133-144 | a delete keeps exactly the records with other ids; it answers "Person deleted" exactly when some record had the id, and otherwise 404 with the store unchanged |
| HandlerProperties.DeleteKeepsOrder | src/main.rs:133-136 | on any store, a delete removes the matching records from each part of the store and keeps the parts, and so all survivors, in their original order |
| HandlerProperties.DeleteTwice | src/main.rs:135-144 | deleting a stored id answers 200, and deleting it again answers 404 |
| HandlerProperties.UnmatchedIsNotFound | src/main.rs:147-151 | an unmatched method and path answer 404 with an empty body and leave the store unchanged |
| HandlerProperties.UnmatchedExamples | src/main.rs:26-122 | PUT or DELETE on `/people` without the slash, GET on `/people/1`, POST on `/people/`, PATCH and the lower-case extension method `get` fall through to 404 (method tokens are case-sensitive, and an upper-case `GET` is never an extension method) |
| HandlerProperties.RepeatedPrefixStripped | src/main.rs:75-76 | `/people//people/7` addresses id 7, because every repeated prefix is stripped; `/people/people/7` is an invalid id |
| HandlerProperties.CreatePreservesValid | src/main.rs:60-68 | a create keeps ids increasing and names non-blank |
| HandlerProperties.UpdatePreservesValid | src/main.rs:110-113 | an update keeps ids increasing and names non-blank |
| HandlerProperties.DeletePreservesValid | src/main.rs:133-136 | a delete keeps ids increasing and names non-blank |
| HandlerProperties.HandlePreservesValid | src/main.rs:22-153 | every request, whatever its outcome, keeps the invariant |
| HandlerProperties.RunPreservesValid | src/main.rs:187-196 | any series of requests, handled one at a time, keeps the invariant, so ids stay pairwise distinct |
| HandlerProperties.ReachableFromSeedValid | src/main.rs:172-196 | every store reachable from the seed has increasing, pairwise distinct ids and no blank name |
| HandlerProperties.NumberedEntries | src/main.rs:62-68 | the i-th record of a consecutive numbering from `first` has id `first + i` and the i-th name |
| HandlerProperties.CreatesNumberFrom | src/main.rs:62-68 | a series of valid creates appends one record per request, in request order, numbered on from the last id |
| HandlerProperties.CreatesFromEmpty | src/main.rs:62-68 | from an empty store, n valid creates give exactly ids 1 to n, each with its own request's name |
| HandlerProperties.RetainDropsLast | src/main.rs:136 | with increasing ids, deleting the last record's id drops that record and nothing else |
| HandlerProperties.DeleteLastThenCreateReusesId | src/main.rs:62-136 | deleting the last record and then creating one puts the new record last with the id after the new last record's, which is no larger than the deleted id |
| Scenarios.ListSeed | src/main.rs:27-30 | listing the fresh store gives Alice 1, Bob 2, Charlie 3, in that order |
| Scenarios.AddDana | src/main.rs:60-70 | adding Dana to the fresh store answers "Person added" and gives her id 4 |
| Scenarios.BlankNameRejected | src/main.rs:54-57 | a name of two spaces is rejected with "'name' cannot be empty" and the store is untouched |
| Scenarios.RenameBob | src/main.rs:110-114 | `PUT /people/2` with name Bobby renames Bob and nothing else |
| Scenarios.RenameMissing | src/main.rs:115-118 | `PUT /people/99` answers 404 "Person not found" and leaves the store unchanged |
| Scenarios.DeleteAliceTwice | src/main.rs:133-144 | `DELETE /people/1` answers "Person deleted" and leaves Bob and Charlie; the same request again answers 404 |
| Scenarios.DeleteCharlieThenAddDana | src/main.rs:62-136 | deleting Charlie (id 3) and then adding Dana gives Dana id 3 again |

## Left out

- The tokio accept loop, hyper connection serving and `eprintln!` logging (src/main.rs:167-204). These are network I/O. Each connection runs in its own task (src/main.rs:192); `Handler.Run` stands for the requests in the order the lock admits them.
- `Arc<Mutex<...>>` and `.lock().await`. Each request holds the lock across its read-then-write, so the model treats a request as one atomic step.
- serde_json. Decoding is the parameter `decode: string -> Option<Json>`, where `None` is a decode error. The lemma about non-UTF-8 bodies assumes the decoder rejects the empty text, as serde_json does.
- JSON serialisation of the list. A listing returns the sequence of records itself.
- UTF-8 decoding. A body is either valid text or `NotUtf8`, and `NotUtf8` becomes the empty text. Byte-level validity is not modelled.
- The body-collection error `?` (src/main.rs:35, 85). This is a transport failure with no response of the handler's own.
- The `empty` and `full` body helpers (src/main.rs:155-165). These are response plumbing.
- Release-build wrap-around of `p.id + 1`. The model takes the debug-build behaviour: an overflowing create panics (`Outcome.Panic`) and the store is untouched.
- The query string and URI normalisation. Routing sees the path as one text.
- Response headers and content types.
