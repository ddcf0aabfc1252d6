# Blacklist store

A model of the blacklist service in `main.py`. The service keeps one process-wide,
ordered, in-memory list of blacklist entries. Each entry holds a generated `id`, the
`target` player, the `username` of whoever added it and the `reason`. Three handlers
work on the list:

- listing returns the whole list;
- creating checks that none of the three request fields is empty (failing with status
  400, "All fields are required."), then builds an entry with a freshly generated id and
  appends it at the end;
- deleting by id scans the list. On the first entry with that id it replaces the list
  by the entries whose id differs and reports success. If no entry has the id, it fails
  with status 404, "Entry not found".

Module `Blacklist` (`blacklist.dfy`) holds the records (`Entry`, `EntryCreate`), the error
type (`Error`, with its status code and detail text), the pure filter `Without` that the
delete handler's list comprehension computes, lemmas about it, and class `Store`. Its
field `entries` is the module-global list; `List`, `Create` and `Delete` are the three
handlers. `Store.Valid()` is the invariant that ids are distinct. Module
`BlacklistScenarios` (`scenarios.dfy`) holds client methods that chain handler calls.

The generated UUID is a parameter of `Create` (`freshId`). Its precondition is that no
stored entry already has that id, which is what drawing a random UUID is relied on for.
The `username` field is copied from the request; it is not an authenticated identity.

## Model

| member | source | states |
|---|---|---|
| Blacklist.IsComplete | main.py:40 | the emptiness test of a create request: every one of target, username and reason is non-empty; Store.Create and BlacklistScenarios.CreateIncomplete state what follows from it |
| Blacklist.Error.Status | main.py:41 | the HTTP status of each error: 400 for Validation, 404 for NotFound; used by BlacklistScenarios.CreateIncomplete |
| Blacklist.Error.Detail | main.py:41 | the detail text of each error: "All fields are required." for Validation, "Entry not found" for NotFound (main.py:60) |
| Blacklist.Without | main.py:58 | the delete filter; its meaning is given by the lemmas WithoutMembers, WithoutConcat, WithoutIsSubsequence, WithoutIds and WithoutUniqueRemovesOne |
| Blacklist.Store.Valid | main.py:44 | the store invariant that no two entries share an id, established by the constructor and preserved by Create and Delete |
| Blacklist.Store.constructor | main.py:25 | the store starts as the empty list, which has distinct ids |
| Blacklist.Store.List | main.py:28-30 | listing returns exactly the current list and changes nothing |
| Blacklist.Store.Create | main.py:38-50 | an incomplete request fails with Validation and leaves the list unchanged; a complete one succeeds and returns an entry whose id is the fresh id and whose target, username and reason are copied unchanged from the request, and the new list is the old one with that entry appended; distinct ids are preserved |
| Blacklist.Store.Delete | main.py:53-60 | if some entry has the id, it succeeds and the new list is the old one filtered to entries with another id; otherwise it fails with NotFound and the list is unchanged; distinct ids are preserved, and when ids were distinct a successful delete shortens the list by exactly one |
| Blacklist.WithoutMembers | main.py:58 | an entry survives the delete filter exactly when it was in the list and its id differs from the deleted id |
| Blacklist.WithoutConcat | main.py:58 | the filter distributes over concatenation, so it keeps the relative order of the kept entries |
| Blacklist.WithoutIsSubsequence | main.py:58 | the filtered list is a subsequence of the original: its entries stand at strictly increasing positions of the original |
| Blacklist.WithoutAbsent | main.py:56-58 | filtering a list in which the id does not occur returns the list itself |
| Blacklist.WithoutIds | main.py:58 | after the filter no entry carries the deleted id, and the set of ids is the old set minus that id |
| Blacklist.WithoutIdempotent | main.py:58 | filtering twice with one id equals filtering once |
| Blacklist.WithoutKeepsUnique | main.py:58 | filtering a list with distinct ids leaves a list with distinct ids |
| Blacklist.WithoutUniqueRemovesOne | main.py:56-58 | with distinct ids, deleting the id found at position k removes exactly that entry, so the length drops by one |
| BlacklistScenarios.ListTwice | main.py:28-30 | two lists with no write between them return the same sequence, the current list |
| BlacklistScenarios.CreateThenList | main.py:38-50 | create succeeds exactly when the request is complete; then the list is the old list plus the returned entry at the end, which is the only entry with the fresh id; otherwise it fails with Validation and the list is unchanged |
| BlacklistScenarios.DeleteTwice | main.py:53-60 | the first delete succeeds exactly when the id is present; the second delete of the same id always fails with NotFound, and no entry carries the id afterwards |
| BlacklistScenarios.CreateDeleteRoundTrip | main.py:38-60 | on a fresh store, for every complete request and id: create returns the entry with that id and the request's fields, delete of that id succeeds, the list is then empty, and a second delete fails with NotFound |
| BlacklistScenarios.CreateIncomplete | main.py:40-41 | every request with an empty target, username or reason fails with Validation (status 400) and the list is unchanged |

## Left out

- UUID generation (main.py:44): the id is a parameter of `Create`, and uniqueness rests on the precondition that it is new to the store, not on modelling `uuid4`.
- The FastAPI application, CORS middleware and route decorators (main.py:7-15, 28, 38, 53): framework plumbing.
- `async`: there is no concurrency in the handlers; each is a sequential method on one store object.
- Pydantic parsing and coercion of the request body: the fields are taken as strings already; the emptiness test at main.py:40 is the only check modelled.
- HTTP encoding of responses: an error is the `Error` datatype with its status code and detail text; delete's `{"success": True}` body is `Ok(())`.
- OAuth login, cookie sessions, a whitelist of privileged users, an `addedBy` set from an authenticated identity, and persisting the list to a file: none of these exist in `main.py`, so the model has none of them. The list lives only in memory, as in the source.
