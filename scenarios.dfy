/** Clients of the blacklist store: sequences of handler calls and what
    their results must be, proved from the handlers' contracts alone. */
module BlacklistScenarios {
  import opened Blacklist

  /** Two lists with no write between them return the same sequence. */
  method ListTwice(st: Store) returns (first: seq<Entry>, second: seq<Entry>)
    ensures first == second == st.entries
  {
    first := st.List();
    second := st.List();
  }

  /** A successful create followed by a list shows the old list plus exactly
      one new entry, the one returned, whose id occurs nowhere else. */
  method CreateThenList(st: Store, c: EntryCreate, freshId: string)
    returns (r: Result<Entry>, listed: seq<Entry>)
    requires !HasId(st.entries, freshId)
    modifies st
    ensures IsComplete(c) <==> r.Ok?
    ensures r.Ok? ==> listed == old(st.entries) + [r.value] && listed[|listed| - 1] == r.value
    ensures r.Ok? ==> r.value.id == freshId && Without(listed, freshId) == old(st.entries)
    ensures r.Err? ==> r.error == Validation && listed == old(st.entries)
  {
    ghost var before := st.entries;
    r := st.Create(c, freshId);
    listed := st.List();
    if r.Ok? {
      WithoutConcat(before, [r.value], freshId);
      WithoutAbsent(before, freshId);
    }
  }

  /** Deleting an id twice in a row: the second call always reports NotFound,
      and afterwards no entry carries the id. */
  method DeleteTwice(st: Store, id: string) returns (r1: Result<()>, r2: Result<()>)
    modifies st
    ensures r1 == if old(HasId(st.entries, id)) then Ok(()) else Err(NotFound)
    ensures r2 == Err(NotFound)
    ensures !HasId(st.entries, id) && st.entries == Without(old(st.entries), id)
  {
    ghost var before := st.entries;
    r1 := st.Delete(id);
    WithoutIds(before, id);
    if r1.Err? {
      WithoutAbsent(before, id);
    }
    r2 := st.Delete(id);
  }

  /** On a fresh store: create an entry from a complete request, delete it
      by its id, list an empty store, and fail to delete it again. */
  method CreateDeleteRoundTrip(c: EntryCreate, id: string)
    returns (created: Result<Entry>, deleted: Result<()>, listed: seq<Entry>, again: Result<()>)
    requires IsComplete(c)
    ensures created == Ok(Entry(id, c.target, c.username, c.reason))
    ensures deleted == Ok(()) && listed == [] && again == Err(NotFound)
  {
    var st := new Store();
    created := st.Create(c, id);
    assert st.entries[0].id == id;
    deleted := st.Delete(id);
    listed := st.List();
    again := st.Delete(id);
  }

  /** A request with an empty field is refused and leaves the store as it was. */
  method CreateIncomplete(st: Store, c: EntryCreate, freshId: string)
    returns (r: Result<Entry>, listed: seq<Entry>)
    requires c.target == [] || c.username == [] || c.reason == []
    requires !HasId(st.entries, freshId)
    modifies st
    ensures r == Err(Validation) && r.error.Status() == 400
    ensures listed == old(st.entries)
  {
    r := st.Create(c, freshId);
    listed := st.List();
  }
}
