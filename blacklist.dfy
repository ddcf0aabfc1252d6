/** The in-memory blacklist service: one process-wide, ordered list of
    blacklist entries, read whole, appended to by a create that validates
    its three client fields, and filtered by id on delete. */
module Blacklist {

  /** A stored entry: a generated id plus the three client-supplied fields
      (the player blacklisted, who added them and why). */
  datatype Entry = Entry(id: string, target: string, username: string, reason: string)

  /** The body of a create request: the entry without its id. */
  datatype EntryCreate = EntryCreate(target: string, username: string, reason: string)

  /** The two ways a handler fails, each with its HTTP status and detail text. */
  datatype Error = Validation | NotFound {
    function Status(): int {
      match this
      case Validation => 400
      case NotFound => 404
    }

    function Detail(): string {
      match this
      case Validation => "All fields are required."
      case NotFound => "Entry not found"
    }
  }

  datatype Result<T> = Ok(value: T) | Err(error: Error)

  /** True when no field of the request is the empty string. */
  predicate IsComplete(c: EntryCreate) {
    c.target != [] && c.username != [] && c.reason != []
  }

  /** The entry a create builds from a request and a generated id. */
  function MakeEntry(id: string, c: EntryCreate): Entry
  {
    Entry(id, c.target, c.username, c.reason)
  }

  /** Some entry of s carries the given id. */
  predicate HasId(s: seq<Entry>, id: string) {
    exists k :: 0 <= k < |s| && s[k].id == id
  }

  /** No two positions of s carry the same id. */
  predicate UniqueIds(s: seq<Entry>) {
    forall i, j :: 0 <= i < j < |s| ==> s[i].id != s[j].id
  }

  /** The set of ids that occur in s. */
  function Ids(s: seq<Entry>): set<string> {
    set e | e in s :: e.id
  }

  /** The entries of s whose id differs from the given one, in their order in s. */
  function Without(s: seq<Entry>, id: string): seq<Entry> {
    if s == [] then []
    else (if s[0].id == id then [] else [s[0]]) + Without(s[1..], id)
  }

  /** An entry survives the filter exactly when it was in the list and its id
      is not the deleted one. */
  lemma {:induction false} WithoutMembers(s: seq<Entry>, id: string, e: Entry)
    ensures e in Without(s, id) <==> e in s && e.id != id
  {
    if s != [] {
      WithoutMembers(s[1..], id, e);
      assert s == [s[0]] + s[1..];
    }
  }

  /** The filter works piecewise, so it keeps the relative order of what it keeps. */
  lemma {:induction false} WithoutConcat(a: seq<Entry>, b: seq<Entry>, id: string)
    ensures Without(a + b, id) == Without(a, id) + Without(b, id)
  {
    if a == [] {
      assert a + b == b;
    } else {
      assert (a + b)[0] == a[0];
      assert (a + b)[1..] == a[1..] + b;
      WithoutConcat(a[1..], b, id);
    }
  }

  /** Filtering a list in which the id does not occur changes nothing. */
  lemma {:induction false} WithoutAbsent(s: seq<Entry>, id: string)
    requires !HasId(s, id)
    ensures Without(s, id) == s
  {
    if s != [] {
      assert s[0].id != id;
      assert !HasId(s[1..], id) by {
        forall k | 0 <= k < |s[1..]| ensures s[1..][k].id != id {
          assert s[1..][k] == s[k + 1];
        }
      }
      WithoutAbsent(s[1..], id);
      assert s == [s[0]] + s[1..];
    }
  }

  /** After the filter no entry carries the id, and the other ids all remain. */
  lemma WithoutIds(s: seq<Entry>, id: string)
    ensures !HasId(Without(s, id), id)
    ensures Ids(Without(s, id)) == Ids(s) - {id}
  {
    var w := Without(s, id);
    forall k | 0 <= k < |w| ensures w[k].id != id {
      WithoutMembers(s, id, w[k]);
    }
    forall x | x in Ids(s) - {id} ensures x in Ids(w) {
      var e :| e in s && e.id == x;
      WithoutMembers(s, id, e);
    }
    forall x | x in Ids(w) ensures x in Ids(s) - {id} {
      var e :| e in w && e.id == x;
      WithoutMembers(s, id, e);
    }
  }

  /** Filtering twice with the same id is filtering once. */
  lemma WithoutIdempotent(s: seq<Entry>, id: string)
    ensures Without(Without(s, id), id) == Without(s, id)
  {
    WithoutIds(s, id);
    WithoutAbsent(Without(s, id), id);
  }

  /** Every entry the filter keeps is at a position of s; positions stay in
      increasing order. */
  lemma {:induction false} WithoutIsSubsequence(s: seq<Entry>, id: string)
    ensures |Without(s, id)| <= |s|
    ensures exists pos: seq<nat> :: IsSubsequenceWitness(Without(s, id), s, pos)
  {
    if s == [] {
      assert IsSubsequenceWitness([], s, []);
    } else {
      WithoutIsSubsequence(s[1..], id);
      var w := Without(s[1..], id);
      var pos: seq<nat> :| IsSubsequenceWitness(w, s[1..], pos);
      var shifted := seq(|pos|, i requires 0 <= i < |pos| => pos[i] + 1);
      if s[0].id == id {
        assert IsSubsequenceWitness(Without(s, id), s, shifted);
      } else {
        assert IsSubsequenceWitness(Without(s, id), s, [0] + shifted);
      }
    }
  }

  /** pos lists, in strictly increasing order, the positions of s where the
      elements of w stand. */
  ghost predicate IsSubsequenceWitness(w: seq<Entry>, s: seq<Entry>, pos: seq<nat>) {
    |pos| == |w| &&
    (forall i :: 0 <= i < |pos| ==> pos[i] < |s| && s[pos[i]] == w[i]) &&
    (forall i, j :: 0 <= i < j < |pos| ==> pos[i] < pos[j])
  }

  /** The filter keeps ids distinct. */
  lemma WithoutKeepsUnique(s: seq<Entry>, id: string)
    requires UniqueIds(s)
    ensures UniqueIds(Without(s, id))
  {
    WithoutIsSubsequence(s, id);
    var w := Without(s, id);
    var pos: seq<nat> :| IsSubsequenceWitness(w, s, pos);
    forall i, j | 0 <= i < j < |w| ensures w[i].id != w[j].id {
      assert s[pos[i]] == w[i] && s[pos[j]] == w[j];
    }
  }

  /** When ids are distinct, deleting a present id removes exactly the one
      entry that carries it and nothing else. */
  lemma {:induction false} WithoutUniqueRemovesOne(s: seq<Entry>, id: string, k: nat)
    requires UniqueIds(s)
    requires k < |s| && s[k].id == id
    ensures Without(s, id) == s[..k] + s[k + 1..]
    ensures |Without(s, id)| == |s| - 1
  {
    if k == 0 {
      assert !HasId(s[1..], id) by {
        forall j | 0 <= j < |s[1..]| ensures s[1..][j].id != id {
          assert s[1..][j] == s[j + 1];
        }
      }
      WithoutAbsent(s[1..], id);
    } else {
      assert s[0].id != id;
      assert UniqueIds(s[1..]) by {
        forall i, j | 0 <= i < j < |s[1..]| ensures s[1..][i].id != s[1..][j].id {
          assert s[1..][i] == s[i + 1] && s[1..][j] == s[j + 1];
        }
      }
      assert s[1..][k - 1] == s[k];
      WithoutUniqueRemovesOne(s[1..], id, k - 1);
      assert s[..k] == [s[0]] + s[1..][..k - 1];
      assert s[k + 1..] == s[1..][k..];
    }
  }

  /** The store: the process-wide list of entries, in insertion order. */
  class Store {
    var entries: seq<Entry>

    /** The ids of the stored entries are distinct. */
    ghost predicate Valid()
      reads this
    {
      UniqueIds(entries)
    }

    /** The store starts empty. */
    constructor ()
      ensures Valid() && entries == []
    {
      entries := [];
    }

    /** Returns the whole list and changes nothing. */
    method List() returns (r: seq<Entry>)
      ensures r == entries
    {
      r := entries;
    }

    /** Validates the request, builds an entry with the generated id and
        appends it. The id stands for a freshly drawn UUID, so it is assumed
        not to occur in the store. */
    method Create(c: EntryCreate, freshId: string) returns (r: Result<Entry>)
      requires !HasId(entries, freshId)
      modifies this
      ensures !IsComplete(c) ==> r == Err(Validation) && entries == old(entries)
      ensures IsComplete(c) ==> r.Ok? && r.value.id == freshId
      ensures IsComplete(c) ==> r.value.target == c.target && r.value.username == c.username && r.value.reason == c.reason
      ensures IsComplete(c) ==> entries == old(entries) + [r.value]
      ensures old(Valid()) ==> Valid()
    {
      if !IsComplete(c) {
        return Err(Validation);
      }
      var e := MakeEntry(freshId, c);
      entries := entries + [e];
      r := Ok(e);
    }

    /** Scans the list for the id; on the first hit replaces the list by
        the entries with a different id, otherwise reports NotFound. */
    method Delete(id: string) returns (r: Result<()>)
      modifies this
      ensures old(HasId(entries, id)) ==> r == Ok(()) && entries == Without(old(entries), id)
      ensures !old(HasId(entries, id)) ==> r == Err(NotFound) && entries == old(entries)
      ensures old(Valid()) ==> Valid()
      ensures old(Valid()) && old(HasId(entries, id)) ==> |entries| == |old(entries)| - 1
    {
      for i := 0 to |entries|
        invariant forall k :: 0 <= k < i ==> entries[k].id != id
      {
        if entries[i].id == id {
          if UniqueIds(entries) {
            WithoutKeepsUnique(entries, id);
            WithoutUniqueRemovesOne(entries, id, i);
          }
          entries := Without(entries, id);
          return Ok(());
        }
      }
      r := Err(NotFound);
    }
  }
}
