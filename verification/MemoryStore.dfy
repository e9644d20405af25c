/** The in-memory repositories: records by id, in insertion order. */
module MemoryStore {
  import opened Wrappers

  /** The position of the record with an id, or -1. */
  function IndexOf<T>(records: seq<T>, idOf: T -> string, id: string): (i: int)
    ensures -1 <= i < |records|
    ensures i >= 0 ==> idOf(records[i]) == id
    ensures i < 0 ==> forall j | 0 <= j < |records| :: idOf(records[j]) != id
  {
    if records == [] then -1 else
      var n := |records| - 1;
      if idOf(records[n]) == id then n else IndexOf(records[..n], idOf, id)
  }

  function Find<T>(records: seq<T>, idOf: T -> string, id: string): (r: Option<T>)
    ensures r.Some? ==> r.value in records && idOf(r.value) == id
    ensures r.None? ==> forall x | x in records :: idOf(x) != id
  {
    var i := IndexOf(records, idOf, id);
    if i < 0 then None else Some(records[i])
  }

  predicate UniqueIds<T>(records: seq<T>, idOf: T -> string) {
    forall i, j | 0 <= i < j < |records| :: idOf(records[i]) != idOf(records[j])
  }

  lemma OneRecordPerId<T>(records: seq<T>, idOf: T -> string, a: T, b: T)
    requires UniqueIds(records, idOf) && a in records && b in records && idOf(a) == idOf(b)
    ensures a == b
  {
  }

  class MemoryRepository<T(==)> {
    var records: seq<T>
    const idOf: T -> string

    ghost predicate Valid()
      reads this
    {
      UniqueIds(records, idOf)
    }

    constructor (idOf: T -> string)
      ensures Valid() && records == [] && this.idOf == idOf
    {
      this.idOf := idOf;
      records := [];
    }

    /** `create`: throws when the id is taken. */
    method Create(entity: T) returns (r: Outcome<T>)
      requires Valid()
      modifies this
      ensures Valid()
      ensures r.Returned? <==> IndexOf(old(records), idOf, idOf(entity)) < 0
      ensures r.Returned? ==> r.value == entity && records == old(records) + [entity]
      ensures r.Threw? ==> records == old(records)
    {
      if IndexOf(records, idOf, idOf(entity)) >= 0 {
        return Threw;
      }
      records := records + [entity];
      r := Returned(entity);
    }

    /** `get`. */
    method Get(id: string) returns (r: Option<T>)
      ensures r == Find(records, idOf, id)
    {
      r := Find(records, idOf, id);
    }

    /** `list`. */
    method List() returns (all: seq<T>)
      ensures all == records
    {
      all := records;
    }

    /** `replace`, for an entity that keeps its id: throws when there is none to replace. */
    method Replace(id: string, entity: T) returns (r: Outcome<T>)
      requires Valid() && idOf(entity) == id
      modifies this
      ensures Valid()
      ensures var at := IndexOf(old(records), idOf, id);
              if at < 0 then r == Threw && records == old(records)
              else r == Returned(entity) && records == old(records)[at := entity]
    {
      var at := IndexOf(records, idOf, id);
      if at < 0 {
        return Threw;
      }
      records := records[at := entity];
      r := Returned(entity);
    }
  }
}
