/** A backing store as the controller sees it through `IDataStore<ItemModel>`:
    index, read, create, update, delete and wipe. The two concrete stores (the
    in-memory mock store and the SQLite database service) are two instances of
    this one class. The store keeps its records as a list with distinct Ids, in
    its own order, which is the order `IndexAsync` returns them in. Whether a
    full fetch fails with an I/O error, and whether the store refuses an update
    or a delete of a record it holds, are fixed parameters of each store. */
module Stores {
  import opened Items

  class Store {
    /** The records the store holds, in the order it lists them. */
    var rows: seq<ItemModel>
    /** Whether `IndexAsync` fails with an I/O error instead of returning the records. */
    const indexFails: bool
    /** Whether `UpdateAsync` answers false, changing nothing, for a record it holds. */
    const updateRefuses: bool
    /** Whether `DeleteAsync` answers false, changing nothing, for a record it holds. */
    const deleteRefuses: bool

    ghost predicate Valid()
      reads this
    {
      UniqueIds(rows)
    }

    /** What `IndexAsync` yields: the records, or `None` when the fetch fails. */
    ghost function IndexResult(): Option<seq<ItemModel>>
      reads this
    {
      if indexFails then None else Some(rows)
    }

    constructor (initial: seq<ItemModel>, failing: bool, refusesUpdate: bool, refusesDelete: bool)
      requires UniqueIds(initial)
      ensures Valid()
      ensures rows == initial && indexFails == failing
      ensures updateRefuses == refusesUpdate && deleteRefuses == refusesDelete
    {
      rows := initial;
      indexFails := failing;
      updateRefuses := refusesUpdate;
      deleteRefuses := refusesDelete;
    }

    /** `IndexAsync(forceReload)`: every record, or the failed fetch. */
    method Index(forceReload: bool) returns (r: Option<seq<ItemModel>>)
      ensures indexFails ==> r.None?
      ensures !indexFails ==> r.Some? && r.value == rows
    {
      r := if indexFails then None else Some(rows);
    }

    /** `ReadAsync(id)`: the record with Id `id`, or `None` (the source's `null`). */
    method Read(id: string) returns (r: Option<ItemModel>)
      requires Valid()
      ensures r.None? <==> !HasId(rows, id)
      ensures r.Some? ==> r.value.Id == id && r.value in rows
    {
      r := FindId(rows, id);
    }

    /** `CreateAsync(item)`: adds `item` unless a record with its Id is already there. */
    method Create(item: ItemModel) returns (ok: bool)
      requires Valid()
      modifies this
      ensures Valid()
      ensures ok <==> !HasId(old(rows), item.Id)
      ensures rows == if ok then old(rows) + [item] else old(rows)
    {
      ok := FindId(rows, item.Id).None?;
      if ok {
        rows := rows + [item];
      }
    }

    /** `UpdateAsync(item)`: replaces the record with `item`'s Id by `item`, unless
        no record has that Id or the store refuses. */
    method Update(item: ItemModel) returns (ok: bool)
      requires Valid()
      modifies this
      ensures Valid()
      ensures ok <==> HasId(old(rows), item.Id) && !updateRefuses
      ensures rows == if ok then ReplaceId(old(rows), item) else old(rows)
    {
      ok := FindId(rows, item.Id).Some? && !updateRefuses;
      if ok {
        rows := ReplaceId(rows, item);
      }
    }

    /** `DeleteAsync(id)`: removes the record with Id `id`, unless there is none or
        the store refuses. */
    method Delete(id: string) returns (ok: bool)
      requires Valid()
      modifies this
      ensures Valid()
      ensures ok <==> HasId(old(rows), id) && !deleteRefuses
      ensures rows == if ok then RemoveId(old(rows), id) else old(rows)
    {
      ok := FindId(rows, id).Some? && !deleteRefuses;
      if ok {
        RemoveIdKeepsIdsUnique(rows, id);
        rows := RemoveId(rows, id);
      }
    }

    /** `WipeDataList()`: removes every record. */
    method Wipe()
      modifies this
      ensures Valid()
      ensures rows == []
    {
      rows := [];
    }
  }
}
