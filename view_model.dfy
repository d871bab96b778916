/** The records controller `ItemIndexViewModel`: it owns the ordered list of
    records shown to the user (`Dataset`), the selected backing store, the
    one-shot refresh flag and the busy flag that guards a full reload, and it
    carries out create, read, update, delete, wipe and data-source requests
    against the selected store. Every awaited store call is taken to complete
    before the next statement runs. */
module ViewModels {
  import opened Items
  import opened Ordering
  import opened Stores

  /** The `Dataset` a full reload leaves behind, given what `IndexAsync(true)`
      yielded: empty when the fetch failed, otherwise the fetched records in the
      order of `OrderBy(Name).ThenBy(Description)`. */
  ghost function Reloaded(fetched: Option<seq<ItemModel>>): (r: seq<ItemModel>)
    ensures fetched.None? ==> r == []
    ensures fetched.Some? ==> StableSortOf(r, fetched.value)
    ensures fetched.Some? && UniqueIds(fetched.value) ==> UniqueIds(r)
  {
    match fetched
    case None => []
    case Some(rows) =>
      OrderByIsStableSort(rows);
      if UniqueIds(rows) then
        OrderByKeepsIdsUnique(rows);
        OrderByNameThenDescription(rows)
      else
        OrderByNameThenDescription(rows)
  }

  class ItemIndexViewModel {
    /** The records shown to the user, in display order. */
    var Dataset: seq<ItemModel>
    /** The store every operation goes to. */
    var DataStore: Store
    /** 1 when the database store is selected, 0 for the mock store. */
    var CurrentDataSource: int
    /** Set by every change of store contents or store; cleared by `NeedsRefresh`. */
    var needsRefresh: bool
    /** True while a full reload runs. */
    var IsBusy: bool
    /** The in-memory mock store, data source 0. */
    const DataSourceMock: Store
    /** The SQLite database store, data source 1. */
    const DataSourceSql: Store
    /** `merge(stored, data)` is the stored record after `ItemModel.Update(data)`:
        it keeps the stored record's Id. */
    const merge: (ItemModel, ItemModel) -> ItemModel

    ghost predicate Valid()
      reads this, DataSourceMock, DataSourceSql
    {
      && DataSourceMock != DataSourceSql
      && DataSourceMock.Valid()
      && DataSourceSql.Valid()
      && (CurrentDataSource == 0 || CurrentDataSource == 1)
      && DataStore == (if CurrentDataSource == 1 then DataSourceSql else DataSourceMock)
      && (forall a, b :: merge(a, b).Id == a.Id)
    }

    /** Builds the controller and runs `Initialize`; the constructor then replaces
        `Dataset` with a fresh empty list, so the records loaded by `Initialize`
        are not kept. */
    constructor (mock: Store, sql: Store, mergeWith: (ItemModel, ItemModel) -> ItemModel)
      requires mock != sql && mock.Valid() && sql.Valid()
      requires forall a, b :: mergeWith(a, b).Id == a.Id
      ensures Valid()
      ensures DataSourceMock == mock && DataSourceSql == sql && merge == mergeWith
      ensures CurrentDataSource == 0 && DataStore == mock
      ensures Dataset == [] && needsRefresh && !IsBusy
    {
      DataSourceMock := mock;
      DataSourceSql := sql;
      merge := mergeWith;
      DataStore := mock;
      CurrentDataSource := 0;
      Dataset := [];
      needsRefresh := false;
      IsBusy := false;
      new;
      Initialize();
      Dataset := [];
    }

    /** Empties `Dataset` and selects the current data source, which reloads. */
    method Initialize()
      requires Valid()
      modifies this
      ensures Valid()
      ensures CurrentDataSource == old(CurrentDataSource) && DataStore == old(DataStore)
      ensures needsRefresh && IsBusy == old(IsBusy)
      ensures Dataset == if old(IsBusy) then [] else Reloaded(DataStore.IndexResult())
    {
      Dataset := [];
      var _ := SetDataSource(CurrentDataSource);
    }

    /** Selects the database store when `isSQL` is 1 and the mock store for every
        other value, reloads from it and raises the refresh flag. */
    method SetDataSource(isSQL: int) returns (ok: bool)
      requires Valid()
      modifies this
      ensures Valid() && ok
      ensures CurrentDataSource == (if isSQL == 1 then 1 else 0)
      ensures DataStore == (if isSQL == 1 then DataSourceSql else DataSourceMock)
      ensures needsRefresh && IsBusy == old(IsBusy)
      ensures Dataset == if old(IsBusy) then old(Dataset) else Reloaded(DataStore.IndexResult())
    {
      if isSQL == 1 {
        DataStore := DataSourceSql;
        CurrentDataSource := 1;
      } else {
        DataStore := DataSourceMock;
        CurrentDataSource := 0;
      }
      ExecuteLoadDataCommand();
      SetNeedsRefresh(true);
      ok := true;
    }

    /** Appends `data` to `Dataset` without re-sorting, asks the store to create
        it and answers true whatever the store answered. */
    method Add(data: ItemModel) returns (ok: bool)
      requires Valid()
      modifies this, DataStore
      ensures Valid() && ok
      ensures Dataset == old(Dataset) + [data]
      ensures DataStore == old(DataStore) && CurrentDataSource == old(CurrentDataSource)
      ensures DataStore.rows == if HasId(old(DataStore.rows), data.Id) then old(DataStore.rows) else old(DataStore.rows) + [data]
      ensures DataStore.indexFails == old(DataStore.indexFails)
      ensures needsRefresh == old(needsRefresh) && IsBusy == old(IsBusy)
    {
      Dataset := Dataset + [data];
      var created := DataStore.Create(data);
      ok := true;
    }

    /** When the store holds a record with `data.Id`, removes `data` from
        `Dataset`, asks the store to delete the record and answers the store's
        answer; otherwise answers false and changes nothing. `Dataset` loses
        `data` even when the store refuses. */
    method Delete(data: ItemModel) returns (ok: bool)
      requires Valid()
      modifies this, DataStore
      ensures Valid()
      ensures DataStore == old(DataStore) && CurrentDataSource == old(CurrentDataSource)
      ensures DataStore.indexFails == old(DataStore.indexFails)
      ensures needsRefresh == old(needsRefresh) && IsBusy == old(IsBusy)
      ensures ok <==> HasId(old(DataStore.rows), data.Id) && !DataStore.deleteRefuses
      ensures !HasId(old(DataStore.rows), data.Id) ==> Dataset == old(Dataset)
      ensures HasId(old(DataStore.rows), data.Id) ==> Dataset == RemoveFirst(old(Dataset), data)
      ensures DataStore.rows == if ok then RemoveId(old(DataStore.rows), data.Id) else old(DataStore.rows)
    {
      var record := Read(data.Id);
      if record.None? {
        return false;
      }
      Dataset := RemoveFirst(Dataset, data);
      ok := DataStore.Delete(data.Id);
    }

    /** When the store holds a record with `data.Id`, merges `data` into it, asks
        the store to write it back, reloads whatever the store answered, and
        answers the store's answer; otherwise answers false and changes nothing. */
    method Update(data: ItemModel) returns (ok: bool)
      requires Valid()
      modifies this, DataStore
      ensures Valid()
      ensures DataStore == old(DataStore) && CurrentDataSource == old(CurrentDataSource)
      ensures DataStore.indexFails == old(DataStore.indexFails)
      ensures needsRefresh == old(needsRefresh) && IsBusy == old(IsBusy)
      ensures ok <==> HasId(old(DataStore.rows), data.Id) && !DataStore.updateRefuses
      ensures !HasId(old(DataStore.rows), data.Id) ==> Dataset == old(Dataset)
      ensures DataStore.rows ==
        if ok then ReplaceId(old(DataStore.rows), merge(old(FindId(DataStore.rows, data.Id)).value, data))
        else old(DataStore.rows)
      ensures HasId(old(DataStore.rows), data.Id) ==>
        Dataset == if old(IsBusy) then old(Dataset) else Reloaded(DataStore.IndexResult())
    {
      var record := Read(data.Id);
      if record.None? {
        return false;
      }
      var merged := merge(record.value, data);
      ok := DataStore.Update(merged);
      ExecuteLoadDataCommand();
    }

    /** Looks `id` up in the selected store, not in `Dataset`. */
    method Read(id: string) returns (r: Option<ItemModel>)
      requires Valid()
      ensures r.None? <==> !HasId(DataStore.rows, id)
      ensures r.Some? ==> r.value.Id == id && r.value in DataStore.rows
      ensures r.Some? ==> forall x :: x in DataStore.rows && x.Id == id ==> x == r.value
    {
      r := DataStore.Read(id);
    }

    /** Empties the selected store and raises the refresh flag; `Dataset` stays. */
    method WipeDataList()
      requires Valid()
      modifies this, DataStore
      ensures Valid()
      ensures DataStore == old(DataStore) && DataStore.rows == []
      ensures DataStore.indexFails == old(DataStore.indexFails)
      ensures needsRefresh
      ensures Dataset == old(Dataset) && CurrentDataSource == old(CurrentDataSource) && IsBusy == old(IsBusy)
    {
      DataStore.Wipe();
      SetNeedsRefresh(true);
    }

    /** The one-shot query: answers whether the flag was raised and lowers it. */
    method NeedsRefresh() returns (r: bool)
      modifies this
      ensures r == old(needsRefresh) && !needsRefresh
      ensures Dataset == old(Dataset) && DataStore == old(DataStore)
      ensures CurrentDataSource == old(CurrentDataSource) && IsBusy == old(IsBusy)
    {
      if needsRefresh {
        needsRefresh := false;
        return true;
      }
      return false;
    }

    method SetNeedsRefresh(value: bool)
      modifies this
      ensures needsRefresh == value
      ensures Dataset == old(Dataset) && DataStore == old(DataStore)
      ensures CurrentDataSource == old(CurrentDataSource) && IsBusy == old(IsBusy)
    {
      needsRefresh := value;
    }

    /** The full reload. While another reload runs it does nothing; otherwise it
        clears `Dataset`, fetches every record of the selected store, sorts them
        by Name then Description and appends them one by one. A failed fetch is
        swallowed and leaves `Dataset` empty; the busy flag is lowered on both
        paths. */
    method ExecuteLoadDataCommand()
      requires Valid()
      modifies this
      ensures Valid()
      ensures DataStore == old(DataStore) && CurrentDataSource == old(CurrentDataSource)
      ensures needsRefresh == old(needsRefresh) && IsBusy == old(IsBusy)
      ensures Dataset == if old(IsBusy) then old(Dataset) else Reloaded(DataStore.IndexResult())
    {
      if IsBusy {
        return;
      }
      IsBusy := true;
      Dataset := [];
      var fetched := DataStore.Index(true);
      if fetched.Some? {
        var sorted := OrderByNameThenDescription(fetched.value);
        assert sorted == Reloaded(DataStore.IndexResult());
        AppendEach(sorted);
      }
      IsBusy := false;
    }

    /** The reload's `foreach`: adds the records of `rows` to `Dataset` one at a
        time, in order. */
    method AppendEach(rows: seq<ItemModel>)
      modifies this`Dataset
      ensures Dataset == old(Dataset) + rows
    {
      var i := 0;
      while i < |rows|
        invariant 0 <= i <= |rows|
        invariant Dataset == old(Dataset) + rows[..i]
      {
        Dataset := Dataset + [rows[i]];
        i := i + 1;
      }
      assert rows[..i] == rows;
    }

    /** Runs the load command. */
    method ForceDataRefresh()
      requires Valid()
      modifies this
      ensures Valid()
      ensures DataStore == old(DataStore) && CurrentDataSource == old(CurrentDataSource)
      ensures needsRefresh == old(needsRefresh) && IsBusy == old(IsBusy)
      ensures Dataset == if old(IsBusy) then old(Dataset) else Reloaded(DataStore.IndexResult())
    {
      ExecuteLoadDataCommand();
    }
  }
}
