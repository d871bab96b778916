/** Sequences of controller calls and what a caller can conclude from the
    controller's contracts alone. */
module Scenarios {
  import opened Items
  import opened Ordering
  import opened Stores
  import opened ViewModels

  /** After one mutation, polling the refresh flag twice answers true, then false. */
  method PollTwiceAfterWipe(vm: ItemIndexViewModel) returns (first: bool, second: bool)
    requires vm.Valid()
    modifies vm, vm.DataStore
    ensures first && !second
    ensures vm.DataStore.rows == [] && !vm.needsRefresh
  {
    vm.WipeDataList();
    first := vm.NeedsRefresh();
    second := vm.NeedsRefresh();
  }

  /** Switching to the database store and back shows only the mock store's records. */
  method SwitchToSqlAndBack(vm: ItemIndexViewModel)
    requires vm.Valid() && !vm.IsBusy
    modifies vm
    ensures vm.Valid() && vm.CurrentDataSource == 0 && vm.needsRefresh
    ensures vm.DataSourceMock.indexFails ==> vm.Dataset == []
    ensures !vm.DataSourceMock.indexFails ==>
      && multiset(vm.Dataset) == multiset(vm.DataSourceMock.rows)
      && Sorted(vm.Dataset)
      && UniqueIds(vm.Dataset)
  {
    var _ := vm.SetDataSource(1);
    var _ := vm.SetDataSource(0);
  }

  /** A record created through the controller is read back unchanged, and after a
      reload it is among the records shown. */
  method AddReloadRead(vm: ItemIndexViewModel, item: ItemModel) returns (found: Option<ItemModel>)
    requires vm.Valid() && !vm.IsBusy
    requires !HasId(vm.DataStore.rows, item.Id)
    modifies vm, vm.DataStore
    ensures found == Some(item)
    ensures !vm.DataStore.indexFails ==> item in vm.Dataset
  {
    var _ := vm.Add(item);
    assert vm.DataStore.rows[|vm.DataStore.rows| - 1] == item;
    vm.ForceDataRefresh();
    found := vm.Read(item.Id);
  }

  /** Updating an existing record answers whether the store accepted it; a later
      read returns the stored record merged with the update when it did, and the
      stored record unchanged when it refused. */
  method UpdateThenRead(vm: ItemIndexViewModel, data: ItemModel) returns (ok: bool, found: Option<ItemModel>)
    requires vm.Valid()
    requires HasId(vm.DataStore.rows, data.Id)
    modifies vm, vm.DataStore
    ensures ok == !vm.DataStore.updateRefuses
    ensures ok ==> found == Some(vm.merge(old(FindId(vm.DataStore.rows, data.Id)).value, data))
    ensures !ok ==> found == old(FindId(vm.DataStore.rows, data.Id))
  {
    ghost var before := vm.DataStore.rows;
    ghost var merged := vm.merge(FindId(before, data.Id).value, data);
    ok := vm.Update(data);
    if ok {
      FindAfterReplace(before, merged);
    }
    found := vm.Read(data.Id);
  }

  /** Deleting a record whose Id the store does not hold answers false and leaves
      the shown records alone. */
  method DeleteMissing(vm: ItemIndexViewModel, data: ItemModel) returns (ok: bool)
    requires vm.Valid()
    requires !HasId(vm.DataStore.rows, data.Id)
    modifies vm, vm.DataStore
    ensures !ok && vm.Dataset == old(vm.Dataset) && vm.DataStore.rows == old(vm.DataStore.rows)
  {
    ok := vm.Delete(data);
  }
}
