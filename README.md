# Records controller of the Mine app, modelled in Dafny

This project models `ItemIndexViewModel`, the controller of the Mine Xamarin app.
It keeps an ordered in-memory list of item records (`Dataset`) in step with one of
two backing stores: an in-memory mock store and a SQLite database. It relays
create, read, update, delete and wipe requests to the selected store. Each update
and delete first checks that the record exists by reading the store. A full
reload clears the list, fetches every record, sorts them by Name then
Description and appends them back. A busy flag keeps one reload from starting
inside another. A one-shot flag (`NeedsRefresh`) tells the page to redraw.

Files and modules:

- `items.dfy`, module `Items`: the record `ItemModel` and the list operations on
  records. These are lookup by Id, removal by Id, replacement by Id and removal
  of the first equal record.
- `ordering.dfy`, module `Ordering`: the LINQ query
  `OrderBy(a => a.Name).ThenBy(a => a.Description)`. It is a stable insertion sort
  under the ordinal string order. Lemmas prove it sorts, permutes and is stable.
  `StableSortOf` is an independent definition of a stable sort by that key, and
  the reload's sort is proved to be the one list that meets it.
- `store.dfy`, module `Stores`: the `IDataStore<ItemModel>` interface as a class
  `Store`. Its records are a list with distinct Ids. Three constant fields fix
  its behaviour: whether `IndexAsync` fails, whether `UpdateAsync` refuses a
  record it holds, and whether `DeleteAsync` refuses one. A refusal answers
  false and changes nothing. The mock store and the database store are two
  instances.
- `view_model.dfy`, module `ViewModels`: the class `ItemIndexViewModel`. Its
  fields are `Dataset`, `DataStore`, `CurrentDataSource`, `needsRefresh` and
  `IsBusy`, plus the two stores. The constant `merge` stands for
  `ItemModel.Update`: `merge(stored, data)` is the stored record after the
  update. It is only required to keep the stored record's Id. Each operation is
  a method whose `ensures` gives the whole new state of the controller and of
  the selected store.
- `scenarios.dfy`, module `Scenarios`: call sequences that a page would make,
  with what their callers can conclude from the contracts alone.

Every `await` is modelled as a call that completes before the next statement.

Behaviour of the code worth knowing before reading the contracts:

- Only `SetDataSource` and `WipeDataList` raise the refresh flag. `Add`, `Delete`
  and `Update` leave it as it was.
- `Delete` removes the record from `Dataset` with `Collection.Remove(data)`. That
  goes by record equality, not by Id. The model removes the first element equal
  to `data`. This happens before the store is asked, so `Dataset` loses the
  record even when the store refuses the delete.
- `Update` reloads after asking the store, whatever the store answered.
- The constructor runs `Initialize`, which reloads. It then replaces `Dataset`
  with a fresh empty collection (`ItemIndexViewModel.cs:69-73`). With every await
  completed in order, the controller therefore starts with an empty `Dataset`
  and the refresh flag raised.
- `Add` appends without any existence check. So `Dataset` may hold two records
  with one Id until the next reload. Distinct Ids in `Dataset` are proved only
  right after a reload.

## Model

| member | source | states |
|---|---|---|
| `Items.FindId` | Mine/Mine/ViewModels/ItemIndexViewModel.cs:214 | the lookup finds nothing exactly when no record has the Id; what it finds has that Id and is in the list, and with distinct Ids it is the only such record |
| `Items.RemoveId` | Mine/Mine/ViewModels/ItemIndexViewModel.cs:185 | a record stays exactly when its Id differs from the removed one, and nothing changes when the Id was absent |
| `Items.RemoveIdLeavesNoId` | Mine/Mine/ViewModels/ItemIndexViewModel.cs:185 | after removal no record has the Id |
| `Items.RemoveIdKeepsIdsUnique` | Mine/Mine/ViewModels/ItemIndexViewModel.cs:185 | removal keeps distinct Ids distinct |
| `Items.RemoveIdDropsOne` | Mine/Mine/ViewModels/ItemIndexViewModel.cs:185 | with distinct Ids, removing a present Id removes exactly one record |
| `Items.ReplaceId` | Mine/Mine/ViewModels/ItemIndexViewModel.cs:200 | same length; each position holds the new record where the Id matched and the old record elsewhere; every position keeps its Id |
| `Items.FindAfterReplace` | Mine/Mine/ViewModels/ItemIndexViewModel.cs:193-204 | after a record replaces the one with its Id, reading that Id returns the new record |
| `Items.FindOtherAfterReplace` | Mine/Mine/ViewModels/ItemIndexViewModel.cs:200 | replacing one record leaves the lookup of every other Id unchanged |
| `Items.RemoveFirst` | Mine/Mine/ViewModels/ItemIndexViewModel.cs:184 | the list loses exactly one copy of the record (multiset difference), and is unchanged when the record does not occur |
| `Items.RemoveFirstCutsAtFirst` | Mine/Mine/ViewModels/ItemIndexViewModel.cs:184 | the copy removed is the first one; the records before and after it keep their order |
| `Ordering.StrLeTotal` | Mine/Mine/ViewModels/ItemIndexViewModel.cs:256-257 | any two strings are ordered one way or the other |
| `Ordering.StrLeTransitive` | Mine/Mine/ViewModels/ItemIndexViewModel.cs:256-257 | the string order is transitive |
| `Ordering.StrLeAntisymmetric` | Mine/Mine/ViewModels/ItemIndexViewModel.cs:256-257 | strings ordered both ways are equal |
| `Ordering.ItemLeTotal` | Mine/Mine/ViewModels/ItemIndexViewModel.cs:255-258 | the Name-then-Description order relates any two records |
| `Ordering.ItemLeTransitive` | Mine/Mine/ViewModels/ItemIndexViewModel.cs:255-258 | the Name-then-Description order is transitive |
| `Ordering.ItemLeBothWays` | Mine/Mine/ViewModels/ItemIndexViewModel.cs:255-258 | two records are ordered both ways exactly when Name and Description both agree |
| `Ordering.OrderByNameThenDescription` | Mine/Mine/ViewModels/ItemIndexViewModel.cs:255-258 | the sorted list is a permutation of the fetched records |
| `Ordering.OrderBySorted` | Mine/Mine/ViewModels/ItemIndexViewModel.cs:255-258 | the sorted list is ascending by Name, ties ascending by Description |
| `Ordering.OrderByStable` | Mine/Mine/ViewModels/ItemIndexViewModel.cs:255-258 | records with equal Name and Description keep the order the store returned them in |
| `Ordering.OrderByIsStableSort` | Mine/Mine/ViewModels/ItemIndexViewModel.cs:255-258 | the query's result is a stable sort of its input: sorted, a permutation, and every key group in input order |
| `Ordering.SortedWithSameKeyGroupsEqual` | Mine/Mine/ViewModels/ItemIndexViewModel.cs:255-258 | two sorted lists with the same records per key, in the same order, are equal |
| `Ordering.StableSortIsOrderBy` | Mine/Mine/ViewModels/ItemIndexViewModel.cs:255-258 | every stable sort of the fetched records equals the query's result, so the reload order is fully determined |
| `Ordering.OrderByKeepsIdsUnique` | Mine/Mine/ViewModels/ItemIndexViewModel.cs:255-263 | sorting records with distinct Ids yields records with distinct Ids |
| `Stores.Store.constructor` | Mine/Mine/ViewModels/ItemIndexViewModel.cs:51-52 | a store starts with the given records (distinct Ids), the given fetch behaviour and the given refusal behaviour for update and delete |
| `Stores.Store.Index` | Mine/Mine/ViewModels/ItemIndexViewModel.cs:251 | the full fetch yields every record of the store, or fails when the store's fetch fails |
| `Stores.Store.Read` | Mine/Mine/ViewModels/ItemIndexViewModel.cs:214 | the read finds nothing exactly when no record has the Id; what it finds has the Id and is stored |
| `Stores.Store.Create` | Mine/Mine/ViewModels/ItemIndexViewModel.cs:165 | create succeeds exactly when the Id is new, and then appends the record; otherwise nothing changes |
| `Stores.Store.Update` | Mine/Mine/ViewModels/ItemIndexViewModel.cs:200 | update succeeds exactly when the Id is present and the store does not refuse; then the record with that Id is replaced, otherwise nothing changes |
| `Stores.Store.Delete` | Mine/Mine/ViewModels/ItemIndexViewModel.cs:185 | delete succeeds exactly when the Id is present and the store does not refuse; then the record with that Id is removed, otherwise nothing changes |
| `Stores.Store.Wipe` | Mine/Mine/ViewModels/ItemIndexViewModel.cs:112 | the store is empty afterwards |
| `ViewModels.Reloaded` | Mine/Mine/ViewModels/ItemIndexViewModel.cs:246-263 | a failed fetch leaves the list empty; a successful one leaves a stable sort of the fetched records, with distinct Ids when the store's Ids are distinct |
| `ViewModels.ItemIndexViewModel.constructor` | Mine/Mine/ViewModels/ItemIndexViewModel.cs:67-73 | the controller starts on the mock store (source 0) with the given merge, not busy, with the refresh flag raised and `Dataset` empty, because line 73 discards what `Initialize` loaded |
| `ViewModels.ItemIndexViewModel.Initialize` | Mine/Mine/ViewModels/ItemIndexViewModel.cs:122-128 | empties `Dataset`, reselects the current source and reloads from it, and raises the refresh flag |
| `ViewModels.ItemIndexViewModel.SetDataSource` | Mine/Mine/ViewModels/ItemIndexViewModel.cs:136-154 | 1 selects the database store and every other value the mock store; then it reloads from the new store, raises the refresh flag and returns true |
| `ViewModels.ItemIndexViewModel.Add` | Mine/Mine/ViewModels/ItemIndexViewModel.cs:162-168 | the record is appended at the end of `Dataset` without re-sorting; the store creates it when its Id is new; the result is true whatever the store answered; the flags and the store's fetch behaviour are untouched |
| `ViewModels.ItemIndexViewModel.Delete` | Mine/Mine/ViewModels/ItemIndexViewModel.cs:175-188 | returns true exactly when the store held the Id and did not refuse. If the Id was absent, `Dataset` and the store are unchanged. If it was present, the first equal record leaves `Dataset` whatever the store answers, and the record with the Id leaves the store exactly when the answer is true |
| `ViewModels.ItemIndexViewModel.Update` | Mine/Mine/ViewModels/ItemIndexViewModel.cs:190-205 | returns true exactly when the store held the Id and did not refuse. If the Id was absent, nothing changes. If it was present, the stored record merged with the update replaces it exactly when the answer is true, and a full reload runs whatever the answer |
| `ViewModels.ItemIndexViewModel.Read` | Mine/Mine/ViewModels/ItemIndexViewModel.cs:212-216 | the answer comes from the selected store, not `Dataset`: nothing exactly when the Id is absent, otherwise the one stored record with that Id |
| `ViewModels.ItemIndexViewModel.WipeDataList` | Mine/Mine/ViewModels/ItemIndexViewModel.cs:110-114 | the selected store is emptied and the refresh flag raised; `Dataset` and the store's fetch behaviour are untouched |
| `ViewModels.ItemIndexViewModel.NeedsRefresh` | Mine/Mine/ViewModels/ItemIndexViewModel.cs:221-230 | returns the flag's old value and leaves the flag lowered; nothing else changes |
| `ViewModels.ItemIndexViewModel.SetNeedsRefresh` | Mine/Mine/ViewModels/ItemIndexViewModel.cs:233-236 | the flag takes the given value; nothing else changes |
| `ViewModels.ItemIndexViewModel.ExecuteLoadDataCommand` | Mine/Mine/ViewModels/ItemIndexViewModel.cs:239-273 | when busy, nothing changes. Otherwise `Dataset` becomes the stable Name/Description sort of the store's records, or stays empty when the fetch fails. The busy flag ends false, and the store and refresh flag are untouched |
| `ViewModels.ItemIndexViewModel.AppendEach` | Mine/Mine/ViewModels/ItemIndexViewModel.cs:260-263 | the records are added to the end of `Dataset` one at a time, in order; nothing else changes |
| `ViewModels.ItemIndexViewModel.ForceDataRefresh` | Mine/Mine/ViewModels/ItemIndexViewModel.cs:278-283 | runs the reload, with the same outcome |
| `Scenarios.PollTwiceAfterWipe` | Mine/Mine/ViewModels/ItemIndexViewModel.cs:221-230 | after one wipe, polling the refresh flag twice answers true, then false |
| `Scenarios.SwitchToSqlAndBack` | Mine/Mine/ViewModels/ItemIndexViewModel.cs:136-154 | switching to the database and back leaves `Dataset` a sorted permutation of the mock store's records with distinct Ids, or empty when that fetch fails |
| `Scenarios.AddReloadRead` | Mine/Mine/ViewModels/ItemIndexViewModel.cs:162-168 | a record with a new Id, added and then reloaded, is read back unchanged and is in `Dataset` |
| `Scenarios.UpdateThenRead` | Mine/Mine/ViewModels/ItemIndexViewModel.cs:190-216 | updating a present record returns true exactly when the store does not refuse; a later read then returns the stored record merged with the update, and after a refusal the stored record unchanged |
| `Scenarios.DeleteMissing` | Mine/Mine/ViewModels/ItemIndexViewModel.cs:175-182 | deleting an absent Id returns false and changes neither `Dataset` nor the store |

## Left out

- The lazily created, lock-guarded singleton (`ItemIndexViewModel.cs:19-40`). It exists for thread-safe first access; the model builds one controller explicitly.
- The `MessagingCenter` subscriptions (`ItemIndexViewModel.cs:76-103`). Each handler only forwards its payload to `SetDataSource`, `Add`, `Delete`, `Update` or `WipeDataList`, which callers invoke directly here.
- The `Command` object: its creation (`ItemIndexViewModel.cs:125`), `CanExecute` and `Execute` (`ItemIndexViewModel.cs:281-282`). `ForceDataRefresh` calls the reload directly. The page title (`ItemIndexViewModel.cs:71`) is left out too.
- Interleavings of the async calls, including two reloads racing on the busy flag. Every await completes before the next statement, so the busy flag is just a state bit that callers may find set.
- The `Debug.WriteLine` of a swallowed fetch error (`ItemIndexViewModel.cs:267`).
- Culture-sensitive string comparison in `OrderBy`/`ThenBy`. The model compares strings ordinally, character by character.
- The concrete stores `MockDataStore` and `DatabaseService` and SQLite I/O are not part of this model. The `Store` class states what the controller relies on. Its choices that create refuses an Id already present, and that update and delete refuse a missing Id, are assumptions; a store may also refuse update and delete of a present record, as its refusal fields say.
- `DataSource_Mock` and `DataSource_SQL` are expression-bodied properties that build a new store object on each access (`ItemIndexViewModel.cs:51-52`). The model keeps one instance per data source, on the assumption that the stores' contents outlive the object.
- Store failures other than a failed full fetch: an exception from `ReadAsync`, `CreateAsync`, `UpdateAsync`, `DeleteAsync` or `WipeDataList` propagates out of the controller and is not modelled.
- `ItemModel` beyond `Id`, `Name` and `Description` is one opaque field. `ItemModel.Update` and `ItemModel.Equals` are not part of this model. The merge is a parameter of the controller, constrained only to keep the stored Id, and removal from `Dataset` compares records as values.
- Aliasing in `Update`: `record.Update(data)` mutates the object `ReadAsync` returned, which a store may share with its own list. The model works on record values and writes the merged record back through the store's update, so a refused update leaves the stored record as it was even where the source's shared object would already carry the merge.
- The UI page `Mine/Mine/Views/AboutPage.xaml.cs` has no logic beyond setting a label to the clock and an empty toggle handler.
