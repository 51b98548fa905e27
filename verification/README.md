# Purchase-order report and product catalog — a Dafny model

This project models the logic of two React views.

**The purchase-order report** (`src/PurchaseOrderReport.js`):
- It filters the order list by four criteria: a product-code substring, a status, a store and a date range.
- It groups the filtered orders by the key `productCode-status-store` and adds up the quantities.
- It lets the user save the live criteria as named presets, then apply, edit or delete them.
- It clears all criteria at once.

**The product catalog editor** (`src/ProductoCatalog.js`):
- It adds and deletes catalogs and selects one.
- It adds products to the selected catalog and deletes products from it.
- Each change to the selected catalog is copied back into the catalog list.

Every handler is a pure function from one view state to the next. React's `useState` setters become record updates. The state is the tuple of the view's state variables, except `filteredOrders`, which the model computes from the criteria (see "## Left out").

Modules:

- `Wrappers` has `Option`. `Seqs` has the generic sequence toolkit:
  - a stable `Filter`, which models `Array.prototype.filter`;
  - `MapWhere`, which models a conditional `Array.prototype.map`;
  - `FirstIndex`;
  - `SumOf`;
  - subsequence and distinctness predicates.
- `Text` models the three string functions the views use:
  - `toLowerCase`, restricted to ASCII letters;
  - `includes`;
  - `trim`, with ECMAScript's exact white-space and line-terminator set.
- `Orders` holds the order record, the criteria, the match predicate and the report's filter.
- `Grouping` holds the reduce that builds the report rows, and the facts about it:
  - quantities are conserved;
  - one group per key;
  - groups are listed in first-appearance order;
  - each representative is the first order with its key;
  - each total is the sum over its key.
- `Presets` holds the report's view state and its preset handlers.
- `ProductCatalog` holds the catalog editor's state and handlers.

**Modelling choices**

- **Ids.** The source takes new ids from `Date.now()`. Here the caller passes the id in, and it must be fresh. Freshness is required only on the path that mints an id.
- **Dates** are integer day numbers.
- **Quantities** are unbounded integers.

**Behaviour of the code that a reader might not expect, which the model keeps:**
- `saveFilter` accepts any name, blank or not.
- Deleting the preset under edit does not end the edit session (`Presets.SaveAfterDeletingEditedPreset`).
- "Cancel" only closes the dialog and keeps the edit session (`Presets.CancelKeepsEditSession`).
- Applying or editing a preset takes the preset object itself, so there is no "not found" case.
- The group key is the literal `-`-joined string. It can merge different field triples (`Grouping.KeyCollisionMergesGroups`). When statuses and stores contain no `-`, it cannot (`Grouping.GroupKeyInjective`). None of the statuses the view offers contains a `-`.

## Model

| member | source | states |
|---|---|---|
| Orders.MatchesIff | src/PurchaseOrderReport.js:44-52 | An order is kept exactly when each criterion is a wildcard or holds: the lowercased product code contains the lowercased criterion at some position, status and store are equal, and the date lies within each bound that is set. |
| Orders.MatchIgnoresCriterionCase | src/PurchaseOrderReport.js:46 | The case of the product-code criterion does not affect which orders match. |
| Orders.FilterOrders | src/PurchaseOrderReport.js:44-52 | The filtered list is a subsequence of the orders (their order is kept). An order is in it iff it is in the input and matches. |
| Orders.FilterOrdersCounts | src/PurchaseOrderReport.js:44-52 | Each matching order appears in the filtered list as many times as in the input; a non-matching one does not appear. |
| Orders.FilterOrdersIdempotent | src/PurchaseOrderReport.js:44-52 | Filtering the filtered list again with the same criteria changes nothing. |
| Orders.NoCriteriaKeepsAll | src/PurchaseOrderReport.js:44-52 | With all criteria blank, the whole order list is shown unchanged. |
| Orders.InvertedRangeMatchesNothing | src/PurchaseOrderReport.js:49-50 | A date range whose start is after its end shows no orders. |
| Text.Lower | src/PurchaseOrderReport.js:46 | Lowercasing keeps the length, maps each character on its own, and leaves no upper-case ASCII letter. |
| Text.LowerIdempotent | src/PurchaseOrderReport.js:46 | Lowercasing twice is the same as lowercasing once. |
| Text.ContainsWitness | src/PurchaseOrderReport.js:46 | When `includes` answers yes, the needle occurs at some position of the haystack. |
| Text.OccursContains | src/PurchaseOrderReport.js:46 | Every occurrence of the needle makes `includes` answer yes. |
| Text.ContainsIffOccurs | src/PurchaseOrderReport.js:46 | `includes` is true exactly when the needle occurs at some position. |
| Text.ContainsNoShorterNeedle | src/PurchaseOrderReport.js:46 | A needle at least as long as the haystack is found only when the two are equal. |
| Text.Trim | src/ProductoCatalog.js:39 | `trim` gives the empty string exactly when every character is ECMAScript white space. Otherwise the result neither starts nor ends with white space. |
| Text.TrimIsInfix | src/ProductoCatalog.js:39 | `trim` returns a slice of its input, and every character before or after that slice is white space: only the two white-space ends are removed. |
| Text.TrimStart | src/ProductoCatalog.js:62 | The result is a suffix of the input, everything dropped is white space, and the result does not start with white space. |
| Text.TrimEnd | src/ProductoCatalog.js:62 | The result is a prefix of the input, everything dropped is white space, and the result does not end with white space. |
| Grouping.FindGroup | src/PurchaseOrderReport.js:58 | The lookup `acc[key]` finds a group carrying the key, or reports that no group carries it. |
| Grouping.AddOrder | src/PurchaseOrderReport.js:57-62 | One reduce step: the order's key joins the key set, keys stay distinct, at most one group is added, and the sum of the totals grows by the order's quantity. |
| Grouping.GroupOrders | src/PurchaseOrderReport.js:56-63 | The fold yields exactly one group per distinct key among the orders. |
| Grouping.AddOrderSeen | src/PurchaseOrderReport.js:58-61 | When the order's key already has a group, the step adds the order's quantity to that group's total and changes nothing else. |
| Grouping.AddOrderNew | src/PurchaseOrderReport.js:58-61 | When the order's key is new, the step appends one group holding a copy of the order, with the order's quantity as its total. |
| Grouping.StepShape | src/PurchaseOrderReport.js:58-61 | The last order either adds to the existing group with its key (the count is unchanged) or opens a new last group holding that order with its own quantity. Every earlier group keeps its representative. |
| Grouping.QuantityConserved | src/PurchaseOrderReport.js:56-63 | The totals over all groups add up to the total quantity of the orders. |
| Grouping.GroupTotalsAreKeySums | src/PurchaseOrderReport.js:58-61 | Each group's total is the sum of the quantities of exactly the orders with its key. |
| Grouping.RepIsFirstWithKey | src/PurchaseOrderReport.js:58-59 | Each group's fields are copied from the first order with its key. |
| Grouping.GroupsInFirstAppearanceOrder | src/PurchaseOrderReport.js:56-63 | Groups are listed in the order their keys first appear among the orders. |
| Grouping.GroupCountIsKeyCount | src/PurchaseOrderReport.js:56-63 | There are exactly as many groups as distinct keys. |
| Grouping.DistinctKeysCount | src/PurchaseOrderReport.js:56-63 | A group list with distinct keys has as many keys as groups. |
| Grouping.OrderKeysBound | src/PurchaseOrderReport.js:56-63 | There are no more distinct keys than orders. |
| Grouping.GroupsAtMostOrders | src/PurchaseOrderReport.js:56-63 | The report has at most as many rows as there are filtered orders. |
| Grouping.ZeroQuantityOrderOpensGroup | src/PurchaseOrderReport.js:58-61 | An order with quantity 0 and an unseen key still opens its own group, with total 0. |
| Grouping.KeyCollisionMergesGroups | src/PurchaseOrderReport.js:57 | Orders with different product codes and statuses but the same joined key fall into one group. |
| Grouping.CutAtLastDashJoin | src/PurchaseOrderReport.js:57 | Cutting a joined key at its last `-` recovers both parts, provided the right part has no `-`. |
| Grouping.GroupKeyInjective | src/PurchaseOrderReport.js:57 | When statuses and stores contain no `-`, two orders have the same key exactly when they agree on product code, status and store. |
| Grouping.GroupsAreSingleTriples | src/PurchaseOrderReport.js:56-63 | When statuses and stores contain no `-`, every order carrying a group's key has that group's product code, status and store, so no row merges two field triples. |
| Grouping.ReportRows | src/PurchaseOrderReport.js:44-63 | The rows' totals add up to the filtered orders' quantity. Every row's representative is a listed order that matches the criteria. The rows' keys are exactly the filtered orders' keys. |
| Presets.SaveFilter | src/PurchaseOrderReport.js:65-86 | With no edit session, one preset is appended holding the fresh id, the typed name and the live criteria, and earlier presets are untouched. With an edit session, every preset with the edited id takes the typed name and the live criteria, and all others are unchanged. Either way the name is cleared, the dialog closes, the edit session ends, and ids stay unique. |
| Presets.ApplyFilter | src/PurchaseOrderReport.js:88-93 | The preset's criteria replace all live criteria, and nothing else changes. |
| Presets.EditFilter | src/PurchaseOrderReport.js:95-99 | The preset becomes the one under edit, its name fills the dialog, the dialog opens, and criteria and presets are unchanged. |
| Presets.DeleteFilter | src/PurchaseOrderReport.js:101-103 | The remaining presets are a subsequence of the old list (order kept), a preset remains iff it was listed and has a different id, and nothing else changes; `Presets.DeleteFilterCounts` adds the multiplicities. The edit session is left as it is. |
| Presets.ClearFilters | src/PurchaseOrderReport.js:105-110 | Every criterion becomes a wildcard, and nothing else changes. |
| Presets.OpenDialog | src/PurchaseOrderReport.js:153 | The toolbar's save button only opens the dialog. |
| Presets.CancelDialog | src/PurchaseOrderReport.js:167 | Cancel only closes the dialog. The typed name and the edit session stay. |
| Presets.ClearShowsAllOrders | src/PurchaseOrderReport.js:105-110 | After clearing, the report shows every order, unchanged and in order. |
| Presets.SaveThenApplyRestoresCriteria | src/PurchaseOrderReport.js:74-92 | Applying a newly saved preset, in any later state, restores the criteria that were live when it was saved. |
| Presets.EditSaveThenApplyRestoresCriteria | src/PurchaseOrderReport.js:66-92 | Applying a preset after an edit-save restores the criteria that were live at that save. |
| Presets.SaveThenDeleteRestoresList | src/PurchaseOrderReport.js:74-103 | Deleting a freshly saved preset by its id gives back the previous list. |
| Presets.DeleteFilterCounts | src/PurchaseOrderReport.js:101-103 | After a delete, every preset with another id is listed as many times as before, and no preset with the deleted id remains. |
| Presets.DeleteFilterIdempotent | src/PurchaseOrderReport.js:101-103 | Deleting the same id twice is the same as deleting it once. |
| Presets.DeleteAbsentIsNoOp | src/PurchaseOrderReport.js:101-103 | Deleting an id no preset has changes nothing. |
| Presets.DeletePresentRemovesOne | src/PurchaseOrderReport.js:101-103 | With unique ids, deleting a listed preset's id removes exactly one preset. |
| Presets.SaveAfterDeletingEditedPreset | src/PurchaseOrderReport.js:66-72 | After deleting the preset under edit, the edit session survives. A later save then neither updates nor adds a preset, though it still clears the name and ends the session. |
| Presets.CancelKeepsEditSession | src/PurchaseOrderReport.js:167 | Cancelling the edit dialog closes it but keeps the edit session. |
| Presets.OpenThenCancelRestores | src/PurchaseOrderReport.js:153-167 | Opening the dialog and cancelling it gives back the state it started from, if the dialog was closed. |
| Presets.DeleteFilterPreservesValid | src/PurchaseOrderReport.js:101-103 | Deleting presets keeps the remaining ids unique. |
| Presets.InitialIsValid | src/PurchaseOrderReport.js:30-38 | The view starts with unique preset ids and all criteria blank, so once the filter effect has run every order is shown. |
| Presets.HandlersPreserveValid | src/PurchaseOrderReport.js:65-110 | Every report handler keeps preset ids unique, given a fresh id for a new preset. |
| ProductCatalog.AddCatalog | src/ProductoCatalog.js:38-48 | A blank name (all white space) changes nothing. Otherwise a catalog with that name as typed, the fresh id and no products is appended, earlier catalogs stay in place, the name field is cleared, and the selection and product form are unchanged. |
| ProductCatalog.DeleteCatalog | src/ProductoCatalog.js:50-55 | The remaining catalogs are a subsequence of the old list (order kept), and a catalog remains iff it was listed and has a different id; `ProductCatalog.DeleteCatalogCounts` adds the multiplicities. The selection is dropped exactly when it has that id and is otherwise kept. |
| ProductCatalog.DeleteCatalogCounts | src/ProductoCatalog.js:50-51 | After a delete, every catalog with another id is listed as many times as before, and none with the deleted id remains. |
| ProductCatalog.SelectCatalog | src/ProductoCatalog.js:57-59 | The catalog becomes the selection, and nothing else changes. |
| ProductCatalog.WriteBack | src/ProductoCatalog.js:70-75 | Every list entry with the selection's id is replaced by the updated copy, the others are kept, and the copy becomes the selection. |
| ProductCatalog.AddProduct | src/ProductoCatalog.js:61-78 | Without a selection, or with a blank product name, nothing changes. Otherwise (the only case that mints an id, so the only one that needs a fresh one) the draft with the fresh id is appended to the selected catalog's products. That catalog replaces every list entry with its id and becomes the selection, and the form is emptied. |
| ProductCatalog.DeleteProduct | src/ProductoCatalog.js:80-93 | The selected catalog's products become a subsequence of the old ones (order kept), a product remains iff it was there and has a different id, and the catalog's other fields are kept; `ProductCatalog.DeleteProductCounts` adds the multiplicities. It replaces every list entry with its id and stays selected. Other catalogs and the forms are unchanged. |
| ProductCatalog.DeleteProductCounts | src/ProductoCatalog.js:80-86 | After a delete, the selected catalog lists every product with another id as many times as before, and none with the deleted id. |
| ProductCatalog.SelectionIsListEntry | src/ProductoCatalog.js:57-59 | Under the editor's invariant, the selection equals the list entry with its id. |
| ProductCatalog.SelectEstablishesValid | src/ProductoCatalog.js:57-59 | Selecting a listed catalog establishes the invariant: unique ids, and the selection is listed. |
| ProductCatalog.AddCatalogPreservesValid | src/ProductoCatalog.js:38-48 | Adding a catalog with a fresh id keeps the invariant. |
| ProductCatalog.DeleteCatalogPreservesValid | src/ProductoCatalog.js:50-55 | Deleting a catalog keeps the invariant. |
| ProductCatalog.WriteBackPreservesValid | src/ProductoCatalog.js:70-75 | Copying the updated selection back keeps the invariant. |
| ProductCatalog.AddProductPreservesValid | src/ProductoCatalog.js:61-78 | Adding a product keeps the invariant. |
| ProductCatalog.DeleteProductPreservesValid | src/ProductoCatalog.js:80-93 | Deleting a product keeps the invariant. |
| ProductCatalog.AddThenDeleteCatalogRestores | src/ProductoCatalog.js:38-55 | Adding a catalog and then deleting it by its id gives back the list and the selection. |
| ProductCatalog.AddThenDeleteProductRestores | src/ProductoCatalog.js:61-93 | Adding a product and then deleting it by its id gives back the catalog list and the selection. |
| ProductCatalog.DeleteCatalogIdempotent | src/ProductoCatalog.js:50-55 | Deleting the same catalog id twice is the same as deleting it once. |
| Seqs.Filter | src/PurchaseOrderReport.js:102 | `filter` keeps exactly the accepted elements, in their order. |
| Seqs.FilterCounts | src/PurchaseOrderReport.js:102 | `filter` keeps each accepted value as many times as it occurs, and no rejected value. |
| Seqs.MapWhere | src/PurchaseOrderReport.js:67-71 | The conditional `map` keeps the length, replaces each selected element by its image, and keeps the rest. |
| Seqs.FirstIndex | src/PurchaseOrderReport.js:58 | Gives the first accepted index, or none when nothing is accepted. |

## Left out

- **Filter effect timing.** `filteredOrders` (src/PurchaseOrderReport.js:41) is not part of the modelled state. The source starts it as `[]` and fills it in an effect that runs after a render (lines 43-54), and the reduce at line 56 groups whatever it holds at that moment. So the first render shows no rows, and after each change of criteria the rows lag one render behind. `Presets.Visible` and `Grouping.ReportRows` give the rows the view shows once the effect has run.
- **Rendering.** The JSX markup, CSS classes and the status-to-colour mapping are display only.
- **Date picker.** `DatePickerWithRange` and the parsing of order dates with `new Date(...)` are left out. Dates are day numbers, so time-of-day and time-zone offsets between a parsed date string and a picked date are not modelled.
- **Loading.** The `useEffect` that loads mock catalogs, and the initial order list, are I/O. The model's functions take the lists as parameters.
- **Invalid dates.** The model has no invalid date bound. Clearing a date input after a date was picked stores `new Date("")`, an Invalid Date. That value is truthy and every comparison with it is false, so the source then shows no orders. `DateRange` holds only an absent bound or a day number, so it cannot express that state.
- **Ids.** `Date.now()` ids are parameters that must be fresh. Two clicks in the same millisecond would produce equal ids; that case is not modelled.
- **PDF export.** `exportToPDF`, `handleExportToPDF` and the `isExporting` flag are an asynchronous foreign call with alerts.
- **Central-office flag.** `isUserFromCentralOffice` only hides the store selector; the filter logic is the same either way.
- **Field setters.** The criteria and form setters (the `onChange` handlers) each replace one field with the text typed. They are plain record updates.
- Text.Lower: lowercases ASCII letters only. Unicode case mapping, such as `İ` becoming two code units, is not modelled.
- Text.Trim: works on Dafny characters (Unicode scalar values). Lone UTF-16 surrogates cannot appear.
- Grouping.QuantityConserved: quantities are unbounded integers, not IEEE doubles. Rounding beyond 2^53 and string concatenation when a quantity is not a number are not modelled.
- Grouping.GroupOrders: models `acc` as a list of groups in insertion order. This matches `Object.values` only because a key always contains `-`, so it is never an array index. For the same reason a key never names an `Object.prototype` member, so `!acc[key]` is false only after the key was inserted.
- ProductCatalog.DeleteProduct: requires a selection. With none, the source would throw a TypeError; the delete buttons are shown only for the selected catalog's products.
- ProductCatalog.AddCatalog: the new catalog's name is stored as typed, untrimmed, as in the source. Only the blank check uses `trim`.
