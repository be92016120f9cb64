# Product dashboard: state model of `ProductsPage`

This project models the state logic of the `ProductsPage` React component of
the product dashboard. The component keeps a list of products, a name filter,
a type filter, one shared sort direction, an add-form draft and the form's
visibility. Its handlers replace that state:

- `handleAddProduct` appends the draft under id `products.length + 1`, clears
  the draft and hides the form.
- `handleSort(key)` sorts a copy of the list with the comparator
  `a[key] - b[key]` (or `b[key] - a[key]` when descending) and flips the
  direction.
- `handleDeleteProduct(id)` keeps the products whose id differs.
- `filteredProducts` is the view the table shows: lowered name includes the
  lowered filter, and the type equals the type filter unless that is empty.
- The toggle button flips the form's visibility.

Each handler is a pure function from one `ProductsPage.State` to the next. The
modules are:

- `Seqs`: JavaScript's `Array.prototype.filter` and the subsequence relation.
- `Text`: `toLowerCase` for ASCII and `includes`.
- `Catalog`: products, drafts, the seeded list and id bookkeeping.
- `Sorting`: the sort as a stable insertion sort, and a proof that it is the
  only stable sort.
- `ProductsPage`: the state, the handlers, the view and the user-action
  machine `Step` / `Run`.
- `IdFinding`: the duplicate-id defect and its correction.

Three behaviours of the code that a reader might not expect, and that the
model keeps:

- Delete removes every product carrying the id, not only the first.
- A click on the name or type header does not sort the rows
  lexicographically. The comparator subtracts two strings, which converts
  both to numbers: a text that is not a number gives NaN and the empty text
  gives 0. The sort reads NaN as "equal". So when no two texts of the column
  convert to different numbers, every difference is NaN or 0, every pair
  compares equal, and the stable sort leaves the rows where they were. The
  type values the selects offer (`''`, `cosmetics`, `dresses`,
  `electronics`) always meet that condition; names need not (see Left out).
- Ids are not guaranteed unique (see Findings).

## Model

| member | source | states |
|---|---|---|
| Catalog.Commit | page.js:26-31 | The committed product has the given id, and dropping the id gives back the draft: `{ id, ...newProduct }` |
| ProductsPage.HandleAddProduct | page.js:24-35 | Exactly one product is appended at the end and the earlier products are unchanged. Its id is the old length + 1 and its fields are the draft's. The draft becomes `''`/0/0/`''`, the form is hidden and the filters and direction are kept |
| ProductsPage.AddExample | page.js:24-34 | Draft {X, 12.5, 3, dresses} on the three seeded products becomes product 4 at the end, and the draft and form are reset |
| ProductsPage.HandleSort | page.js:37-43 | The result is a permutation of the list. It is non-decreasing by the key when the direction was ascending and non-increasing when it was descending. The direction flips and nothing else changes |
| ProductsPage.SortDirectionIsShared | page.js:42 | The new direction does not depend on which header was clicked, and two clicks on any headers restore it |
| ProductsPage.PriceTwice | page.js:37-42 | From ascending, two price clicks give a price-ascending list and then a price-descending one, still a permutation of the original |
| ProductsPage.SortIsTheStableSort | page.js:38-40 | Products with equal keys keep their relative order, and any sorted list that does this equals the handler's result |
| ProductsPage.TextHeaderKeepsOrder | page.js:38-39 | A click on the name or type header leaves the row order unchanged, because every difference of two texts is NaN or 0, which reads as equal |
| Sorting.CompareMeaning | page.js:39 | Ascending lets the smaller price or stock come first and descending the larger; a text column ties every pair; swapping the arguments negates the result |
| Sorting.SortBy | page.js:38-40 | The sorted copy has the list's length and every product may precede every later one under the comparator |
| Sorting.SortByPermutes | page.js:38 | The sorted copy holds the same products as the list, each as often |
| Sorting.InsertKeepsSorted | page.js:38-40 | Inserting a product into a sorted list keeps it sorted |
| Sorting.InsertPermutes | page.js:38 | Inserting adds one occurrence of the product and changes nothing else |
| Sorting.SortIsStable | page.js:38-40 | For every key value, the products with that value keep their relative order |
| Sorting.StableSortIsUnique | page.js:38-40 | Every sorted list that is stable with respect to the input is `SortBy` of it, so the insertion sort stands for any stable sort |
| Sorting.SortOnTextKeepsOrder | page.js:38-39 | Sorting on a text column returns the input unchanged |
| Sorting.SortKeepsUniqueIds | page.js:38 | Sorting keeps ids unique and keeps the set of ids in use |
| ProductsPage.HandleDeleteProduct | page.js:45-48 | No remaining product carries the id. Every product with another id remains, nothing new appears, the order is kept and the rest of the state is unchanged |
| ProductsPage.DeleteIsExact | page.js:46 | Every occurrence of a product with another id is kept, and no product with the id is. The result is the only order-preserving selection with these counts |
| ProductsPage.DeleteMissingIdIsNoOp | page.js:46-47 | Deleting an id that no product carries returns the same state |
| ProductsPage.DeleteIdempotent | page.js:45-47 | Deleting the same id twice equals deleting it once |
| ProductsPage.DeleteHidesFromView | page.js:45-55 | After a delete, no filtered view, under any filters, shows a product with the deleted id |
| ProductsPage.FilteredProducts | page.js:51-55 | The view is a subsequence of the list. A product is in it iff it is in the list and its lowered name includes the lowered filter and the type filter is empty or equals its type |
| ProductsPage.FilteredIsExact | page.js:51-55 | The view keeps every occurrence of a matching product and nothing else, and is the only order-preserving selection that does |
| ProductsPage.NoFiltersShowAll | page.js:52-53 | With both filters empty the view is the whole list in its current order |
| ProductsPage.FilterIgnoresCase | page.js:52 | Two name filters that lower to the same text give the same view |
| ProductsPage.FilterExample | page.js:51-55 | With products "Apple" and "banana" and filter "AP", the view is exactly ["Apple"] |
| ProductsPage.FilterInputsKeepProducts | page.js:79-86 | Typing a name filter or choosing a type stores the input and leaves the product list unchanged |
| ProductsPage.ToggleAddProductForm | page.js:98 | The form's visibility flips. The draft, the list, the filters and the direction are kept |
| ProductsPage.ToggleTwiceRestores | page.js:98 | Toggling twice gives back the original state, draft included |
| ProductsPage.AddKeepsIdsOneToN | page.js:25-32 | If ids are unique and lie in 1..n, they still do after an add |
| ProductsPage.RunWithoutDeleteKeepsIds | page.js:24-43 | On any run of actions without a delete, starting from unique ids in 1..n, ids stay unique and in 1..n |
| ProductsPage.InitialView | page.js:6-22 | The freshly mounted page shows the three seeded products, ids 1 to 3, in seeded order, with direction ascending, an empty draft and the form hidden |
| ProductsPage.Step | page.js:79-165 | Each part of the state has its own controls: only an add or a delete changes which products are listed, only a header click changes the direction, only the filter inputs change the filters, only the draft inputs and an add change the draft, and only the toggle and an add change the form's visibility |
| ProductsPage.Run | page.js:32-47 | A run of actions without an add or a delete lists the same products, each as often, and a run without a header click keeps the direction |
| ProductsPage.InitialIdsAreOneToN | page.js:6-10 | The seeded products carry the unique ids 1, 2 and 3 |
| IdFinding.DuplicateIdAfterDelete | page.js:25 | From the seeded page, deleting id 1, opening the form and adding gives the new product id 3, which duplicates product 3. A user can perform this run |
| IdFinding.FindingRunIsPerformable | page.js:104-165 | Every control of that run is on screen when it is used: product 1's Delete button, the toggle, and the Add Product button once the form is open |
| IdFinding.DeleteDropsBothDuplicates | page.js:46 | Once the duplicate exists, deleting id 3 removes both products that carry it |
| IdFinding.HandleAddProductFreshId | page.js:24-35 | Corrected add: the new id is above every id in use and not among them, uniqueness is kept, and otherwise it behaves like the add handler |
| IdFinding.RunFreshIdKeepsUniqueIds | page.js:24-48 | With the corrected add, every run of actions, deletes included, keeps ids unique |
| IdFinding.FreshIdOnTheFindingRun | page.js:25 | With the corrected add, the run from the finding gives the new product id 4 |
| IdFinding.FreshIdOnTheFindingRunIsUnique | page.js:25 | With the corrected add, ids stay unique on the run from the finding |
| IdFinding.FreshIdAgreesWithoutDeletes | page.js:25 | On runs without a delete, the corrected add gives the same states as the code as written |
| Text.Lower | page.js:52 | Lowering keeps the length, leaves no ASCII upper-case letter, moves each upper-case letter to its lower-case one and leaves every other character unchanged |
| Text.IncludesIff | page.js:52 | `includes` holds iff the needle occurs at some index of the haystack |
| Seqs.FilterUnique | page.js:46 | `filter` gives the only subsequence that holds every passing occurrence and nothing else |
| Seqs.FilterCounts | page.js:46 | `filter` keeps every occurrence of a passing value and drops every occurrence of a failing one |
| Seqs.FilterIsSubsequence | page.js:46 | `filter` keeps relative order |

## Left out

- Rendering (page.js:57-173): the JSX, CSS classes, the inputs and selects and the event wiring are presentation. Only the state writes of the filter inputs (lines 79 and 86) and of the draft inputs (lines 111-130) are modelled, as the `FilterTyped`, `TypeSelected` and `DraftEdited` events. `DraftEdited` replaces the whole draft.
- `parseFloat` / `parseInt` (page.js:29-30) and their NaN results: the draft holds an already parsed price (a `real`) and stock (an `int`). Malformed numeric input is not modelled.
- Floating-point arithmetic: prices are exact reals. The comparator's sign matches the real difference for finite IEEE doubles, so sort orders agree. Rounding of stored prices is not modelled.
- Ids are unbounded integers, not JavaScript numbers.
- Unicode `toLowerCase`: only ASCII letters are lowered.
- The engine's sorting algorithm: the model uses one stable insertion sort. `Sorting.StableSortIsUnique` shows that every stable sort gives the same result under this comparator.
- ProductsPage.TextHeaderKeepsOrder: this holds only when no two names (or types) of the list convert to different numbers, so that every difference is NaN or 0. Types chosen from the selects always meet this. Names need not: when every name is numeric, such as "12" and "3", the comparator is consistent and the code sorts the rows numerically; a numeric name next to the empty name of a default draft ("5" against "" gives 5) is ordered too; and numeric names mixed with non-numeric ones give a comparator that is not a consistent order, whose result depends on the engine. None of these cases is modelled.
- Sorting.SortOnTextKeepsOrder: this has the same condition as `TextHeaderKeepsOrder`: every text column is modelled as one constant value.
- ProductsPage.Step: does not check that the event's control is on screen (the Add Product button and draft inputs only while the form is shown, a Delete button only on a row of the filtered view). `ProductsPage.Rendered` and `ProductsPage.Performable` state that condition, the finding's run is proved performable, and every lemma about all runs holds for the performable ones in particular.
- React's batching of `setState` calls and re-render timing: each handler is one atomic transition.

## Findings

| source | as written | input that shows it | evidently intended | confidence | as-written member | corrected member |
|---|---|---|---|---|---|---|
| page.js:25 | A new product gets id `products.length + 1`, which repeats an id in use once any product has been deleted | On the seeded products 1, 2 and 3, delete id 1, open the add form and press Add Product: the new product gets id 3, like product 3. A later delete of id 3 removes both, and the table has two rows keyed 3 | Ids stay unique. Numbering the new product one above the largest id in use does this, and it matches the written code on every run without a delete | not executed; high | IdFinding.DuplicateIdAfterDelete | IdFinding.HandleAddProductFreshId |
