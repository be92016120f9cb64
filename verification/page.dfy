/** The state logic of the `ProductsPage` component: the values it keeps in
    `useState` and the handlers that replace them. Each handler is one atomic
    transition from the current state to the next; rendering is not part of
    the model. */
module ProductsPage {
  import opened Seqs
  import opened Text
  import opened Catalog
  import opened Sorting

  /** Everything the page keeps between renders. */
  datatype State = State(
    products: seq<Product>,
    filter: string,
    sortOrder: SortOrder,
    productTypeFilter: string,
    newProduct: Draft,
    showAddProductForm: bool)

  /** The state of a freshly mounted page. */
  const Initial: State := State(Seeded, "", Asc, "", EmptyDraft, false)

  /** `handleAddProduct`: the draft is committed at the end of the list under
      id `products.length + 1`, the draft is cleared and the form hidden. */
  function HandleAddProduct(s: State): (t: State)
    ensures |t.products| == |s.products| + 1
    ensures t.products[..|s.products|] == s.products
    ensures t.products[|s.products|].id == |s.products| + 1
    ensures Draft(t.products[|s.products|].name, t.products[|s.products|].price,
                  t.products[|s.products|].stock, t.products[|s.products|].productType) == s.newProduct
    ensures t.newProduct == Draft("", 0.0, 0, "")
    ensures !t.showAddProductForm
    ensures t.filter == s.filter && t.sortOrder == s.sortOrder && t.productTypeFilter == s.productTypeFilter
  {
    var added := s.products + [Commit(s.newProduct, |s.products| + 1)];
    assert added[..|s.products|] == s.products;
    s.(products := added, newProduct := EmptyDraft, showAddProductForm := false)
  }

  /** `handleSort(key)`: the list is sorted on `key` in the current direction
      and the direction flips, whichever key was clicked. */
  function HandleSort(s: State, key: SortKey): (t: State)
    ensures multiset(t.products) == multiset(s.products)
    ensures s.sortOrder == Asc ==>
      forall i, j :: 0 <= i < j < |t.products| ==> SortValue(key, t.products[i]) <= SortValue(key, t.products[j])
    ensures s.sortOrder == Desc ==>
      forall i, j :: 0 <= i < j < |t.products| ==> SortValue(key, t.products[i]) >= SortValue(key, t.products[j])
    ensures t.sortOrder != s.sortOrder
    ensures t.filter == s.filter && t.productTypeFilter == s.productTypeFilter
    ensures t.newProduct == s.newProduct && t.showAddProductForm == s.showAddProductForm
  {
    var sorted := SortBy(s.products, s.sortOrder, key);
    SortedMeaning(sorted, s.sortOrder, key);
    SortByPermutes(s.products, s.sortOrder, key);
    s.(products := sorted, sortOrder := Flip(s.sortOrder))
  }

  /** The delete handler's test: the product does not carry `productId`. */
  function OtherThan(productId: int): Product -> bool {
    (p: Product) => p.id != productId
  }

  /** `handleDeleteProduct(productId)`: every product carrying the id is
      dropped; the others stay, in order. */
  function HandleDeleteProduct(s: State, productId: int): (t: State)
    ensures forall i :: 0 <= i < |t.products| ==> t.products[i].id != productId
    ensures forall p :: p in s.products && p.id != productId ==> p in t.products
    ensures forall p :: p in t.products ==> p in s.products
    ensures IsSubsequence(t.products, s.products)
    ensures t.filter == s.filter && t.sortOrder == s.sortOrder && t.productTypeFilter == s.productTypeFilter
    ensures t.newProduct == s.newProduct && t.showAddProductForm == s.showAddProductForm
  {
    var kept := Filter(s.products, OtherThan(productId));
    FilterMembers(s.products, OtherThan(productId));
    FilterIsSubsequence(s.products, OtherThan(productId));
    s.(products := kept)
  }

  /** The per-product test of the filtered view: the lowered name includes the
      lowered name filter, and an empty type filter lets every type through
      while a non-empty one must equal the type exactly. */
  predicate Matches(filter: string, productTypeFilter: string, p: Product) {
    Includes(Lower(p.name), Lower(filter))
    && (productTypeFilter == "" || p.productType == productTypeFilter)
  }

  function MatchesFilters(filter: string, productTypeFilter: string): Product -> bool {
    (p: Product) => Matches(filter, productTypeFilter, p)
  }

  /** `filteredProducts`: the rows the table shows, derived from the state and
      never stored. */
  function FilteredProducts(s: State): (r: seq<Product>)
    ensures IsSubsequence(r, s.products)
    ensures forall p :: p in r <==> p in s.products && Matches(s.filter, s.productTypeFilter, p)
  {
    var keep := MatchesFilters(s.filter, s.productTypeFilter);
    FilterMembers(s.products, keep);
    FilterIsSubsequence(s.products, keep);
    Filter(s.products, keep)
  }

  /** The toggle button: the form's visibility flips and the draft survives. */
  function ToggleAddProductForm(s: State): (t: State)
    ensures t.showAddProductForm != s.showAddProductForm
    ensures t.products == s.products && t.newProduct == s.newProduct
    ensures t.filter == s.filter && t.sortOrder == s.sortOrder && t.productTypeFilter == s.productTypeFilter
  {
    s.(showAddProductForm := !s.showAddProductForm)
  }

  /** What the page's controls can do to the state. */
  datatype Event =
    | AddClicked
    | DeleteClicked(productId: int)
    | HeaderClicked(key: SortKey)
    | ToggleClicked
    | FilterTyped(text: string)
    | TypeSelected(productType: string)
    | DraftEdited(draft: Draft)

  /** One user action. The filter and draft inputs store what was entered.
      Each part of the state has its own controls: only an add or a delete
      changes which products are listed (a sort reorders them), only a header
      click changes the direction, only the filter inputs change the filters,
      only the draft inputs and an add change the draft, and only the toggle
      and an add change the form's visibility. */
  function Step(s: State, e: Event): (t: State)
    ensures !e.AddClicked? && !e.DeleteClicked? ==> multiset(t.products) == multiset(s.products)
    ensures !e.HeaderClicked? ==> t.sortOrder == s.sortOrder
    ensures !e.FilterTyped? && !e.TypeSelected? ==> t.filter == s.filter && t.productTypeFilter == s.productTypeFilter
    ensures !e.AddClicked? && !e.DraftEdited? ==> t.newProduct == s.newProduct
    ensures !e.AddClicked? && !e.ToggleClicked? ==> t.showAddProductForm == s.showAddProductForm
  {
    match e
    case AddClicked => HandleAddProduct(s)
    case DeleteClicked(id) => HandleDeleteProduct(s, id)
    case HeaderClicked(key) => HandleSort(s, key)
    case ToggleClicked => ToggleAddProductForm(s)
    case FilterTyped(text) => s.(filter := text)
    case TypeSelected(t) => s.(productTypeFilter := t)
    case DraftEdited(d) => s.(newProduct := d)
  }

  /** A sequence of user actions, applied in order. A run without an add or a
      delete lists the same products, and a run without a header click keeps
      the direction. */
  function Run(s: State, es: seq<Event>): (t: State)
    ensures (forall i :: 0 <= i < |es| ==> !es[i].AddClicked? && !es[i].DeleteClicked?) ==>
              multiset(t.products) == multiset(s.products)
    ensures (forall i :: 0 <= i < |es| ==> !es[i].HeaderClicked?) ==> t.sortOrder == s.sortOrder
    decreases |es|
  {
    if |es| == 0 then s
    else
      assert forall i :: 0 <= i < |es[1..]| ==> es[1..][i] == es[i + 1];
      Run(Step(s, es[0]), es[1..])
  }

  /** The values the two type selects offer (page.js:89-92, 133-136). */
  const TypeOptions: set<string> := {"", "cosmetics", "dresses", "electronics"}

  /** The control behind the event is on screen: the draft inputs and the Add
      Product button only while the form is shown, a Delete button only on a
      row of the filtered view, and the type selects offer only their
      options. */
  predicate Rendered(s: State, e: Event) {
    match e
    case AddClicked => s.showAddProductForm
    case DraftEdited(d) => s.showAddProductForm && d.productType in TypeOptions
    case DeleteClicked(id) => exists p :: p in FilteredProducts(s) && p.id == id
    case TypeSelected(t) => t in TypeOptions
    case _ => true
  }

  /** A run a user can perform: every event's control is on screen when the
      event happens. */
  predicate Performable(s: State, es: seq<Event>)
    decreases |es|
  {
    |es| == 0 || (Rendered(s, es[0]) && Performable(Step(s, es[0]), es[1..]))
  }

  // ---------------------------------------------------------------------
  // Delete

  /** Delete keeps exactly the products with another id, every occurrence of
      them, in their original order, and is the only list that does. */
  lemma DeleteIsExact(s: State, productId: int)
    ensures IsSubsequence(HandleDeleteProduct(s, productId).products, s.products)
    ensures forall p :: multiset(HandleDeleteProduct(s, productId).products)[p] ==
                        if p.id != productId then multiset(s.products)[p] else 0
    ensures forall r :: IsSubsequence(r, s.products)
                     && (forall p: Product :: multiset(r)[p] == if p.id != productId then multiset(s.products)[p] else 0)
                     ==> r == HandleDeleteProduct(s, productId).products
  {
    var f := OtherThan(productId);
    FilterCounts(s.products, f);
    forall r | IsSubsequence(r, s.products)
               && (forall p: Product :: multiset(r)[p] == if p.id != productId then multiset(s.products)[p] else 0)
      ensures r == HandleDeleteProduct(s, productId).products
    {
      FilterUnique(r, s.products, f);
    }
  }

  /** Deleting an id no product carries changes nothing. */
  lemma DeleteMissingIdIsNoOp(s: State, productId: int)
    requires forall i :: 0 <= i < |s.products| ==> s.products[i].id != productId
    ensures HandleDeleteProduct(s, productId) == s
  {
    FilterAllKept(s.products, OtherThan(productId));
  }

  /** Deleting the same id twice is deleting it once. */
  lemma DeleteIdempotent(s: State, productId: int)
    ensures HandleDeleteProduct(HandleDeleteProduct(s, productId), productId) == HandleDeleteProduct(s, productId)
  {
    FilterIdempotent(s.products, OtherThan(productId));
  }

  /** After a delete no row of any filtered view carries the deleted id. */
  lemma DeleteHidesFromView(s: State, productId: int, filter: string, productTypeFilter: string)
    ensures forall p :: p in FilteredProducts(HandleDeleteProduct(s, productId).(filter := filter, productTypeFilter := productTypeFilter))
                        ==> p.id != productId
  {
  }

  // ---------------------------------------------------------------------
  // Filtered view

  /** The view holds every occurrence of a matching product and nothing else,
      in list order, and is the only such subsequence. */
  lemma FilteredIsExact(s: State)
    ensures forall p :: multiset(FilteredProducts(s))[p] ==
                        if Matches(s.filter, s.productTypeFilter, p) then multiset(s.products)[p] else 0
    ensures forall r :: IsSubsequence(r, s.products)
                     && (forall p :: multiset(r)[p] == if Matches(s.filter, s.productTypeFilter, p) then multiset(s.products)[p] else 0)
                     ==> r == FilteredProducts(s)
  {
    var f := MatchesFilters(s.filter, s.productTypeFilter);
    FilterCounts(s.products, f);
    forall r | IsSubsequence(r, s.products)
               && (forall p :: multiset(r)[p] == if Matches(s.filter, s.productTypeFilter, p) then multiset(s.products)[p] else 0)
      ensures r == FilteredProducts(s)
    {
      FilterUnique(r, s.products, f);
    }
  }

  /** With both filters empty the view is the whole list in its current
      order. */
  lemma NoFiltersShowAll(s: State)
    requires s.filter == "" && s.productTypeFilter == ""
    ensures FilteredProducts(s) == s.products
  {
    forall i | 0 <= i < |s.products|
      ensures MatchesFilters(s.filter, s.productTypeFilter)(s.products[i])
    {
      IncludesEmpty(Lower(s.products[i].name));
    }
    FilterAllKept(s.products, MatchesFilters(s.filter, s.productTypeFilter));
  }

  /** The name filter ignores case: filters that lower to the same text give
      the same view. */
  lemma FilterIgnoresCase(s: State, text: string)
    requires Lower(text) == Lower(s.filter)
    ensures FilteredProducts(s.(filter := text)) == FilteredProducts(s)
  {
    FilterSameTest(s.products, MatchesFilters(text, s.productTypeFilter), MatchesFilters(s.filter, s.productTypeFilter));
  }

  /** Typing a filter or choosing a type never touches the list. */
  lemma FilterInputsKeepProducts(s: State, text: string)
    ensures Step(s, FilterTyped(text)).products == s.products
    ensures Step(s, TypeSelected(text)).products == s.products
    ensures Step(s, FilterTyped(text)).filter == text
    ensures Step(s, TypeSelected(text)).productTypeFilter == text
  {
  }

  /** "ap" does not occur in "banana". */
  lemma BananaLacksAp()
    ensures !Includes("banana", "ap")
  {
    assert !Includes("a", "ap");
    assert "na"[..2][0] == 'n';
    assert !Includes("na", "ap");
    assert "ana"[..2][1] == 'n';
    assert !Includes("ana", "ap");
    assert "nana"[..2][0] == 'n';
    assert !Includes("nana", "ap");
    assert "anana"[..2][1] == 'n';
    assert !Includes("anana", "ap");
    assert "banana"[..2][0] == 'b';
  }

  /** The three strings of the example, lowered. */
  lemma LowerExample()
    ensures Lower("AP") == "ap" && Lower("Apple") == "apple" && Lower("banana") == "banana"
  {
    assert Lower("AP") == "ap";
    assert Lower("Apple") == "apple";
  }

  /** "Apple" and "banana" filtered by "AP": only "Apple" is shown. */
  lemma FilterExample()
    ensures
      var apple := Product(1, "Apple", 1.0, 1, "");
      var banana := Product(2, "banana", 1.0, 1, "");
      FilteredProducts(Initial.(products := [apple, banana], filter := "AP")) == [apple]
  {
    var apple := Product(1, "Apple", 1.0, 1, "");
    var banana := Product(2, "banana", 1.0, 1, "");
    LowerExample();
    assert Includes("apple", "ap");
    BananaLacksAp();
    var s := Initial.(products := [apple, banana], filter := "AP");
    var f := MatchesFilters(s.filter, s.productTypeFilter);
    assert f(apple) && !f(banana);
    assert Filter([banana], f) == [];
  }

  // ---------------------------------------------------------------------
  // Sort

  /** The direction is one flag shared by every column: two header clicks in
      a row, on any columns, restore it, and one click always flips it. */
  lemma SortDirectionIsShared(s: State, k1: SortKey, k2: SortKey)
    ensures HandleSort(s, k1).sortOrder == HandleSort(s, k2).sortOrder
    ensures HandleSort(HandleSort(s, k1), k2).sortOrder == s.sortOrder
  {
  }

  /** Two clicks on the price header from an ascending state sort by price
      ascending and then descending. */
  lemma PriceTwice(s: State)
    requires s.sortOrder == Asc
    ensures var once := HandleSort(s, Price).products;
            forall i, j :: 0 <= i < j < |once| ==> once[i].price <= once[j].price
    ensures var twice := HandleSort(HandleSort(s, Price), Price).products;
            forall i, j :: 0 <= i < j < |twice| ==> twice[i].price >= twice[j].price
    ensures multiset(HandleSort(HandleSort(s, Price), Price).products) == multiset(s.products)
  {
  }

  /** The sorted list is what every stable sort produces: products with equal
      keys keep their relative order, and no other sorted list does that. */
  lemma SortIsTheStableSort(s: State, key: SortKey)
    ensures forall v :: Filter(HandleSort(s, key).products, WithValue(key, v)) == Filter(s.products, WithValue(key, v))
    ensures forall r :: Sorted(r, s.sortOrder, key)
                     && (forall v :: Filter(r, WithValue(key, v)) == Filter(s.products, WithValue(key, v)))
                     ==> r == HandleSort(s, key).products
  {
    forall v ensures Filter(HandleSort(s, key).products, WithValue(key, v)) == Filter(s.products, WithValue(key, v)) {
      SortIsStable(s.products, s.sortOrder, key, v);
    }
    forall r | Sorted(r, s.sortOrder, key)
               && (forall v :: Filter(r, WithValue(key, v)) == Filter(s.products, WithValue(key, v)))
      ensures r == HandleSort(s, key).products
    {
      StableSortIsUnique(r, s.products, s.sortOrder, key);
    }
  }

  /** A click on the name or type header leaves the rows in place. The
      comparator subtracts two strings; when no two of the column's texts
      convert to different numbers, every difference is NaN or 0, the sort
      reads both as "equal", and a stable sort keeps the order. */
  lemma TextHeaderKeepsOrder(s: State, key: SortKey)
    requires key == Name || key == Type
    ensures HandleSort(s, key).products == s.products
  {
    SortOnTextKeepsOrder(s.products, s.sortOrder, key);
  }

  // ---------------------------------------------------------------------
  // Add form

  /** Toggling twice restores the state, draft included. */
  lemma ToggleTwiceRestores(s: State)
    ensures ToggleAddProductForm(ToggleAddProductForm(s)) == s
  {
  }

  /** Spelled-out example: a draft added to a three-product list becomes the
      fourth product, id 4, and the form is reset. */
  lemma AddExample()
    ensures
      var d := Draft("X", 12.5, 3, "dresses");
      var t := HandleAddProduct(Initial.(newProduct := d, showAddProductForm := true));
      t.products == Seeded + [Product(4, "X", 12.5, 3, "dresses")]
      && t.newProduct == EmptyDraft && !t.showAddProductForm
  {
  }

  // ---------------------------------------------------------------------
  // Ids

  /** Ids are unique and lie in 1 .. the list's length, so `length + 1` is
      fresh. */
  predicate IdsAreOneToN(ps: seq<Product>) {
    UniqueIds(ps) && forall i :: 0 <= i < |ps| ==> 1 <= ps[i].id <= |ps|
  }

  /** Adding keeps ids in 1 .. n: the new id `length + 1` is above every id
      in use. */
  lemma AddKeepsIdsOneToN(s: State)
    requires IdsAreOneToN(s.products)
    ensures IdsAreOneToN(HandleAddProduct(s).products)
  {
    var ps := s.products;
    var p := Commit(s.newProduct, |ps| + 1);
    assert p.id !in IdsOf(ps);
    UniqueIdsSnoc(ps, p);
    assert HandleAddProduct(s).products == ps + [p];
  }

  /** Sorting keeps ids in 1 .. n. */
  lemma SortKeepsIdsOneToN(s: State, key: SortKey)
    requires IdsAreOneToN(s.products)
    ensures IdsAreOneToN(HandleSort(s, key).products)
  {
    var ps := s.products;
    SortKeepsUniqueIds(ps, s.sortOrder, key);
    var qs := SortBy(ps, s.sortOrder, key);
    forall i | 0 <= i < |qs| ensures 1 <= qs[i].id <= |qs| {
      assert qs[i].id in IdsOf(ps);
      var k :| 0 <= k < |ps| && ps[k].id == qs[i].id;
    }
  }

  /** Without deletes, ids stay in 1 .. n: add, sort, toggle and the inputs
      all keep that, so `length + 1` is always fresh. */
  lemma StepWithoutDeleteKeepsIds(s: State, e: Event)
    requires IdsAreOneToN(s.products)
    requires !e.DeleteClicked?
    ensures IdsAreOneToN(Step(s, e).products)
  {
    match e
    case AddClicked => AddKeepsIdsOneToN(s);
    case HeaderClicked(key) => SortKeepsIdsOneToN(s, key);
    case _ =>
  }

  /** Any run without a delete from a state with ids 1 .. n keeps ids unique. */
  lemma {:induction false} RunWithoutDeleteKeepsIds(s: State, es: seq<Event>)
    requires IdsAreOneToN(s.products)
    requires forall i :: 0 <= i < |es| ==> !es[i].DeleteClicked?
    ensures IdsAreOneToN(Run(s, es).products)
    ensures UniqueIds(Run(s, es).products)
    decreases |es|
  {
    if |es| > 0 {
      StepWithoutDeleteKeepsIds(s, es[0]);
      RunWithoutDeleteKeepsIds(Step(s, es[0]), es[1..]);
    }
  }

  /** The freshly mounted page lists the three seeded products in their
      seeded order, ascending, with an empty draft and the form hidden. */
  lemma InitialView()
    ensures FilteredProducts(Initial) == Initial.products == Seeded
    ensures |Seeded| == 3 && forall i :: 0 <= i < 3 ==> Seeded[i].id == i + 1
    ensures Initial.sortOrder == Asc && !Initial.showAddProductForm
    ensures Initial.newProduct == Draft("", 0.0, 0, "")
  {
    NoFiltersShowAll(Initial);
  }

  /** The seeded list carries ids 1, 2, 3. */
  lemma InitialIdsAreOneToN()
    ensures IdsAreOneToN(Initial.products)
  {
  }
}
