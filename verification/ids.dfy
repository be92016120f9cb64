/** Product ids. `handleAddProduct` numbers a new product `products.length + 1`,
    which is only fresh while no product has been deleted: after a delete the
    length undercounts the ids in use and the next add can reuse one. This
    module exhibits that on the seeded page and proves that numbering new
    products after the largest id in use keeps ids unique on every run. */
module IdFinding {
  import opened Seqs
  import opened Catalog
  import opened Sorting
  import opened ProductsPage

  /** Deleting id 1 from the seeded page leaves products 2 and 3. */
  lemma SeededWithoutOne()
    ensures HandleDeleteProduct(Initial, 1).products == [Seeded[1], Seeded[2]]
  {
    var f := OtherThan(1);
    assert !f(Seeded[0]) && f(Seeded[1]) && f(Seeded[2]);
    assert Filter(Seeded[2..], f) == [Seeded[2]];
    assert Seeded[1..][1..] == Seeded[2..];
    assert Filter(Seeded[1..], f) == [Seeded[1], Seeded[2]];
  }

  /** The run that exposes the defect: delete product 1, open the add form,
      press Add Product with the empty draft. */
  const FindingRun: seq<Event> := [DeleteClicked(1), ToggleClicked, AddClicked]

  /** The tails of a three-event list. */
  lemma TailsOfThree(e1: Event, e2: Event, e3: Event)
    ensures [e1, e2, e3][0] == e1 && [e1, e2, e3][1..] == [e2, e3]
    ensures [e2, e3][0] == e2 && [e2, e3][1..] == [e3]
    ensures [e3][0] == e3 && [e3][1..] == []
  {
  }

  /** A run of three actions is the three steps. */
  lemma RunThree(s: State, e1: Event, e2: Event, e3: Event)
    ensures Run(s, [e1, e2, e3]) == Step(Step(Step(s, e1), e2), e3)
  {
    TailsOfThree(e1, e2, e3);
    var s1 := Step(s, e1);
    var s2 := Step(s1, e2);
    assert Run(s2, [e3]) == Run(Step(s2, e3), []);
    assert Run(s1, [e2, e3]) == Run(s2, [e3]);
  }

  /** The page's state after each event of the finding run, as written. */
  lemma FindingRunSteps()
    ensures FindingRun == [DeleteClicked(1), ToggleClicked, AddClicked]
    ensures HandleDeleteProduct(Initial, 1).products == [Seeded[1], Seeded[2]]
    ensures ToggleAddProductForm(HandleDeleteProduct(Initial, 1)).showAddProductForm
    ensures Run(Initial, FindingRun)
            == HandleAddProduct(ToggleAddProductForm(HandleDeleteProduct(Initial, 1)))
  {
    SeededWithoutOne();
    RunThree(Initial, DeleteClicked(1), ToggleClicked, AddClicked);
  }

  /** As written, the finding run ends with the new product numbered 3. */
  lemma FindingRunResult()
    ensures Run(Initial, FindingRun).products == [Seeded[1], Seeded[2], Product(3, "", 0.0, 0, "")]
  {
    FindingRunSteps();
    var s2 := ToggleAddProductForm(HandleDeleteProduct(Initial, 1));
    assert s2.products == [Seeded[1], Seeded[2]] && s2.newProduct == EmptyDraft;
    var t := HandleAddProduct(s2);
    assert t.products == s2.products + [Commit(EmptyDraft, 3)];
  }

  /** A user can perform the finding run on the freshly mounted page: product
      1 has a Delete button, the toggle is always shown, and the Add Product
      button is shown once the form is open. */
  lemma FindingRunIsPerformable()
    ensures Performable(Initial, FindingRun)
  {
    FindingRunSteps();
    InitialView();
    TailsOfThree(DeleteClicked(1), ToggleClicked, AddClicked);
    assert Seeded[0] in FilteredProducts(Initial);
    var s1 := Step(Initial, DeleteClicked(1));
    var s2 := Step(s1, ToggleClicked);
    assert Performable(Step(s2, AddClicked), []);
    assert Performable(s2, [AddClicked]);
    assert Performable(s1, [ToggleClicked, AddClicked]);
  }

  /** On the seeded page, deleting product 1, opening the form and adding a
      product gives the new product id 3, which product 3 already carries. */
  lemma DuplicateIdAfterDelete()
    ensures Performable(Initial, FindingRun)
    ensures UniqueIds(Initial.products)
    ensures
      var t := Run(Initial, FindingRun);
      t.products == [Seeded[1], Seeded[2], Product(3, "", 0.0, 0, "")]
      && t.products[1].id == t.products[2].id
      && !UniqueIds(t.products)
  {
    FindingRunIsPerformable();
    InitialIdsAreOneToN();
    FindingRunResult();
    var ps := Run(Initial, FindingRun).products;
    assert ps[1].id == ps[2].id == 3;
  }

  /** With the duplicate in place, deleting id 3 drops both products that
      carry it, the original product 3 and the new one. */
  lemma DeleteDropsBothDuplicates()
    ensures HandleDeleteProduct(Run(Initial, FindingRun), 3).products == [Seeded[1]]
  {
    DuplicateIdAfterDelete();
    var ps := [Seeded[1], Seeded[2], Product(3, "", 0.0, 0, "")];
    var f := OtherThan(3);
    assert f(ps[0]) && !f(ps[1]) && !f(ps[2]);
    assert Filter(ps[2..], f) == [];
    assert ps[1..][1..] == ps[2..];
    assert Filter(ps[1..], f) == [];
    assert Filter(ps, f) == [Seeded[1]];
  }

  /** A filter of a list with unique ids has unique ids. */
  lemma {:induction false} FilterKeepsUniqueIds(ps: seq<Product>, keep: Product -> bool)
    requires UniqueIds(ps)
    ensures UniqueIds(Filter(ps, keep))
    decreases |ps|
  {
    if |ps| > 0 {
      var p, t := ps[0], ps[1..];
      assert ps == [p] + t;
      UniqueIdsCons(p, t);
      FilterKeepsUniqueIds(t, keep);
      var ft := Filter(t, keep);
      FilterCounts(t, keep);
      forall q | q in ft ensures q in t {
        assert q in multiset(ft);
      }
      assert p.id !in IdsOf(ft);
      if keep(p) {
        UniqueIdsCons(p, ft);
        assert Filter(ps, keep) == [p] + ft;
      } else {
        assert Filter(ps, keep) == ft;
      }
    }
  }

  /** The corrected add: the new product is numbered one above the largest id
      in use, so it is fresh whatever was deleted before. */
  function HandleAddProductFreshId(s: State): (t: State)
    ensures |t.products| == |s.products| + 1
    ensures t.products[..|s.products|] == s.products
    ensures t.products[|s.products|].id !in IdsOf(s.products)
    ensures forall i :: 0 <= i < |s.products| ==> s.products[i].id < t.products[|s.products|].id
    ensures Draft(t.products[|s.products|].name, t.products[|s.products|].price,
                  t.products[|s.products|].stock, t.products[|s.products|].productType) == s.newProduct
    ensures t.newProduct == Draft("", 0.0, 0, "") && !t.showAddProductForm
    ensures t.filter == s.filter && t.sortOrder == s.sortOrder && t.productTypeFilter == s.productTypeFilter
    ensures UniqueIds(s.products) ==> UniqueIds(t.products)
  {
    var p := Commit(s.newProduct, MaxId(s.products) + 1);
    var added := s.products + [p];
    assert added[..|s.products|] == s.products;
    UniqueIdsSnoc(s.products, p);
    s.(products := added, newProduct := EmptyDraft, showAddProductForm := false)
  }

  /** One user action with the corrected add; every other action is as
      written. */
  function StepFreshId(s: State, e: Event): (t: State)
    ensures !e.AddClicked? ==> t == Step(s, e)
  {
    if e.AddClicked? then HandleAddProductFreshId(s) else Step(s, e)
  }

  function RunFreshId(s: State, es: seq<Event>): State
    decreases |es|
  {
    if |es| == 0 then s else RunFreshId(StepFreshId(s, es[0]), es[1..])
  }

  /** With the corrected add, every action keeps ids unique. */
  lemma StepFreshIdKeepsUniqueIds(s: State, e: Event)
    requires UniqueIds(s.products)
    ensures UniqueIds(StepFreshId(s, e).products)
  {
    match e
    case DeleteClicked(id) => FilterKeepsUniqueIds(s.products, OtherThan(id));
    case HeaderClicked(key) => SortKeepsUniqueIds(s.products, s.sortOrder, key);
    case _ =>
  }

  /** With the corrected add, ids stay unique on every run, deletes
      included. */
  lemma {:induction false} RunFreshIdKeepsUniqueIds(s: State, es: seq<Event>)
    requires UniqueIds(s.products)
    ensures UniqueIds(RunFreshId(s, es).products)
    decreases |es|
  {
    if |es| > 0 {
      StepFreshIdKeepsUniqueIds(s, es[0]);
      RunFreshIdKeepsUniqueIds(StepFreshId(s, es[0]), es[1..]);
    }
  }

  /** After deleting product 1 and opening the form, the corrected add
      numbers the new product 4, one above product 3. */
  lemma FreshIdAfterDeletingOne()
    ensures HandleAddProductFreshId(ToggleAddProductForm(HandleDeleteProduct(Initial, 1))).products
            == [Seeded[1], Seeded[2], Product(4, "", 0.0, 0, "")]
  {
    SeededWithoutOne();
    var ps := [Seeded[1], Seeded[2]];
    assert ps[1..][1..] == [];
    assert MaxId(ps[1..]) == 3;
    assert MaxId(ps) == 3;
  }

  /** A run of three actions with the corrected add is the three steps. */
  lemma RunFreshIdThree(s: State, e1: Event, e2: Event, e3: Event)
    ensures RunFreshId(s, [e1, e2, e3]) == StepFreshId(StepFreshId(StepFreshId(s, e1), e2), e3)
  {
    TailsOfThree(e1, e2, e3);
    var s1 := StepFreshId(s, e1);
    var s2 := StepFreshId(s1, e2);
    assert RunFreshId(s2, [e3]) == RunFreshId(StepFreshId(s2, e3), []);
    assert RunFreshId(s1, [e2, e3]) == RunFreshId(s2, [e3]);
  }

  /** Delete, toggle and add with the corrected add is the corrected add
      after a delete and a toggle. */
  lemma FreshDeleteToggleAdd(s: State, id: int)
    ensures RunFreshId(s, [DeleteClicked(id), ToggleClicked, AddClicked])
            == HandleAddProductFreshId(ToggleAddProductForm(HandleDeleteProduct(s, id)))
  {
    RunFreshIdThree(s, DeleteClicked(id), ToggleClicked, AddClicked);
    var s1 := StepFreshId(s, DeleteClicked(id));
    assert s1 == HandleDeleteProduct(s, id);
    var s2 := StepFreshId(s1, ToggleClicked);
    assert s2 == ToggleAddProductForm(s1);
  }

  /** The run that duplicates an id as written gives the new product id 4
      with the corrected add. */
  lemma FreshIdOnTheFindingRun()
    ensures RunFreshId(Initial, FindingRun).products
            == [Seeded[1], Seeded[2], Product(4, "", 0.0, 0, "")]
  {
    FreshDeleteToggleAdd(Initial, 1);
    FreshIdAfterDeletingOne();
  }

  /** On that run the corrected add keeps ids unique. */
  lemma FreshIdOnTheFindingRunIsUnique()
    ensures UniqueIds(RunFreshId(Initial, FindingRun).products)
  {
    InitialIdsAreOneToN();
    RunFreshIdKeepsUniqueIds(Initial, FindingRun);
  }

  /** The ids 1 .. n. */
  function OneTo(n: nat): (r: set<int>)
    ensures |r| == n
    ensures forall k :: k in r <==> 1 <= k <= n
  {
    if n == 0 then {} else OneTo(n - 1) + {n}
  }

  /** A list with unique ids uses as many ids as it has products. */
  lemma {:induction false} UniqueIdsCount(ps: seq<Product>)
    requires UniqueIds(ps)
    ensures |IdsOf(ps)| == |ps|
    decreases |ps|
  {
    if |ps| > 0 {
      var p, t := ps[0], ps[1..];
      assert ps == [p] + t;
      UniqueIdsCons(p, t);
      UniqueIdsCount(t);
      assert IdsOf(ps) == IdsOf(t) + {p.id};
    }
  }

  /** When ids are unique and lie in 1 .. n, all of 1 .. n are in use, so the
      largest id is the length. */
  lemma MaxIdIsLength(ps: seq<Product>)
    requires IdsAreOneToN(ps)
    ensures MaxId(ps) == |ps|
  {
    if |ps| > 0 {
      var ids, all := IdsOf(ps), OneTo(|ps|);
      UniqueIdsCount(ps);
      assert ids <= all;
      assert |all - ids| == |all| - |ids| == 0;
      assert |ps| in ids;
    }
  }

  /** Without deletes the corrected add numbers products exactly as the
      written one does: the two differ only after a delete. */
  lemma {:induction false} FreshIdAgreesWithoutDeletes(s: State, es: seq<Event>)
    requires IdsAreOneToN(s.products)
    requires forall i :: 0 <= i < |es| ==> !es[i].DeleteClicked?
    ensures RunFreshId(s, es) == Run(s, es)
    decreases |es|
  {
    if |es| > 0 {
      if es[0].AddClicked? {
        MaxIdIsLength(s.products);
        assert HandleAddProductFreshId(s) == HandleAddProduct(s);
      }
      StepWithoutDeleteKeepsIds(s, es[0]);
      FreshIdAgreesWithoutDeletes(Step(s, es[0]), es[1..]);
    }
  }
}
