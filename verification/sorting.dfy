/** Column sorting of the product list: `[...products].sort(cmp)` with the
    comparator `a[key] - b[key]` (ascending) or `b[key] - a[key]`
    (descending). JavaScript's `Array.prototype.sort` is stable, and for a
    consistent comparator a stable sort has exactly one result, so the sort is
    modelled by a stable insertion sort. */
module Sorting {
  import opened Seqs
  import opened Catalog

  /** The table columns a header click can sort on. */
  datatype SortKey = Name | Price | Stock | Type

  /** The page's single `sortOrder` flag. */
  datatype SortOrder = Asc | Desc

  /** `sortOrder === 'asc' ? 'desc' : 'asc'`. */
  function Flip(o: SortOrder): (f: SortOrder)
    ensures f != o
  {
    if o == Asc then Desc else Asc
  }

  /** The number the comparator subtracts for a key. Subtracting two text
      fields converts both to numbers: a text that is not a number gives NaN,
      the empty text gives 0, and the sort reads NaN as +0. A text column is
      given one constant value here, which agrees with the code whenever no
      two of the column's texts convert to different numbers, so that every
      difference is NaN or 0. */
  function SortValue(key: SortKey, p: Product): real {
    match key
    case Price => p.price
    case Stock => p.stock as real
    case Name => 0.0
    case Type => 0.0
  }

  /** The comparator's result: negative when `a` must come first. */
  function Compare(order: SortOrder, key: SortKey, a: Product, b: Product): real {
    if order == Asc then SortValue(key, a) - SortValue(key, b)
    else SortValue(key, b) - SortValue(key, a)
  }

  /** What the comparator decides: ascending lets the smaller price or stock
      come first, descending the larger, a text column ties every pair, and
      swapping the arguments negates the result. */
  lemma CompareMeaning(order: SortOrder, key: SortKey, a: Product, b: Product)
    ensures Compare(order, key, a, b) == -Compare(order, key, b, a)
    ensures key == Price && order == Asc ==> (Compare(order, key, a, b) <= 0.0 <==> a.price <= b.price)
    ensures key == Price && order == Desc ==> (Compare(order, key, a, b) <= 0.0 <==> a.price >= b.price)
    ensures key == Stock && order == Asc ==> (Compare(order, key, a, b) <= 0.0 <==> a.stock <= b.stock)
    ensures key == Stock && order == Desc ==> (Compare(order, key, a, b) <= 0.0 <==> a.stock >= b.stock)
    ensures key == Name || key == Type ==> Compare(order, key, a, b) == 0.0
  {
  }

  /** Every product may precede every later one. */
  predicate Sorted(ps: seq<Product>, order: SortOrder, key: SortKey) {
    forall i, j :: 0 <= i < j < |ps| ==> Compare(order, key, ps[i], ps[j]) <= 0.0
  }

  /** Sorted ascending means non-decreasing by the key, sorted descending
      means non-increasing. */
  lemma SortedMeaning(ps: seq<Product>, order: SortOrder, key: SortKey)
    ensures order == Asc ==>
      (Sorted(ps, order, key) <==> forall i, j :: 0 <= i < j < |ps| ==> SortValue(key, ps[i]) <= SortValue(key, ps[j]))
    ensures order == Desc ==>
      (Sorted(ps, order, key) <==> forall i, j :: 0 <= i < j < |ps| ==> SortValue(key, ps[i]) >= SortValue(key, ps[j]))
  {
  }

  /** A sorted list extended at the front by a product that may precede its
      head. */
  lemma SortedCons(y: Product, zs: seq<Product>, order: SortOrder, key: SortKey)
    requires Sorted(zs, order, key)
    requires |zs| == 0 || Compare(order, key, y, zs[0]) <= 0.0
    ensures Sorted([y] + zs, order, key)
  {
    var r := [y] + zs;
    forall i, j | 0 <= i < j < |r|
      ensures Compare(order, key, r[i], r[j]) <= 0.0
    {
      assert r[j] == zs[j - 1];
      if i > 0 {
        assert r[i] == zs[i - 1];
      } else if j > 1 {
        assert Compare(order, key, zs[0], zs[j - 1]) <= 0.0;
      }
    }
  }

  /** The tail of a sorted list is sorted. */
  lemma SortedTail(r: seq<Product>, order: SortOrder, key: SortKey)
    requires |r| > 0 && Sorted(r, order, key)
    ensures Sorted(r[1..], order, key)
  {
    var t := r[1..];
    forall i, j | 0 <= i < j < |t| ensures Compare(order, key, t[i], t[j]) <= 0.0 {
      assert t[i] == r[i + 1] && t[j] == r[j + 1];
    }
  }

  /** Places `x` before the first product it may precede, so that `x` stays
      ahead of every product that compares equal to it. */
  function Insert(x: Product, ys: seq<Product>, order: SortOrder, key: SortKey): (r: seq<Product>)
    ensures |r| == |ys| + 1
    ensures r[0] == x || (|ys| > 0 && r[0] == ys[0])
  {
    if |ys| == 0 || Compare(order, key, x, ys[0]) <= 0.0 then [x] + ys
    else [ys[0]] + Insert(x, ys[1..], order, key)
  }

  /** Inserting into a sorted list gives a sorted list. */
  lemma {:induction false} InsertKeepsSorted(x: Product, ys: seq<Product>, order: SortOrder, key: SortKey)
    requires Sorted(ys, order, key)
    ensures Sorted(Insert(x, ys, order, key), order, key)
    decreases |ys|
  {
    if |ys| == 0 || Compare(order, key, x, ys[0]) <= 0.0 {
      SortedCons(x, ys, order, key);
    } else {
      SortedTail(ys, order, key);
      InsertKeepsSorted(x, ys[1..], order, key);
      var rest := Insert(x, ys[1..], order, key);
      if rest[0] != x {
        assert Compare(order, key, ys[0], ys[1]) <= 0.0;
      }
      SortedCons(ys[0], rest, order, key);
    }
  }

  /** Inserting adds one occurrence of `x` and changes nothing else. */
  lemma {:induction false} InsertPermutes(x: Product, ys: seq<Product>, order: SortOrder, key: SortKey)
    ensures multiset(Insert(x, ys, order, key)) == multiset(ys) + multiset{x}
    decreases |ys|
  {
    if |ys| > 0 && Compare(order, key, x, ys[0]) > 0.0 {
      InsertPermutes(x, ys[1..], order, key);
      assert ys == [ys[0]] + ys[1..];
    }
  }

  /** The sorted copy of `ps`: `[...ps].sort(cmp)`. */
  function SortBy(ps: seq<Product>, order: SortOrder, key: SortKey): (r: seq<Product>)
    ensures |r| == |ps|
    ensures Sorted(r, order, key)
    decreases |ps|
  {
    if |ps| == 0 then []
    else
      var t := SortBy(ps[1..], order, key);
      InsertKeepsSorted(ps[0], t, order, key);
      Insert(ps[0], t, order, key)
  }

  /** A list holds its head once more than its tail. */
  lemma MultisetOfCons(ps: seq<Product>)
    requires |ps| > 0
    ensures multiset(ps) == multiset(ps[1..]) + multiset{ps[0]}
  {
    assert ps == [ps[0]] + ps[1..];
  }

  /** The sorted copy is a permutation of the input. */
  lemma {:induction false} SortByPermutes(ps: seq<Product>, order: SortOrder, key: SortKey)
    ensures multiset(SortBy(ps, order, key)) == multiset(ps)
    decreases |ps|
  {
    if |ps| > 0 {
      var t := SortBy(ps[1..], order, key);
      assert SortBy(ps, order, key) == Insert(ps[0], t, order, key);
      SortByPermutes(ps[1..], order, key);
      InsertPermutes(ps[0], t, order, key);
      MultisetOfCons(ps);
    }
  }

  /** Selects the products whose key has value `v`. */
  function WithValue(key: SortKey, v: real): Product -> bool {
    (p: Product) => SortValue(key, p) == v
  }

  /** Two products with different key values commute under a filter that
      selects one key value. */
  lemma FilterSwap(x: Product, y: Product, key: SortKey, v: real, t: seq<Product>)
    requires SortValue(key, x) != SortValue(key, y)
    ensures Filter([y] + ([x] + t), WithValue(key, v)) == Filter([x] + ([y] + t), WithValue(key, v))
  {
    var f := WithValue(key, v);
    FilterCons(y, [x] + t, f);
    FilterCons(x, t, f);
    FilterCons(x, [y] + t, f);
    FilterCons(y, t, f);
    var ft := Filter(t, f);
    if f(x) {
      assert !f(y);
      assert Filter([y] + ([x] + t), f) == [x] + ft;
    } else if f(y) {
      assert Filter([y] + ([x] + t), f) == [y] + ft;
    } else {
      assert Filter([y] + ([x] + t), f) == ft;
    }
  }

  /** Inserting does not reorder products that share a key value. */
  lemma {:induction false} InsertIsStable(x: Product, ys: seq<Product>, order: SortOrder, key: SortKey, v: real)
    ensures Filter(Insert(x, ys, order, key), WithValue(key, v)) == Filter([x] + ys, WithValue(key, v))
    decreases |ys|
  {
    var f := WithValue(key, v);
    if |ys| > 0 && Compare(order, key, x, ys[0]) > 0.0 {
      var y, t := ys[0], ys[1..];
      assert ys == [y] + t;
      var rest := Insert(x, t, order, key);
      assert Insert(x, ys, order, key) == [y] + rest;
      FilterCons(y, rest, f);
      InsertIsStable(x, t, order, key, v);
      FilterCons(y, [x] + t, f);
      FilterSwap(x, y, key, v, t);
    }
  }

  /** The sort is stable: for every key value, the products holding that
      value keep their relative order. */
  lemma {:induction false} SortIsStable(ps: seq<Product>, order: SortOrder, key: SortKey, v: real)
    ensures Filter(SortBy(ps, order, key), WithValue(key, v)) == Filter(ps, WithValue(key, v))
    decreases |ps|
  {
    if |ps| > 0 {
      var f := WithValue(key, v);
      var x, t := ps[0], ps[1..];
      assert ps == [x] + t;
      calc {
        Filter(SortBy(ps, order, key), f);
        Filter(Insert(x, SortBy(t, order, key), order, key), f);
        { InsertIsStable(x, SortBy(t, order, key), order, key, v); }
        Filter([x] + SortBy(t, order, key), f);
        { FilterCons(x, SortBy(t, order, key), f); }
        (if f(x) then [x] else []) + Filter(SortBy(t, order, key), f);
        { SortIsStable(t, order, key, v); }
        (if f(x) then [x] else []) + Filter(t, f);
        { FilterCons(x, t, f); }
        Filter(ps, f);
      }
    }
  }

  /** Lists that agree on every key value's products hold the same products
      the same number of times. */
  lemma SameGroupsSameMultiset(r1: seq<Product>, r2: seq<Product>, key: SortKey)
    requires forall v :: Filter(r1, WithValue(key, v)) == Filter(r2, WithValue(key, v))
    ensures multiset(r1) == multiset(r2)
  {
    forall p ensures multiset(r1)[p] == multiset(r2)[p] {
      var f := WithValue(key, SortValue(key, p));
      FilterCounts(r1, f);
      FilterCounts(r2, f);
      assert multiset(Filter(r1, f))[p] == multiset(r1)[p];
      assert multiset(Filter(r2, f))[p] == multiset(r2)[p];
    }
  }

  /** The head of a sorted list may precede every product in the list. */
  lemma SortedHeadFirst(r: seq<Product>, p: Product, order: SortOrder, key: SortKey)
    requires |r| > 0 && Sorted(r, order, key) && p in r
    ensures Compare(order, key, r[0], p) <= 0.0
  {
    var k :| 0 <= k < |r| && r[k] == p;
    if k > 0 {
      assert Compare(order, key, r[0], r[k]) <= 0.0;
    }
  }

  /** Agreement on every key value's products passes from two lists with
      equal heads to their tails. */
  lemma GroupsOfTails(r1: seq<Product>, r2: seq<Product>, key: SortKey)
    requires |r1| > 0 && |r2| > 0 && r1[0] == r2[0]
    requires forall v :: Filter(r1, WithValue(key, v)) == Filter(r2, WithValue(key, v))
    ensures forall v :: Filter(r1[1..], WithValue(key, v)) == Filter(r2[1..], WithValue(key, v))
  {
    forall v
      ensures Filter(r1[1..], WithValue(key, v)) == Filter(r2[1..], WithValue(key, v))
    {
      var f := WithValue(key, v);
      var h := if f(r1[0]) then [r1[0]] else [];
      assert Filter(r1, f) == h + Filter(r1[1..], f);
      assert Filter(r2, f) == h + Filter(r2[1..], f);
      assert Filter(r1[1..], f) == Filter(r1, f)[|h|..];
      assert Filter(r2[1..], f) == Filter(r2, f)[|h|..];
    }
  }

  /** Two non-empty sorted lists that agree on every key value's products
      start with the same product. */
  lemma SortedHeadsAgree(r1: seq<Product>, r2: seq<Product>, order: SortOrder, key: SortKey)
    requires |r1| > 0 && |r2| > 0
    requires Sorted(r1, order, key) && Sorted(r2, order, key)
    requires multiset(r1) == multiset(r2)
    requires forall v :: Filter(r1, WithValue(key, v)) == Filter(r2, WithValue(key, v))
    ensures r1[0] == r2[0]
  {
    var a, b := r1[0], r2[0];
    assert a in multiset(r2) && b in multiset(r1);
    SortedHeadFirst(r2, a, order, key);
    SortedHeadFirst(r1, b, order, key);
    var fa := WithValue(key, SortValue(key, a));
    assert fa(a) && fa(b);
    assert Filter(r1, fa) == [a] + Filter(r1[1..], fa);
    assert Filter(r2, fa) == [b] + Filter(r2[1..], fa);
    assert Filter(r1, fa) == Filter(r2, fa);
    assert a == Filter(r1, fa)[0] && b == Filter(r2, fa)[0];
  }

  /** Two sorted lists that agree on the order within every key value are
      equal. */
  lemma {:induction false} SortedGroupsDetermine(r1: seq<Product>, r2: seq<Product>, order: SortOrder, key: SortKey)
    requires Sorted(r1, order, key) && Sorted(r2, order, key)
    requires forall v :: Filter(r1, WithValue(key, v)) == Filter(r2, WithValue(key, v))
    ensures r1 == r2
    decreases |r1|
  {
    SameGroupsSameMultiset(r1, r2, key);
    assert |r1| == |multiset(r1)| == |multiset(r2)| == |r2|;
    if |r1| > 0 {
      SortedHeadsAgree(r1, r2, order, key);
      GroupsOfTails(r1, r2, key);
      SortedTail(r1, order, key);
      SortedTail(r2, order, key);
      SortedGroupsDetermine(r1[1..], r2[1..], order, key);
    }
  }

  /** `SortBy` is the one stable sort: every sorted list that keeps the
      order of `ps` within each key value is `SortBy(ps)`. */
  lemma StableSortIsUnique(r: seq<Product>, ps: seq<Product>, order: SortOrder, key: SortKey)
    requires Sorted(r, order, key)
    requires forall v :: Filter(r, WithValue(key, v)) == Filter(ps, WithValue(key, v))
    ensures r == SortBy(ps, order, key)
  {
    var s := SortBy(ps, order, key);
    forall v ensures Filter(r, WithValue(key, v)) == Filter(s, WithValue(key, v)) {
      SortIsStable(ps, order, key, v);
    }
    SortedGroupsDetermine(r, s, order, key);
  }

  /** A product that may precede the head of the list is inserted at the
      front. */
  lemma InsertAtFront(x: Product, ys: seq<Product>, order: SortOrder, key: SortKey)
    requires |ys| == 0 || Compare(order, key, x, ys[0]) <= 0.0
    ensures Insert(x, ys, order, key) == [x] + ys
  {
  }

  /** Sorting on a text column leaves the list as it was: every comparison
      ties (see `SortValue` for when that matches the code) and `Insert`
      keeps an element ahead of equal ones. */
  lemma {:induction false} SortOnTextKeepsOrder(ps: seq<Product>, order: SortOrder, key: SortKey)
    requires key == Name || key == Type
    ensures SortBy(ps, order, key) == ps
    decreases |ps|
  {
    if |ps| > 0 {
      var t := ps[1..];
      SortOnTextKeepsOrder(t, order, key);
      assert SortBy(ps, order, key) == Insert(ps[0], t, order, key);
      InsertAtFront(ps[0], t, order, key);
      assert [ps[0]] + t == ps;
    }
  }

  /** The inserted list holds `x` and the products of `ys`, nothing else. */
  lemma InsertMembers(x: Product, ys: seq<Product>, order: SortOrder, key: SortKey)
    ensures forall p :: p in Insert(x, ys, order, key) <==> p in ys || p == x
  {
    var r := Insert(x, ys, order, key);
    InsertPermutes(x, ys, order, key);
    forall p ensures p in r <==> p in ys || p == x {
      assert p in r <==> p in multiset(r);
      assert p in ys <==> p in multiset(ys);
    }
  }

  /** Inserting adds exactly the inserted product's id to the ids in use. */
  lemma InsertIds(x: Product, ys: seq<Product>, order: SortOrder, key: SortKey)
    ensures IdsOf(Insert(x, ys, order, key)) == IdsOf(ys) + {x.id}
  {
    InsertMembers(x, ys, order, key);
  }

  /** Inserting a product with a fresh id keeps ids unique. */
  lemma {:induction false} InsertKeepsUniqueIds(x: Product, ys: seq<Product>, order: SortOrder, key: SortKey)
    requires UniqueIds(ys) && x.id !in IdsOf(ys)
    ensures UniqueIds(Insert(x, ys, order, key))
    decreases |ys|
  {
    if |ys| == 0 || Compare(order, key, x, ys[0]) <= 0.0 {
      UniqueIdsCons(x, ys);
    } else {
      var y, t := ys[0], ys[1..];
      assert ys == [y] + t;
      UniqueIdsCons(y, t);
      assert x.id !in IdsOf(t);
      InsertKeepsUniqueIds(x, t, order, key);
      var rest := Insert(x, t, order, key);
      InsertIds(x, t, order, key);
      UniqueIdsCons(y, rest);
      assert Insert(x, ys, order, key) == [y] + rest;
    }
  }

  /** Sorting keeps ids unique. */
  lemma {:induction false} SortKeepsUniqueIds(ps: seq<Product>, order: SortOrder, key: SortKey)
    requires UniqueIds(ps)
    ensures UniqueIds(SortBy(ps, order, key))
    ensures IdsOf(SortBy(ps, order, key)) == IdsOf(ps)
    decreases |ps|
  {
    if |ps| > 0 {
      var x, t := ps[0], ps[1..];
      var st := SortBy(t, order, key);
      assert SortBy(ps, order, key) == Insert(x, st, order, key);
      UniqueIdsTail(ps);
      IdsOfCons(ps);
      SortKeepsUniqueIds(t, order, key);
      InsertKeepsUniqueIds(x, st, order, key);
      InsertIds(x, st, order, key);
    }
  }
}
