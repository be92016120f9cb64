/** The records the product page keeps: committed products, the add-form
    draft, and the id bookkeeping around them. */
module Catalog {

  /** One row of the product table. `price` is what `parseFloat` produced and
      `stock` what `parseInt` produced; `productType` is one of the select's
      values or empty. */
  datatype Product = Product(id: int, name: string, price: real, stock: int, productType: string)

  /** The add-form's in-progress product, which has no id yet. */
  datatype Draft = Draft(name: string, price: real, stock: int, productType: string)

  /** The draft the form starts from and is reset to after an add. */
  const EmptyDraft: Draft := Draft("", 0.0, 0, "")

  /** The three products the page starts with. */
  const Seeded: seq<Product> := [
    Product(1, "Product 1", 100.0, 50, "cosmetics"),
    Product(2, "Product 2", 200.0, 20, "dresses"),
    Product(3, "Product 3", 150.0, 10, "electronics")
  ]

  /** `{ id, ...draft }`: the committed product carries the draft's fields
      under the given id. */
  function Commit(d: Draft, id: int): (p: Product)
    ensures p.id == id
    ensures Draft(p.name, p.price, p.stock, p.productType) == d
  {
    Product(id, d.name, d.price, d.stock, d.productType)
  }

  /** The ids in use. */
  function IdsOf(ps: seq<Product>): (ids: set<int>)
    ensures forall i :: 0 <= i < |ps| ==> ps[i].id in ids
    ensures forall id :: id in ids ==> exists i :: 0 <= i < |ps| && ps[i].id == id
  {
    set p | p in ps :: p.id
  }

  /** No two positions of the list hold the same id. */
  predicate UniqueIds(ps: seq<Product>) {
    forall i, j :: 0 <= i < |ps| && 0 <= j < |ps| && ps[i].id == ps[j].id ==> i == j
  }

  /** Uniqueness of a list split into its head and its tail. */
  lemma UniqueIdsCons(p: Product, ps: seq<Product>)
    ensures UniqueIds([p] + ps) <==> p.id !in IdsOf(ps) && UniqueIds(ps)
  {
    var qs := [p] + ps;
    assert forall i :: 0 <= i < |ps| ==> qs[i + 1] == ps[i];
    if UniqueIds(qs) {
      forall k | 0 <= k < |ps|
        ensures ps[k].id != p.id
      {
        assert qs[k + 1].id == ps[k].id && qs[0].id == p.id;
      }
    }
    if p.id !in IdsOf(ps) && UniqueIds(ps) {
      assert forall k :: 0 <= k < |ps| ==> ps[k].id != p.id;
      forall i, j | 0 <= i < |qs| && 0 <= j < |qs| && qs[i].id == qs[j].id
        ensures i == j
      {
        if i > 0 && j > 0 {
          assert ps[i - 1].id == ps[j - 1].id;
        }
      }
    }
  }

  /** The head of a list with unique ids is not reused in its tail, and the
      tail keeps ids unique. */
  lemma UniqueIdsTail(ps: seq<Product>)
    requires |ps| > 0 && UniqueIds(ps)
    ensures UniqueIds(ps[1..]) && ps[0].id !in IdsOf(ps[1..])
  {
    assert ps == [ps[0]] + ps[1..];
    UniqueIdsCons(ps[0], ps[1..]);
  }

  /** The ids of a list are its head's id and the ids of its tail. */
  lemma IdsOfCons(ps: seq<Product>)
    requires |ps| > 0
    ensures IdsOf(ps) == IdsOf(ps[1..]) + {ps[0].id}
  {
    assert ps == [ps[0]] + ps[1..];
  }

  /** Uniqueness of a list with one product appended at its end. */
  lemma UniqueIdsSnoc(ps: seq<Product>, p: Product)
    ensures UniqueIds(ps + [p]) <==> UniqueIds(ps) && p.id !in IdsOf(ps)
  {
    var qs := ps + [p];
    assert forall i :: 0 <= i < |ps| ==> qs[i] == ps[i];
    assert qs[|ps|] == p;
    if UniqueIds(qs) {
      forall k | 0 <= k < |ps|
        ensures ps[k].id != p.id
      {
        assert qs[k].id == ps[k].id && qs[|ps|].id == p.id;
      }
    }
    if UniqueIds(ps) && p.id !in IdsOf(ps) {
      assert forall k :: 0 <= k < |ps| ==> ps[k].id != p.id;
      forall i, j | 0 <= i < |qs| && 0 <= j < |qs| && qs[i].id == qs[j].id
        ensures i == j
      {
        if i < |ps| && j < |ps| {
          assert ps[i].id == ps[j].id;
        }
      }
    }
  }

  /** The largest id in use, or 0 for an empty list. */
  function MaxId(ps: seq<Product>): (m: int)
    ensures m >= 0
    ensures forall i :: 0 <= i < |ps| ==> ps[i].id <= m
    ensures m == 0 || exists i :: 0 <= i < |ps| && ps[i].id == m
  {
    if |ps| == 0 then 0
    else
      var rest := MaxId(ps[1..]);
      if ps[0].id > rest then ps[0].id else rest
  }
}
