/** The three concrete repositories, each the generic repository with its own
    id accessor, and the fixed demo scenario of the program restated as facts
    about the model. */
module Stores {
  import opened Outcomes
  import opened Products
  import opened Orders
  import opened Repository

  /** `ProductRepository.getId`: products are keyed by their product id. */
  function ProductId(p: Product): (r: string) {
    p.id
  }

  /** `CustomerRepository.getId`: customers are keyed by their customer id. */
  function CustomerId(c: Customer): (r: string) {
    c.id
  }

  /** `OrderRepository.getId`: orders are keyed by their order id. */
  function OrderId(o: Order): (r: string) {
    o.id
  }

  /** Whatever calls are made on a product repository that starts empty,
      every product in it sits under its own product id. */
  lemma ProductStoreKeyed(calls: seq<Call<Product>>)
    ensures var m := Run(map[], ProductId, calls).0;
            forall k :: k in m ==> m[k].id == k
  {
  }

  /** Whatever calls are made on a customer repository that starts empty,
      every customer in it sits under its own customer id. */
  lemma CustomerStoreKeyed(calls: seq<Call<Customer>>)
    ensures var m := Run(map[], CustomerId, calls).0;
            forall k :: k in m ==> m[k].id == k
  {
  }

  /** Whatever calls are made on an order repository that starts empty,
      every order in it sits under its own order id. */
  lemma OrderStoreKeyed(calls: seq<Call<Order>>)
    ensures var m := Run(map[], OrderId, calls).0;
            forall k :: k in m ==> m[k].id == k
  {
  }

  const JavaGuide := Product(Book, "B1", "Hướng dẫn lập trình Java", 100.0)
  const MacBook := Product(Laptop, "L1", "MacBook", 2000.0)
  const Alice := Customer("C1", "Alice")

  /** Both demo products pass the price check; a book priced -10 does not. */
  lemma DemoConstruction()
    ensures NewProduct(Book, "B1", "Hướng dẫn lập trình Java", 100.0) == Ok(JavaGuide)
    ensures NewProduct(Laptop, "L1", "MacBook", 2000.0) == Ok(MacBook)
    ensures NewProduct(Book, "Book", " Book 2", -10.0) == Err(InvalidPrice("Book"))
  {
  }

  /** Adding the book, the laptop, then the book again: the third add fails
      with DuplicateId and the product repository still holds two entries,
      the book still under its id. */
  lemma DemoDuplicateAdd()
    ensures Run(map[], ProductId, [AddCall(JavaGuide), AddCall(MacBook), AddCall(JavaGuide)]).1
            == [Done, Done, Failed(DuplicateId("B1"))]
    ensures |Run(map[], ProductId, [AddCall(JavaGuide), AddCall(MacBook), AddCall(JavaGuide)]).0| == 2
    ensures var m := Run(map[], ProductId, [AddCall(JavaGuide), AddCall(MacBook), AddCall(JavaGuide)]).0;
            "B1" in m && m["B1"] == JavaGuide
  {
    var calls := [AddCall(JavaGuide), AddCall(MacBook), AddCall(JavaGuide)];
    var m1 := map["B1" := JavaGuide];
    var m2 := m1["L1" := MacBook];
    assert Step(map[], ProductId, calls[0]) == (m1, Done);
    assert Step(m1, ProductId, calls[1]) == (m2, Done);
    assert Step(m2, ProductId, calls[2]) == (m2, Failed(DuplicateId("B1")));
    assert calls[1..] == [AddCall(MacBook), AddCall(JavaGuide)];
    assert calls[1..][1..] == [AddCall(JavaGuide)];
    assert calls[1..][1..][1..] == [];
    var o3 := Failed(DuplicateId("B1"));
    assert Run(m2, ProductId, []) == (m2, []);
    assert Run(m2, ProductId, [AddCall(JavaGuide)]) == (m2, [o3] + []);
    assert [o3] + [] == [o3];
    assert Run(m1, ProductId, calls[1..]) == (m2, [Done] + [o3]);
    assert Run(map[], ProductId, calls) == (m2, [Done] + ([Done] + [o3]));
    assert [Done] + ([Done] + [o3]) == [Done, Done, o3];
    assert m2.Keys == {"B1", "L1"};
  }

  /** The demo order holds the book and then the laptop and totals 2100. */
  lemma DemoOrderTotal()
    ensures AddProduct(AddProduct(NewOrder("O1", Alice), JavaGuide), MacBook).items == [JavaGuide, MacBook]
    ensures Total(AddProduct(AddProduct(NewOrder("O1", Alice), JavaGuide), MacBook)) == 2100.0
  {
  }

  /** Refunding the book succeeds; refunding the laptop fails. */
  lemma DemoRefund()
    ensures Refund(JavaGuide) == Done
    ensures Refund(MacBook) == Failed(NonRefundable("L1"))
  {
  }

  /** The customer and order repositories of the demo each hold one entry. */
  lemma DemoCustomerAndOrder()
    ensures Add(map[], CustomerId, Alice) == Ok(map["C1" := Alice])
    ensures var o := AddProduct(AddProduct(NewOrder("O1", Alice), JavaGuide), MacBook);
            Add(map[], OrderId, o) == Ok(map["O1" := o])
  {
  }
}
