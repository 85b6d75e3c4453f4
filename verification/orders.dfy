/** Orders: a customer, an ordered list of products, and the derived total. */
module Orders {
  import opened Products

  datatype Order = Order(id: string, customer: Customer, items: seq<Product>)

  /** Sum of the prices of `items`, first to last. */
  function Sum(items: seq<Product>): (r: real)
    ensures (forall i :: 0 <= i < |items| ==> items[i].Valid()) ==> r >= 0.0
    ensures |items| == 0 ==> r == 0.0
  {
    if |items| == 0 then 0.0 else items[0].price + Sum(items[1..])
  }

  /** The sum of a concatenation is the sum of its parts. */
  lemma {:induction false} SumConcat(a: seq<Product>, b: seq<Product>)
    ensures Sum(a + b) == Sum(a) + Sum(b)
  {
    if |a| == 0 {
      assert a + b == b;
    } else {
      assert (a + b)[1..] == a[1..] + b;
      SumConcat(a[1..], b);
    }
  }

  /** The sum does not depend on the order of the items. */
  lemma {:induction false} SumPermutation(a: seq<Product>, b: seq<Product>)
    requires multiset(a) == multiset(b)
    ensures Sum(a) == Sum(b)
    decreases |a|
  {
    if |a| > 0 {
      var x := a[0];
      assert x in multiset(b);
      var j :| 0 <= j < |b| && b[j] == x;
      assert b == b[..j] + [x] + b[j + 1..];
      var rest := b[..j] + b[j + 1..];
      assert a == [x] + a[1..];
      assert multiset(rest) == multiset(b[..j]) + multiset(b[j + 1..]);
      calc {
        multiset(b);
        multiset(b[..j]) + multiset([x]) + multiset(b[j + 1..]);
        multiset([x]) + multiset(rest);
      }
      assert multiset(a) == multiset([x]) + multiset(a[1..]);
      forall y
        ensures multiset(a[1..])[y] == multiset(rest)[y]
      {
        assert multiset(a)[y] == multiset([x])[y] + multiset(a[1..])[y];
        assert multiset(b)[y] == multiset([x])[y] + multiset(rest)[y];
      }
      assert multiset(a[1..]) == multiset(rest);
      SumPermutation(a[1..], rest);
      SumConcat(b[..j] + [x], b[j + 1..]);
      SumConcat(b[..j], [x]);
      SumConcat(b[..j], b[j + 1..]);
    }
  }

  /** A freshly created order holds no products. */
  function NewOrder(id: string, customer: Customer): (o: Order)
    ensures o.id == id && o.customer == customer
    ensures o.items == []
    ensures Total(o) == 0.0
  {
    Order(id, customer, [])
  }

  /** `total()`: the sum of the item prices. */
  function Total(o: Order): (r: real)
    ensures (forall i :: 0 <= i < |o.items| ==> o.items[i].Valid()) ==> r >= 0.0
  {
    Sum(o.items)
  }

  /** `addProduct(p)`: appends `p` to the end of the item list. */
  function AddProduct(o: Order, p: Product): (o': Order)
    ensures o'.id == o.id && o'.customer == o.customer
    ensures |o'.items| == |o.items| + 1
    ensures o'.items[..|o.items|] == o.items && o'.items[|o.items|] == p
    ensures Total(o') == Total(o) + p.price
  {
    SumConcat(o.items, [p]);
    assert Sum([p]) == p.price + Sum([]);
    Order(o.id, o.customer, o.items + [p])
  }

  /** A fresh order with `ps` added in turn holds exactly `ps`, and its total
      is the sum of their prices. */
  lemma TotalOfAdded(id: string, c: Customer, ps: seq<Product>)
    ensures AddAll(NewOrder(id, c), ps).items == ps
    ensures Total(AddAll(NewOrder(id, c), ps)) == Sum(ps)
  {
    AddAllAppends(NewOrder(id, c), ps);
    assert [] + ps == ps;
  }

  /** The total does not depend on the order in which products were added. */
  lemma TotalIgnoresOrder(id: string, c: Customer, ps: seq<Product>, qs: seq<Product>)
    requires multiset(ps) == multiset(qs)
    ensures Total(AddAll(NewOrder(id, c), ps)) == Total(AddAll(NewOrder(id, c), qs))
  {
    TotalOfAdded(id, c, ps);
    TotalOfAdded(id, c, qs);
    SumPermutation(ps, qs);
  }

  /** Adds each product of `ps` in turn. */
  function AddAll(o: Order, ps: seq<Product>): (r: Order)
    decreases |ps|
  {
    if |ps| == 0 then o else AddAll(AddProduct(o, ps[0]), ps[1..])
  }

  lemma {:induction false} AddAllAppends(o: Order, ps: seq<Product>)
    ensures AddAll(o, ps).items == o.items + ps
    decreases |ps|
  {
    if |ps| == 0 {
      assert o.items + ps == o.items;
    } else {
      AddAllAppends(AddProduct(o, ps[0]), ps[1..]);
      assert o.items + [ps[0]] + ps[1..] == o.items + ps;
    }
  }
}
