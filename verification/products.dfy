/** The product hierarchy and customers: `Product` with its two concrete
    variants `Book` and `Laptop`, and the plain `Customer` record. */
module Products {
  import opened Outcomes

  /** The concrete subclass a product was created as. */
  datatype Kind = Book | Laptop

  datatype Product = Product(kind: Kind, id: string, name: string, price: real)
  {
    /** The class invariant the constructor establishes; it keeps holding
        because nothing assigns the price after construction. */
    predicate Valid() {
      price >= 0.0
    }
  }

  datatype Customer = Customer(id: string, name: string)

  /** The shared constructor of `Book` and `Laptop`: it refuses a negative
      price and otherwise stores the fields as given. */
  function NewProduct(kind: Kind, id: string, name: string, price: real): (r: Result<Product>)
    ensures r.Err? <==> price < 0.0
    ensures r.Err? ==> r.error == InvalidPrice(id)
    ensures r.Ok? ==> (r.value.kind == kind && r.value.id == id &&
                       r.value.name == name && r.value.price == price)
    ensures r.Ok? ==> r.value.Valid()
  {
    if price < 0.0 then Err(InvalidPrice(id))
    else Ok(Product(kind, id, name, price))
  }

  /** Every product that satisfies the class invariant is exactly what the
      constructor builds from its own fields. */
  lemma ValidProductIsConstructible(p: Product)
    ensures p.Valid() <==> NewProduct(p.kind, p.id, p.name, p.price) == Ok(p)
  {
  }

  /** Whether a variant keeps the inherited refund or overrides it to refuse. */
  predicate KeepsDefaultRefund(kind: Kind) {
    kind != Laptop
  }

  /** `refund()` dispatched on the variant: `Laptop` overrides it to throw,
      `Book` inherits the base behaviour, which always succeeds. */
  function Refund(p: Product): (r: Outcome)
    ensures r.Done? <==> KeepsDefaultRefund(p.kind)
    ensures r.Failed? ==> r.error == NonRefundable(p.id)
  {
    match p.kind
    case Laptop => Failed(NonRefundable(p.id))
    case Book => Done
  }

  /** Refunding a laptop always fails and refunding a book always succeeds,
      whatever their price or name. */
  lemma RefundByVariant(p: Product)
    ensures p.kind == Laptop ==> Refund(p) == Failed(NonRefundable(p.id))
    ensures p.kind == Book ==> Refund(p) == Done
  {
  }
}
