# BaiTapTongHop in Dafny

A verified model of the small catalog/order program `BaiTapTongHop.java`:
products (`Book`, `Laptop`) with a validated price and a per-variant refund
rule, customers, orders with a derived total, and the generic keyed in-memory
repository (`InMemoryRepository<T>`) behind `ProductRepository`,
`CustomerRepository` and `OrderRepository`.

Modules:

- `Outcomes` (`outcomes.dfy`): the four exception classes as one `ErrorKind`
  datatype carrying the offending id, plus `Result` (value or error) and
  `Outcome` (for `void` methods that may throw).
- `Products` (`products.dfy`): `Product` as one datatype tagged with its
  `Kind` (`Book` or `Laptop`), the validating constructor, `refund()` with
  the `Laptop` override, and `Customer`.
- `Orders` (`orders.dfy`): `Order`, `addProduct`, and `total()` as a
  recursive sum over the item list.
- `Repository` (`repository.dfy`): the repository state is an immutable
  `map<string, T>` and the `getId` accessor is a parameter `T -> string`.
  `add`, `update` and `delete` return the next map or the error they throw.
  `findAll` is a method that copies values out of the map. `Step` and `Run`
  describe the mutable object as a state machine over a sequence of calls,
  where a failing call leaves the map untouched. The invariant `Keyed` says
  every entry is stored under its own id, and every repository call
  preserves it. In the model entities are values, so nothing outside the
  repository can change a stored entity's id (see "## Left out").
- `Stores` (`stores.dfy`): the three `getId` instantiations (`ProductId`,
  `CustomerId`, `OrderId`). It also restates the demo program's fixed scenario
  as lemmas: duplicate add, negative price, the 100 + 2000 = 2100 total, and
  the two refunds.

Prices are Dafny `real`s. Nothing in the model performs I/O.

## Model

| member | source | states |
|---|---|---|
| Products.NewProduct | BaiTapTongHop.java:30-35 | construction fails with InvalidPrice(id) exactly when price < 0; otherwise the product holds the given kind, id, name and price and satisfies the non-negative price invariant |
| Products.ValidProductIsConstructible | BaiTapTongHop.java:25-35 | a product value satisfies the price invariant if and only if the constructor, given its own fields, returns exactly that product |
| Products.Refund | BaiTapTongHop.java:43-66 | refund succeeds exactly for variants that keep the inherited behaviour (not Laptop); a failure is NonRefundable carrying the product id |
| Products.RefundByVariant | BaiTapTongHop.java:52-66 | a Laptop refund always fails with NonRefundable(id) and a Book refund always succeeds, whatever the price or name |
| Orders.Sum | BaiTapTongHop.java:107-109 | the price sum of an item list is 0 for no items and non-negative when every item satisfies the price invariant |
| Orders.SumConcat | BaiTapTongHop.java:107-109 | the total of a concatenation of item lists is the sum of their totals |
| Orders.SumPermutation | BaiTapTongHop.java:107-109 | two item lists with the same items in any order have the same total |
| Orders.NewOrder | BaiTapTongHop.java:98-103 | a new order keeps the given id and customer, starts with an empty item list, and has total 0 |
| Orders.Total | BaiTapTongHop.java:107-109 | an order's total is non-negative when all its products satisfy the price invariant |
| Orders.AddProduct | BaiTapTongHop.java:105 | adding a product keeps id and customer, appends exactly that product after the existing items, and raises the total by its price |
| Orders.AddAllAppends | BaiTapTongHop.java:105 | adding products one by one appends them, in order, to the item list |
| Orders.TotalOfAdded | BaiTapTongHop.java:100-109 | a new order with products added in turn holds exactly those products and totals their price sum |
| Orders.TotalIgnoresOrder | BaiTapTongHop.java:105-109 | the total does not depend on the order in which the products were added |
| Repository.Add | BaiTapTongHop.java:132-136 | add fails with DuplicateId exactly when the id is present; on success the id maps to the item, every other entry is unchanged, the size grows by one, and the Keyed invariant is kept |
| Repository.Update | BaiTapTongHop.java:138-142 | update fails with NotFound exactly when the id is absent; on success the key set is the same, the id maps to the new item, every other entry is unchanged, and Keyed is kept |
| Repository.Delete | BaiTapTongHop.java:144-147 | delete fails with NotFound exactly when the id is absent; on success exactly that key is removed, the remaining entries are unchanged, and the size drops by one |
| Repository.DeleteKeepsKeyed | BaiTapTongHop.java:144-147 | deleting from a keyed repository leaves it keyed |
| Repository.FindAll | BaiTapTongHop.java:149-151 | the snapshot has one element per key, holds each value as many times as keys map to it, and its elements are exactly the stored values |
| Repository.SnapshotMembers | BaiTapTongHop.java:149-151 | any snapshot's elements are exactly the values stored in the map |
| Repository.KeyedAtMostOneKey | BaiTapTongHop.java:128-130 | in a keyed repository a value is stored under at most one key |
| Repository.KeyedSnapshotDistinct | BaiTapTongHop.java:128-151 | in a keyed repository, findAll lists every stored entity exactly once |
| Repository.AddThenDelete | BaiTapTongHop.java:132-147 | adding an entity with a new id and then deleting that id gives back the original repository |
| Repository.DeleteThenAdd | BaiTapTongHop.java:132-147 | in a keyed repository, deleting an entity and adding it back gives back the original repository |
| Repository.UpdateIdempotent | BaiTapTongHop.java:138-142 | updating twice with the same entity is the same as updating once |
| Repository.Step | BaiTapTongHop.java:127-147 | one call fails exactly when add finds the id present or update/delete finds it absent; a failing call leaves the map unchanged; a failure is DuplicateId for add and NotFound for update/delete, carrying the call's id; a successful call grows, shrinks or keeps the key set as its kind says; a successful add or update stores the call's item under its id; entries under other ids never change; Keyed is preserved |
| Repository.Run | BaiTapTongHop.java:127-147 | a sequence of calls yields one outcome per call, preserves Keyed, and leaves the map unchanged when every call fails |
| Repository.RunKeys | BaiTapTongHop.java:127-147 | after any sequence of calls, every key was either present before or named by one of the calls |
| Repository.AddTwiceKeepsFirst | BaiTapTongHop.java:132-136 | adding two entities with the same new id: the first succeeds, the second fails with DuplicateId, and the first value is retained |
| Stores.ProductStoreKeyed | BaiTapTongHop.java:154-156 | after any calls on a product repository that starts empty, every stored product sits under its own product id |
| Stores.CustomerStoreKeyed | BaiTapTongHop.java:158-160 | after any calls on a customer repository that starts empty, every stored customer sits under its own customer id |
| Stores.OrderStoreKeyed | BaiTapTongHop.java:162-164 | after any calls on an order repository that starts empty, every stored order sits under its own order id |
| Stores.DemoConstruction | BaiTapTongHop.java:173-208 | the demo book at 100 and laptop at 2000 construct; a book at -10 fails with InvalidPrice |
| Stores.DemoDuplicateAdd | BaiTapTongHop.java:154-205 | in the product repository, adding B1, L1 and then B1 again gives Done, Done, DuplicateId("B1"), with size 2 and B1 still the first book |
| Stores.DemoOrderTotal | BaiTapTongHop.java:185-187 | the demo order holds the book and then the laptop and totals 2100 |
| Stores.DemoRefund | BaiTapTongHop.java:194-196 | the book refund succeeds and the laptop refund fails with NonRefundable("L1") |
| Stores.DemoCustomerAndOrder | BaiTapTongHop.java:158-188 | adding the demo customer to an empty customer repository gives exactly C1 mapped to it, and adding the demo order to an empty order repository gives exactly O1 mapped to it |

## Left out

- `deliver()`, the printed message of a successful `refund()`, and `toString()` (BaiTapTongHop.java:39-49): they only write to standard output.
- The `Payment` interface and its four strategies, and `Order.pay` (BaiTapTongHop.java:75-93, 111-113): each strategy only prints the amount, and `pay` only forwards `total()` to one.
- `main` (BaiTapTongHop.java:166-213): a fixed console script. Its scenarios are restated as the `Stores.Demo*` lemmas instead.
- Exception message strings: an error is modelled by its kind and the offending id.
- `Customer`'s constructor performs no checks, so the datatype constructor stands for it.
- Products.NewProduct: price is an exact `real`, so the model ignores IEEE `double` behaviour. In particular, a NaN price passes the Java `price < 0` check.
- Orders.Sum: computes an exact real sum, not the rounded `double` sum of the Java stream.
- Repository.FindAll: does not fix the order of the returned list, because `HashMap` iteration order is unspecified. It states only contents and length.
- Object identity and aliasing: products, customers and orders are values. An order holds copies of its products and customer rather than shared references. A repository holds a copy of each entity rather than a reference to a mutable object. In Java, `or.add(o)` followed by `o.addProduct(p)` also changes the order stored in `or`, because `items.add` mutates the list in place (BaiTapTongHop.java:105, 128, 135). In the model the stored order stays as it was when added.
- Mutable fields: `Customer.id` and `Order.id` (BaiTapTongHop.java:69, 96), and `Product.id` and `Product.price` (BaiTapTongHop.java:26, 28), are non-final fields that code in the same package can assign (`protected` in Java includes package access). Reassigning an id after `add` breaks the stored-under-own-id invariant without any repository call. Reassigning a price can make it negative, which breaks the `price >= 0` invariant and with it the non-negative total. The model has no such assignments, so `Keyed` is promised only across repository calls, and `Valid` is promised only for products built by the constructor.
- `null`: ids and entities are never null in the model. Java's `HashMap` accepts a null key, and `getId` could return one.
