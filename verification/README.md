# E-commerce product and customer services, modelled in Dafny

This project models the business logic of two Spring services of a small
e-commerce application.

**Product service.** `purchaseProduct` buys a batch of request lines, each a
product id and a quantity, as one transaction. It looks up all requested ids
in one query that returns the stored products ordered by id. It rejects the
batch with "One or more products does not exists!" when the number of rows
found differs from the number of lines. Otherwise it sorts the lines by
product id and pairs them with the rows by position. For each pair in
ascending id order it rejects the batch with "Not enough stock for product ID
<id>" when the stock is below the requested quantity; otherwise it subtracts
the quantity, saves the product and emits a purchase confirmation. Because
the method is `@Transactional`, a failure rolls back every decrement made
before it. `findById` fails with "product with id <id> not found" for an
unknown id. `ProductMapper` holds the three field copies between requests,
entities and responses.

**Customer service.** `createCustomer` saves the mapped request and returns
the saved id. `updateCustomer` fails with "Cannot update customer:: Customer
with id <id> not found" when no customer has the request's id. Otherwise it
merges the request into the stored customer and saves it. In the merge, a
first name, last name or email replaces the stored one only when it is not
blank (commons-lang `isNotBlank`), and an address replaces the stored one
only when it is not null. `CustomerMapper.toCustomer` maps null to null and
otherwise copies every field.

## How the model is built

- Each repository is an immutable map from id to entity. The predicate
  `WellKeyed` says that every entity is stored under its own id. `save` is a
  map update.
- Every operation is a pure function. A thrown exception is a `Failure` of
  the `Results.Error` datatype, carrying the exact message. A method that
  changes the repository returns an `Outcome`: its result and the repository
  afterwards.
- `@Transactional` is `Results.Transactional`. On failure the outcome's
  repository is the one the call started with.
- The derived query `findAllByIdInOrderById` is
  `ProductRepository.FindAllByIdInOrderById`. It is an `IN` query followed by
  `ORDER BY id`: each matching stored row once, in ascending id order.
- Java `double` quantities are Dafny `real`. The `BigDecimal` price is an
  opaque `ProductModel.Decimal` that is only copied. Nullable strings are
  `Option<string>`.
- The integer in a message is rendered by `Text.IntToString` in ASCII
  decimal, as `%s` of an `Integer` always renders it and as `%d` renders it
  under a locale whose digits are ASCII. `Text.IntToStringRoundTrip` shows the
  rendering is faithful, so each message names exactly one id.
- `request.stream().sorted(Comparator.comparing(ProductPurchaseRequest::productId))`
  is the insertion sort `Sorting.SortBy`. Its order among lines with equal
  ids is never observed, because such batches fail the existence check first.

The existence check compares the number of rows found with the number of
request lines, duplicates included. Any batch naming the same product twice
therefore always fails that check, because the query returns each row once.
This is what makes the positional pairing sound. A reading in which the count
is compared with the number of distinct ids would let duplicate batches
through; the model follows the code, and `ProductService.RepeatedProductFails`
proves the duplicate case fails.

## Model

| member | source | states |
|---|---|---|
| Results.Transactional | services/product/src/main/java/com/athar/ecommerce/product/ProductService.java:29 | a transactional body succeeds exactly when its body does; on failure the error is kept and the state is the state at the start (rollback) |
| Sorting.SortBy | services/product/src/main/java/com/athar/ecommerce/product/ProductService.java:43-45 | sorting by a key yields a sequence ordered by that key that is a permutation (same multiset) of the input |
| Sorting.SortKeysCommute | services/product/src/main/java/com/athar/ecommerce/product/ProductService.java:33-45 | the ids of the sorted lines are the sorted ids of the lines, so the sorted lines line up with the id-ordered rows |
| Sorting.DistinctIffSingleOccurrences | services/product/src/main/java/com/athar/ecommerce/product/ProductService.java:33-39 | ids are pairwise different exactly when each occurs at most once in their multiset, so duplicates survive any reordering |
| Sorting.DedupSorted | services/product/src/main/java/com/athar/ecommerce/product/ProductService.java:37 | removing repeats from sorted ids gives strictly increasing ids with the same members, shorter exactly when there was a repeat |
| Text.IsBlank | services/customer/src/main/java/com/athar/ecommerce/customer/CustomerService.java:33-41 | commons-lang `isBlank`: null, or every character Java (17) whitespace; `isNotBlank` is its negation |
| Text.JavaWhitespaceEdges | services/customer/src/main/java/com/athar/ecommerce/customer/CustomerService.java:33-41 | null, empty and whitespace-only strings are blank, U+001C..U+001F count as whitespace, and the non-breaking spaces U+00A0, U+2007, U+202F as well as U+0085 and U+200B do not |
| Text.IntToStringRoundTrip | services/product/src/main/java/com/athar/ecommerce/product/ProductService.java:55 | the decimal rendering of an id used in messages parses back to the same id |
| Text.FramedIntInjective | services/product/src/main/java/com/athar/ecommerce/product/ProductService.java:55 | two messages that frame ids with the same text are equal only if the ids are equal |
| ProductRepository.Save | services/product/src/main/java/com/athar/ecommerce/product/ProductService.java:60 | saving stores the product under its id, keeps every other entry and keeps the repository well keyed |
| ProductRepository.LookupAll | services/product/src/main/java/com/athar/ecommerce/product/ProductService.java:37 | looking up keys finds one entity per key exactly when every key is stored, and then the i-th entity belongs to the i-th key |
| ProductRepository.FindAllByIdInOrderById | services/product/src/main/java/com/athar/ecommerce/product/ProductService.java:37 | the query returns stored products only, each with a requested id, in strictly ascending id order, and misses no stored requested product |
| ProductRepository.FindAllCountMatchesIff | services/product/src/main/java/com/athar/ecommerce/product/ProductService.java:33-39 | the query returns as many rows as there are ids exactly when the ids are pairwise different and all stored |
| ProductService.FirstShortfall | services/product/src/main/java/com/athar/ecommerce/product/ProductService.java:49-56 | the position of the first pair whose stock is below the requested quantity; no earlier pair is short |
| ProductService.Fulfil | services/product/src/main/java/com/athar/ecommerce/product/ProductService.java:49-64 | the loop fails exactly when some pair is short, naming the first short product; otherwise it yields one confirmation per line and decrements exactly the paired products |
| ProductService.PurchaseProduct | services/product/src/main/java/com/athar/ecommerce/product/ProductService.java:29-67 | a failed purchase leaves the inventory as it was, the inventory stays well keyed, and a success has one confirmation per request line |
| ProductService.ExistenceCheckPassesIff | services/product/src/main/java/com/athar/ecommerce/product/ProductService.java:33-41 | the existence check passes exactly when the lines name pairwise different products that are all stored |
| ProductService.PairingByPosition | services/product/src/main/java/com/athar/ecommerce/product/ProductService.java:37-52 | once the existence check passes, the i-th sorted line and the i-th row are the same product, and the sorted ids strictly increase |
| ProductService.IncompleteBatchFails | services/product/src/main/java/com/athar/ecommerce/product/ProductService.java:39-41 | a batch with a repeated or unknown product fails with the existence message and leaves the inventory unchanged |
| ProductService.RepeatedProductFails | services/product/src/main/java/com/athar/ecommerce/product/ProductService.java:33-41 | a batch naming the same product on two lines always fails the existence check |
| ProductService.MissingProductTakesPrecedence | services/product/src/main/java/com/athar/ecommerce/product/ProductService.java:39-56 | a batch with both an unknown and an under-stocked product fails with the existence message, which differs from every stock message |
| ProductService.InsufficientStockFails | services/product/src/main/java/com/athar/ecommerce/product/ProductService.java:29-56 | a complete batch with an under-stocked line fails with the stock message of the smallest under-stocked id and leaves the inventory unchanged |
| ProductService.SuccessfulPurchase | services/product/src/main/java/com/athar/ecommerce/product/ProductService.java:43-66 | a complete batch without shortfall yields confirmations that are a permutation of the lines, in ascending id order, each copying its stored product; each purchased stock drops by its quantity and stays non-negative; other products are untouched |
| ProductService.PurchaseSucceedsIff | services/product/src/main/java/com/athar/ecommerce/product/ProductService.java:29-67 | a purchase succeeds exactly when the lines name pairwise different stored products and no line asks for more than its stock |
| ProductService.SingleLineStockBoundary | services/product/src/main/java/com/athar/ecommerce/product/ProductService.java:53-59 | buying one product succeeds exactly when the quantity is at most the stock; buying exactly the stock leaves zero |
| ProductService.FindById | services/product/src/main/java/com/athar/ecommerce/product/ProductService.java:69-75 | a lookup succeeds exactly when the id is stored, and then shows that product's fields and its category's id, name and description; otherwise it fails with the not-found message naming the id |
| ProductService.NotFoundMessageNamesProduct | services/product/src/main/java/com/athar/ecommerce/product/ProductService.java:73 | the not-found messages of two ids are equal only if the ids are |
| ProductService.StockMessageNamesProduct | services/product/src/main/java/com/athar/ecommerce/product/ProductService.java:55 | the stock messages of two ids are equal only if the ids are |
| ProductService.FindByIdAfterPurchase | services/product/src/main/java/com/athar/ecommerce/product/ProductService.java:58-75 | after a successful purchase, looking up a purchased product shows its old stock minus the quantity bought |
| ProductMapper.ToProduct | services/product/src/main/java/com/athar/ecommerce/product/ProductMapper.java:10-20 | the entity copies the request's fields and refers to the category by id only |
| ProductMapper.ToProductResponse | services/product/src/main/java/com/athar/ecommerce/product/ProductMapper.java:23-33 | the response copies the product's fields and its category's id, name and description |
| ProductMapper.ToProductPurchaseResponse | services/product/src/main/java/com/athar/ecommerce/product/ProductMapper.java:35-42 | the confirmation copies id, name, description and price and carries the requested quantity |
| ProductMapper.ConfirmationIgnoresStock | services/product/src/main/java/com/athar/ecommerce/product/ProductMapper.java:35-42 | the confirmation does not depend on the product's stock, so confirming after the decrement is the same as before |
| ProductMapper.RequestResponseRoundTrip | services/product/src/main/java/com/athar/ecommerce/product/ProductMapper.java:10-33 | mapping a request to an entity and on to a response gives back the request's id, name, description, price, quantity and category id, with no category name or description |
| CustomerMapper.ToCustomer | services/customer/src/main/java/com/athar/ecommerce/customer/CustomerMapper.java:9-20 | null maps to null and only null; otherwise id, names, email and address are copied |
| CustomerService.CreateCustomer | services/customer/src/main/java/com/athar/ecommerce/customer/CustomerService.java:18-21 | creating returns the request's id, under which the mapped customer is now stored, and keeps every other customer |
| CustomerService.MergeField | services/customer/src/main/java/com/athar/ecommerce/customer/CustomerService.java:33-41 | a non-blank incoming value replaces the field, a blank or null one keeps it |
| CustomerService.MergeCustomer | services/customer/src/main/java/com/athar/ecommerce/customer/CustomerService.java:32-46 | the merge keeps the id, takes each non-blank name or email and a non-null address from the request, and keeps every other field |
| CustomerService.UpdateCustomer | services/customer/src/main/java/com/athar/ecommerce/customer/CustomerService.java:23-30 | an update succeeds exactly when the id is stored; otherwise it fails with the not-found message and changes nothing; on success only that customer changes, to its merge |
| CustomerService.MergeIdempotent | services/customer/src/main/java/com/athar/ecommerce/customer/CustomerService.java:32-46 | merging the same request twice gives the same customer as merging it once |
| CustomerService.MergeNeverBlanks | services/customer/src/main/java/com/athar/ecommerce/customer/CustomerService.java:32-46 | a merged name or email is non-blank exactly when the request's or the stored one was; a merged address is present exactly when either was |
| CustomerService.BlankRequestKeepsCustomer | services/customer/src/main/java/com/athar/ecommerce/customer/CustomerService.java:32-46 | a request whose fields are all blank and whose address is null leaves the customer as it was |
| CustomerService.FullRequestMatchesMapper | services/customer/src/main/java/com/athar/ecommerce/customer/CustomerService.java:32-46 | merging a fully filled request into the customer with its id gives exactly what the mapper builds from that request |
| CustomerService.UpdateIdempotent | services/customer/src/main/java/com/athar/ecommerce/customer/CustomerService.java:23-46 | applying the same update twice gives the same outcome and store as applying it once |
| CustomerService.UpdateAfterCreateSucceeds | services/customer/src/main/java/com/athar/ecommerce/customer/CustomerService.java:18-30 | a customer just created can be updated by any request carrying its id |
| CustomerService.NotFoundMessageNamesCustomer | services/customer/src/main/java/com/athar/ecommerce/customer/CustomerService.java:25-26 | the not-found messages of two ids are equal only if the ids are |
| CustomerService.NotFoundMessageExamples | services/customer/src/test/java/com/athar/ecommerce/customer/CustomerServiceTest.java:155-203 | the not-found messages for the ids "1", "" and "999" are the exact texts the tests expect |

## Left out

- Controllers and exception handlers: HTTP binding and status mapping only.
- Bean Validation (`@Valid`, `@Positive`, `@NotNull`): the framework enforces it before the services run. The model accepts any quantity, including zero and negative ones.
- JPA, the transaction manager, locking and concurrent batches: the repositories are maps and a transaction is the rollback rule only.
- Floating point: quantities are exact reals, so rounding, NaN and infinities of `double` are not modelled.
- Prices: `BigDecimal` is an opaque value that is copied and never computed on.
- ProductService.createProduct and findAll: they only save or map. The id `createProduct` returns is generated by the database; a fresh-id parameter could stand for it, but the model leaves this operation out. A customer listing appears only in the tests; CustomerService.java has no such method.
- ProductMapper.ToProductResponse: a product without a category throws a NullPointerException in the code; the model's products always have a category.
- CustomerService.CreateCustomer: a null request makes the mapper return null and the save fail; the model's create takes a request that is present, and customer ids are non-null strings.
- ProductService.StockMessage: assumes a default locale with ASCII digits; `%d` renders with the locale's digits.
- ProductService.FindById: the product id is a non-null `int`; a null `Integer` makes the repository throw, which is not modelled.
- CustomerService.UpdateCustomer: the request id is a non-null string; a null id makes the repository throw, which is not modelled.
- Text.IsWhitespace: Java 17's `Character.isWhitespace`; other Java versions differ in a few code points.
- ProductRepository.FindAllByIdInOrderById: a derived Spring Data query whose behaviour is stated here (an IN filter with ORDER BY id), not taken from code.
- Category.java, Customer.java, CustomerRequest.java, Address.java and ProductPurchaseRequest.java are not part of this model; their shapes are inferred from the getters and builders the services use.
