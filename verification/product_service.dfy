/** The batch purchase and the lookup by id of the product service. */
module ProductService {
  import opened Results
  import opened Text
  import opened Sorting
  import opened ProductModel
  import opened ProductMapper
  import opened ProductRepository

  const ExistenceMessage: string := "One or more products does not exists!"

  function StockMessage(productId: int): string {
    "Not enough stock for product ID " + IntToString(productId)
  }

  function NotFoundMessage(productId: int): string {
    "product with id " + IntToString(productId) + " not found"
  }

  /** The requested ids in request order, repeats included. */
  function ProductIds(request: seq<ProductPurchaseRequest>): seq<int> {
    KeysOf(request, LineProductId)
  }

  /** The line asks for more than the product holds. */
  predicate Short(product: Product, line: ProductPurchaseRequest) {
    product.availableQuantity < line.quantity
  }

  /** The position of the first line that asks for more than its product
      holds, or the number of lines when there is none. */
  function FirstShortfall(products: seq<Product>, lines: seq<ProductPurchaseRequest>): (k: nat)
    requires |products| == |lines|
    ensures k <= |lines|
    ensures forall j :: 0 <= j < k ==> !Short(products[j], lines[j])
    ensures k < |lines| ==> Short(products[k], lines[k])
    decreases |lines|
  {
    if |lines| == 0 then 0
    else if Short(products[0], lines[0]) then 0
    else 1 + FirstShortfall(products[1..], lines[1..])
  }

  /** The product with the purchased quantity taken off its stock. */
  function Decrement(product: Product, quantity: real): Product {
    product.(availableQuantity := product.availableQuantity - quantity)
  }

  /** The ids of the products, as a set. */
  function IdSet(products: seq<Product>): set<int> {
    set i | 0 <= i < |products| :: products[i].id
  }

  /** The loop over the paired products and lines: each line is checked,
      decremented, saved into the working store and confirmed, until a line
      asks for more than its product holds, which throws. */
  function Fulfil(working: Store, products: seq<Product>, lines: seq<ProductPurchaseRequest>)
    : (r: Result<(seq<ProductPurchaseResponse>, Store)>)
    requires |products| == |lines|
    requires InIdOrder(products)
    ensures r.Failure? <==> FirstShortfall(products, lines) < |lines|
    ensures r.Failure? ==>
      r.error == ProductPurchaseException(StockMessage(products[FirstShortfall(products, lines)].id))
    ensures r.Success? ==> |r.value.0| == |lines|
    ensures r.Success? ==> forall i :: 0 <= i < |lines| ==>
      r.value.0[i] == ToProductPurchaseResponse(products[i], lines[i].quantity)
    ensures r.Success? ==> r.value.1.Keys == working.Keys + IdSet(products)
    ensures r.Success? ==> forall i :: 0 <= i < |products| ==>
      r.value.1[products[i].id] == Decrement(products[i], lines[i].quantity)
    ensures r.Success? ==> forall id :: id in working && id !in IdSet(products) ==>
      r.value.1[id] == working[id]
    ensures r.Success? && WellKeyed(working) ==> WellKeyed(r.value.1)
    decreases |lines|
  {
    if |lines| == 0 then Success(([], working))
    else
      var product := products[0];
      var line := lines[0];
      if product.availableQuantity < line.quantity then
        Failure(ProductPurchaseException(StockMessage(product.id)))
      else
        var updated := Decrement(product, line.quantity);
        var saved := Save(working, updated);
        assert InIdOrder(products[1..]) by {
          forall i, j | 0 <= i < j < |products| - 1 ensures products[1..][i].id < products[1..][j].id {
            assert products[1..][i] == products[i + 1] && products[1..][j] == products[j + 1];
          }
        }
        var rest := Fulfil(saved, products[1..], lines[1..]);
        match rest
        case Failure(e) => Failure(e)
        case Success((responses, final)) =>
          FulfilStep(working, products, lines, responses, final);
          Success(([ToProductPurchaseResponse(updated, line.quantity)] + responses, final))
  }

  /** The inductive step of Fulfil's contract, once the first line has been
      saved and the remaining lines have succeeded. */
  lemma FulfilStep(working: Store, products: seq<Product>, lines: seq<ProductPurchaseRequest>,
                   responses: seq<ProductPurchaseResponse>, final: Store)
    requires |products| == |lines| > 0
    requires InIdOrder(products)
    requires |responses| == |lines| - 1
    requires forall i :: 0 <= i < |lines| - 1 ==>
      responses[i] == ToProductPurchaseResponse(products[i + 1], lines[i + 1].quantity)
    requires final.Keys == Save(working, Decrement(products[0], lines[0].quantity)).Keys + IdSet(products[1..])
    requires forall i :: 1 <= i < |products| ==>
      final[products[i].id] == Decrement(products[i], lines[i].quantity)
    requires forall id :: id in working && id != products[0].id && id !in IdSet(products[1..]) ==>
      final[id] == working[id]
    requires products[0].id !in IdSet(products[1..]) ==>
      final[products[0].id] == Decrement(products[0], lines[0].quantity)
    ensures products[0].id !in IdSet(products[1..])
    ensures final.Keys == working.Keys + IdSet(products)
    ensures forall i :: 0 <= i < |products| ==> final[products[i].id] == Decrement(products[i], lines[i].quantity)
    ensures forall id :: id in working && id !in IdSet(products) ==> final[id] == working[id]
  {
    forall i | 0 <= i < |products| - 1 ensures products[0].id != products[1..][i].id {
      assert products[1..][i] == products[i + 1];
    }
    assert IdSet(products) == {products[0].id} + IdSet(products[1..]) by {
      forall x | x in IdSet(products) ensures x in {products[0].id} + IdSet(products[1..]) {
        var i :| 0 <= i < |products| && products[i].id == x;
        if i > 0 {
          assert products[1..][i - 1] == products[i];
        }
      }
      forall x | x in IdSet(products[1..]) ensures x in IdSet(products) {
        var i :| 0 <= i < |products| - 1 && products[1..][i].id == x;
        assert products[1..][i] == products[i + 1];
      }
    }
  }

  /** purchaseProduct: look every requested product up at once, reject the
      batch unless each line found its own product, then walk the lines in
      ascending id order alongside the products, all inside one transaction. */
  function PurchaseProduct(store: Store, request: seq<ProductPurchaseRequest>)
    : (o: Outcome<seq<ProductPurchaseResponse>, Store>)
    requires WellKeyed(store)
    ensures o.result.Failure? ==> o.state == store
    ensures WellKeyed(o.state)
    ensures o.result.Success? ==> |o.result.value| == |request|
  {
    var productIds := ProductIds(request);
    var storedProducts := FindAllByIdInOrderById(store, productIds);
    if |productIds| != |storedProducts| then
      Transactional(store, Failure(ProductPurchaseException(ExistenceMessage)))
    else
      var sortedRequest := SortBy(request, LineProductId);
      Transactional(store, Fulfil(store, storedProducts, sortedRequest))
  }

  /** The request lines name pairwise different products. */
  predicate DistinctProducts(request: seq<ProductPurchaseRequest>) {
    forall i, j :: 0 <= i < j < |request| ==> request[i].productId != request[j].productId
  }

  /** Every requested product is in the store. */
  predicate AllStored(store: Store, request: seq<ProductPurchaseRequest>) {
    forall i :: 0 <= i < |request| ==> request[i].productId in store
  }

  /** The line asks for more than its stored product holds. */
  predicate Shortfall(store: Store, line: ProductPurchaseRequest) {
    line.productId in store && store[line.productId].availableQuantity < line.quantity
  }

  /** Some line of the request names the product. */
  predicate Requested(request: seq<ProductPurchaseRequest>, productId: int) {
    exists i :: 0 <= i < |request| && request[i].productId == productId
  }

  /** The existence check passes exactly when the lines name pairwise
      different products that are all stored. */
  lemma ExistenceCheckPassesIff(store: Store, request: seq<ProductPurchaseRequest>)
    requires WellKeyed(store)
    ensures |FindAllByIdInOrderById(store, ProductIds(request))| == |request|
        <==> DistinctProducts(request) && AllStored(store, request)
  {
    var ids := ProductIds(request);
    FindAllCountMatchesIff(store, ids);
    assert Distinct(ids) <==> DistinctProducts(request);
    assert (forall i :: 0 <= i < |ids| ==> ids[i] in store) <==> AllStored(store, request);
  }

  /** The lines sorted by id carry, position by position, the sorted ids. */
  lemma SortedLineIds(request: seq<ProductPurchaseRequest>)
    ensures |SortBy(ProductIds(request), Identity)| == |request|
    ensures forall i :: 0 <= i < |request| ==>
      SortBy(request, LineProductId)[i].productId == SortBy(ProductIds(request), Identity)[i]
  {
    var sorted := SortBy(request, LineProductId);
    SortKeysCommute(request, LineProductId);
    assert KeysOf(sorted, LineProductId) == SortBy(ProductIds(request), Identity);
    forall i | 0 <= i < |request|
      ensures sorted[i].productId == SortBy(ProductIds(request), Identity)[i]
    {
      assert KeysOf(sorted, LineProductId)[i] == LineProductId(sorted[i]);
    }
  }

  /** The sorted ids of a batch that passes the existence check are strictly
      increasing, left as they are by removing repeats, and all stored. */
  lemma SortedIdsUnique(store: Store, request: seq<ProductPurchaseRequest>)
    requires DistinctProducts(request) && AllStored(store, request)
    ensures StrictlyIncreasing(SortBy(ProductIds(request), Identity))
    ensures DedupSorted(SortBy(ProductIds(request), Identity)) == SortBy(ProductIds(request), Identity)
    ensures forall i :: 0 <= i < |SortBy(ProductIds(request), Identity)| ==>
      SortBy(ProductIds(request), Identity)[i] in store
  {
    var ids := ProductIds(request);
    var sortedIds := SortBy(ids, Identity);
    assert Distinct(ids);
    DistinctIsPermutationInvariant(sortedIds, ids);
    SortedDistinctIffStrict(sortedIds);
    SortPreservesMembership(ids, Identity);
    forall i | 0 <= i < |sortedIds| ensures sortedIds[i] in store {
      var x := sortedIds[i];
      assert x in sortedIds;
      assert x in ids;
      var k :| 0 <= k < |ids| && ids[k] == x;
    }
  }

  /** Once the existence check has passed, the i-th product found is the
      stored product of the i-th line in ascending id order, and those lines
      have strictly ascending ids: the positional pairing is sound. */
  lemma PairingByPosition(store: Store, request: seq<ProductPurchaseRequest>)
    requires WellKeyed(store)
    requires DistinctProducts(request) && AllStored(store, request)
    ensures |FindAllByIdInOrderById(store, ProductIds(request))| == |request|
    ensures forall i :: 0 <= i < |request| ==>
      SortBy(request, LineProductId)[i].productId in store &&
      FindAllByIdInOrderById(store, ProductIds(request))[i] == store[SortBy(request, LineProductId)[i].productId]
    ensures forall i, j :: 0 <= i < j < |request| ==>
      SortBy(request, LineProductId)[i].productId < SortBy(request, LineProductId)[j].productId
  {
    var ids := ProductIds(request);
    var sortedIds := SortBy(ids, Identity);
    SortedLineIds(request);
    SortedIdsUnique(store, request);
    assert FindAllByIdInOrderById(store, ids) == LookupAll(store, sortedIds);
  }

  /** A batch that repeats a product or names one that is not stored fails
      the existence check and changes nothing. */
  lemma IncompleteBatchFails(store: Store, request: seq<ProductPurchaseRequest>)
    requires WellKeyed(store)
    requires !DistinctProducts(request) || !AllStored(store, request)
    ensures PurchaseProduct(store, request)
         == Outcome(Failure(ProductPurchaseException(ExistenceMessage)), store)
  {
    ExistenceCheckPassesIff(store, request);
  }

  /** Two lines for the same product always fail the existence check, since
      the lookup returns the product once while the id list keeps both. */
  lemma RepeatedProductFails(store: Store, request: seq<ProductPurchaseRequest>, i: int, j: int)
    requires WellKeyed(store)
    requires 0 <= i < j < |request| && request[i].productId == request[j].productId
    ensures PurchaseProduct(store, request)
         == Outcome(Failure(ProductPurchaseException(ExistenceMessage)), store)
  {
    IncompleteBatchFails(store, request);
  }

  /** A missing product is reported even when another line is short of stock:
      the existence check comes first and its message names no product. */
  lemma MissingProductTakesPrecedence(store: Store, request: seq<ProductPurchaseRequest>, missing: int, short: int)
    requires WellKeyed(store)
    requires 0 <= missing < |request| && request[missing].productId !in store
    requires 0 <= short < |request| && Shortfall(store, request[short])
    ensures PurchaseProduct(store, request)
         == Outcome(Failure(ProductPurchaseException(ExistenceMessage)), store)
    ensures forall id :: ExistenceMessage != StockMessage(id)
  {
    IncompleteBatchFails(store, request);
    forall id ensures ExistenceMessage != StockMessage(id) {
      assert ExistenceMessage[0] != StockMessage(id)[0];
    }
  }

  /** The products found and the sorted lines, once the existence check has
      passed: equally long, the k-th product is the stored product of the
      k-th line, ids strictly ascending, and the lines a rearrangement of the
      request. */
  predicate PairedWith(store: Store, request: seq<ProductPurchaseRequest>,
                       stored: seq<Product>, sorted: seq<ProductPurchaseRequest>)
  {
    && |stored| == |sorted| == |request|
    && InIdOrder(stored)
    && (forall k :: 0 <= k < |sorted| ==> sorted[k].productId in store && stored[k] == store[sorted[k].productId])
    && (forall k, l :: 0 <= k < l < |sorted| ==> sorted[k].productId < sorted[l].productId)
    && multiset(sorted) == multiset(request)
  }

  /** Past the existence check, the purchase is the loop over the found
      products paired with the sorted lines, inside the transaction. */
  lemma PurchasePastExistenceCheck(store: Store, request: seq<ProductPurchaseRequest>)
    returns (stored: seq<Product>, sorted: seq<ProductPurchaseRequest>)
    requires WellKeyed(store)
    requires DistinctProducts(request) && AllStored(store, request)
    ensures PairedWith(store, request, stored, sorted)
    ensures PurchaseProduct(store, request) == Transactional(store, Fulfil(store, stored, sorted))
  {
    PairingByPosition(store, request);
    stored := FindAllByIdInOrderById(store, ProductIds(request));
    sorted := SortBy(request, LineProductId);
  }

  /** The loop over a sound pairing stops at the line with the smallest
      product id among those short of stock. */
  lemma PairedLoopFailure(store: Store, request: seq<ProductPurchaseRequest>,
                          stored: seq<Product>, sorted: seq<ProductPurchaseRequest>, short: int)
    returns (i: int)
    requires WellKeyed(store)
    requires PairedWith(store, request, stored, sorted)
    requires 0 <= short < |request| && Shortfall(store, request[short])
    ensures 0 <= i < |request| && Shortfall(store, request[i])
    ensures Fulfil(store, stored, sorted) == Failure(ProductPurchaseException(StockMessage(request[i].productId)))
    ensures forall j :: 0 <= j < |request| && Shortfall(store, request[j]) ==>
      request[i].productId <= request[j].productId
  {
    var k := PositionIn(request, sorted, short);
    assert Short(stored[k], sorted[k]);
    var f := FirstShortfall(stored, sorted);
    assert f <= k;
    i := PositionIn(sorted, request, f);
    assert stored[f].id == request[i].productId;
    forall j | 0 <= j < |request| && Shortfall(store, request[j])
      ensures request[i].productId <= request[j].productId
    {
      var kj := PositionIn(request, sorted, j);
      assert Short(stored[kj], sorted[kj]);
      assert f <= kj;
    }
  }

  /** A batch whose products all exist but where some line asks for more than
      its product holds fails, naming the smallest such product id, and the
      transaction leaves the store as it was. */
  lemma InsufficientStockFails(store: Store, request: seq<ProductPurchaseRequest>, short: int)
    returns (i: int)
    requires WellKeyed(store)
    requires DistinctProducts(request) && AllStored(store, request)
    requires 0 <= short < |request| && Shortfall(store, request[short])
    ensures PurchaseProduct(store, request).state == store
    ensures 0 <= i < |request| && Shortfall(store, request[i])
    ensures PurchaseProduct(store, request).result
         == Failure(ProductPurchaseException(StockMessage(request[i].productId)))
    ensures forall j :: 0 <= j < |request| && Shortfall(store, request[j]) ==>
      request[i].productId <= request[j].productId
  {
    var stored, sorted := PurchasePastExistenceCheck(store, request);
    i := PairedLoopFailure(store, request, stored, sorted, short);
  }

  /** The purchase line a confirmation answers: its product id and quantity. */
  function AnsweredLine(response: ProductPurchaseResponse): ProductPurchaseRequest {
    ProductPurchaseRequest(response.id, response.quantity)
  }

  function AnsweredLines(responses: seq<ProductPurchaseResponse>): (lines: seq<ProductPurchaseRequest>)
    ensures |lines| == |responses|
    ensures forall k :: 0 <= k < |responses| ==> lines[k] == AnsweredLine(responses[k])
  {
    if |responses| == 0 then [] else [AnsweredLine(responses[0])] + AnsweredLines(responses[1..])
  }

  /** The confirmation copies name, description and price from the product
      stored under its id. */
  predicate ConfirmsStored(response: ProductPurchaseResponse, store: Store) {
    && response.id in store
    && response.name == store[response.id].name
    && response.description == store[response.id].description
    && response.price == store[response.id].price
  }

  /** What the loop over a sound pairing yields when no line is short. */
  lemma PairedLoopSuccess(store: Store, request: seq<ProductPurchaseRequest>,
                          stored: seq<Product>, sorted: seq<ProductPurchaseRequest>)
    returns (responses: seq<ProductPurchaseResponse>, after: Store)
    requires WellKeyed(store) && AllStored(store, request)
    requires PairedWith(store, request, stored, sorted)
    requires forall i :: 0 <= i < |request| ==> !Shortfall(store, request[i])
    ensures Fulfil(store, stored, sorted) == Success((responses, after))
    ensures multiset(AnsweredLines(responses)) == multiset(request)
    ensures forall k, l :: 0 <= k < l < |responses| ==> responses[k].id < responses[l].id
    ensures forall k :: 0 <= k < |responses| ==> ConfirmsStored(responses[k], store)
    ensures after.Keys == store.Keys
    ensures forall i :: 0 <= i < |request| ==>
      after[request[i].productId] == Decrement(store[request[i].productId], request[i].quantity)
    ensures forall i :: 0 <= i < |request| ==> after[request[i].productId].availableQuantity >= 0.0
    ensures forall id :: id in store && !Requested(request, id) ==> after[id] == store[id]
  {
    var f := FirstShortfall(stored, sorted);
    if f < |sorted| {
      var i := PositionIn(sorted, request, f);
      assert Shortfall(store, request[i]);
      assert false;
    }
    var r := Fulfil(store, stored, sorted);
    responses, after := r.value.0, r.value.1;
    LoopResponses(store, request, stored, sorted, responses);
    LoopStore(store, request, stored, sorted, after);
  }

  /** The confirmations of a sound pairing answer the sorted lines. */
  lemma LoopResponses(store: Store, request: seq<ProductPurchaseRequest>,
                      stored: seq<Product>, sorted: seq<ProductPurchaseRequest>,
                      responses: seq<ProductPurchaseResponse>)
    requires WellKeyed(store)
    requires PairedWith(store, request, stored, sorted)
    requires |responses| == |sorted|
    requires forall k :: 0 <= k < |sorted| ==>
      responses[k] == ToProductPurchaseResponse(stored[k], sorted[k].quantity)
    ensures multiset(AnsweredLines(responses)) == multiset(request)
    ensures forall k, l :: 0 <= k < l < |responses| ==> responses[k].id < responses[l].id
    ensures forall k :: 0 <= k < |responses| ==> ConfirmsStored(responses[k], store)
  {
    forall k | 0 <= k < |sorted| ensures responses[k].id == sorted[k].productId {
      assert stored[k] == store[sorted[k].productId];
    }
    assert AnsweredLines(responses) == sorted;
  }

  /** The store the loop over a sound pairing commits. */
  lemma LoopStore(store: Store, request: seq<ProductPurchaseRequest>,
                  stored: seq<Product>, sorted: seq<ProductPurchaseRequest>, after: Store)
    requires WellKeyed(store) && AllStored(store, request)
    requires PairedWith(store, request, stored, sorted)
    requires forall i :: 0 <= i < |request| ==> !Shortfall(store, request[i])
    requires after.Keys == store.Keys + IdSet(stored)
    requires forall k :: 0 <= k < |stored| ==>
      after[stored[k].id] == Decrement(stored[k], sorted[k].quantity)
    requires forall id :: id in store && id !in IdSet(stored) ==> after[id] == store[id]
    ensures after.Keys == store.Keys
    ensures forall i :: 0 <= i < |request| ==>
      after[request[i].productId] == Decrement(store[request[i].productId], request[i].quantity)
    ensures forall i :: 0 <= i < |request| ==> after[request[i].productId].availableQuantity >= 0.0
    ensures forall id :: id in store && !Requested(request, id) ==> after[id] == store[id]
  {
    forall i | 0 <= i < |request|
      ensures after[request[i].productId] == Decrement(store[request[i].productId], request[i].quantity)
    {
      var k := PositionIn(request, sorted, i);
      assert stored[k].id == request[i].productId;
    }
    forall id | id in IdSet(stored) ensures id in store && Requested(request, id) {
      var k :| 0 <= k < |stored| && stored[k].id == id;
      var i := PositionIn(sorted, request, k);
      assert request[i].productId == id;
    }
  }

  /** A batch of distinct stored products, none short of stock, succeeds: the
      confirmations answer exactly the request lines, in ascending id order,
      each with the stored product's details and the requested quantity; each
      purchased product loses exactly its requested quantity and does not go
      below zero; nothing else in the store changes. */
  lemma SuccessfulPurchase(store: Store, request: seq<ProductPurchaseRequest>)
    returns (responses: seq<ProductPurchaseResponse>, after: Store)
    requires WellKeyed(store)
    requires DistinctProducts(request) && AllStored(store, request)
    requires forall i :: 0 <= i < |request| ==> !Shortfall(store, request[i])
    ensures PurchaseProduct(store, request) == Outcome(Success(responses), after)
    ensures multiset(AnsweredLines(responses)) == multiset(request)
    ensures forall k, l :: 0 <= k < l < |responses| ==> responses[k].id < responses[l].id
    ensures forall k :: 0 <= k < |responses| ==> ConfirmsStored(responses[k], store)
    ensures after.Keys == store.Keys
    ensures forall i :: 0 <= i < |request| ==>
      after[request[i].productId] == Decrement(store[request[i].productId], request[i].quantity)
    ensures forall i :: 0 <= i < |request| ==> after[request[i].productId].availableQuantity >= 0.0
    ensures forall id :: id in store && !Requested(request, id) ==> after[id] == store[id]
  {
    var stored, sorted := PurchasePastExistenceCheck(store, request);
    responses, after := PairedLoopSuccess(store, request, stored, sorted);
  }

  /** The batch succeeds exactly when its lines name pairwise different
      stored products and none asks for more than its product holds. */
  lemma PurchaseSucceedsIff(store: Store, request: seq<ProductPurchaseRequest>)
    requires WellKeyed(store)
    ensures PurchaseProduct(store, request).result.Success?
        <==> && DistinctProducts(request)
             && AllStored(store, request)
             && forall i :: 0 <= i < |request| ==> !Shortfall(store, request[i])
  {
    if !DistinctProducts(request) || !AllStored(store, request) {
      IncompleteBatchFails(store, request);
    } else if short :| 0 <= short < |request| && Shortfall(store, request[short]) {
      var _ := InsufficientStockFails(store, request, short);
    } else {
      var _, _ := SuccessfulPurchase(store, request);
    }
  }

  /** A single line succeeds exactly when it asks for no more than the stock,
      so buying all of it is allowed and leaves the product at zero. */
  lemma SingleLineStockBoundary(store: Store, productId: int, quantity: real)
    requires WellKeyed(store) && productId in store
    ensures PurchaseProduct(store, [ProductPurchaseRequest(productId, quantity)]).result.Success?
        <==> quantity <= store[productId].availableQuantity
    ensures quantity == store[productId].availableQuantity ==>
      PurchaseProduct(store, [ProductPurchaseRequest(productId, quantity)]).state[productId].availableQuantity == 0.0
  {
    var request := [ProductPurchaseRequest(productId, quantity)];
    PurchaseSucceedsIff(store, request);
    if quantity <= store[productId].availableQuantity {
      var _, _ := SuccessfulPurchase(store, request);
    }
  }

  /** findById: the catalog view of the stored product, or an
      EntityNotFoundException naming the id. */
  function FindById(store: Store, productId: int): (r: Result<ProductResponse>)
    requires WellKeyed(store)
    ensures r.Success? <==> productId in store
    ensures r.Failure? ==> r.error == EntityNotFoundException(NotFoundMessage(productId))
    ensures r.Success? ==>
      && r.value.id == productId
      && r.value.name == store[productId].name
      && r.value.description == store[productId].description
      && r.value.price == store[productId].price
      && r.value.availableQuantity == store[productId].availableQuantity
      && r.value.categoryId == store[productId].category.id
      && r.value.categoryName == store[productId].category.name
      && r.value.categoryDescription == store[productId].category.description
  {
    if productId in store then Success(ToProductResponse(store[productId]))
    else Failure(EntityNotFoundException(NotFoundMessage(productId)))
  }

  /** The not-found message names exactly one product id. */
  lemma NotFoundMessageNamesProduct(a: int, b: int)
    requires NotFoundMessage(a) == NotFoundMessage(b)
    ensures a == b
  {
    FramedIntInjective("product with id ", " not found", a, b);
  }

  /** The stock message names exactly one product id. */
  lemma StockMessageNamesProduct(a: int, b: int)
    requires StockMessage(a) == StockMessage(b)
    ensures a == b
  {
    var prefix := "Not enough stock for product ID ";
    assert prefix + IntToString(a) + "" == StockMessage(a);
    assert prefix + IntToString(b) + "" == StockMessage(b);
    FramedIntInjective(prefix, "", a, b);
  }

  /** After a successful purchase, looking a purchased product up reports its
      stock reduced by exactly the requested quantity. */
  lemma FindByIdAfterPurchase(store: Store, request: seq<ProductPurchaseRequest>, i: int)
    requires WellKeyed(store)
    requires DistinctProducts(request) && AllStored(store, request)
    requires forall j :: 0 <= j < |request| ==> !Shortfall(store, request[j])
    requires 0 <= i < |request|
    ensures FindById(PurchaseProduct(store, request).state, request[i].productId).Success?
    ensures FindById(PurchaseProduct(store, request).state, request[i].productId).value.availableQuantity
         == store[request[i].productId].availableQuantity - request[i].quantity
  {
    var _, _ := SuccessfulPurchase(store, request);
  }
}
