/** Field copies between the product records. */
module ProductMapper {
  import opened Results
  import opened ProductModel

  /** A new entity from a catalog request; the category carries only the requested id. */
  function ToProduct(request: ProductRequest): (p: Product)
    ensures p.id == request.id && p.name == request.name && p.description == request.description
    ensures p.price == request.price && p.availableQuantity == request.availableQuantity
    ensures p.category.id == request.categoryId
    ensures p.category.name.None? && p.category.description.None?
  {
    Product(
      request.id,
      request.name,
      request.description,
      request.price,
      request.availableQuantity,
      Category(request.categoryId, None, None))
  }

  /** The catalog view of a stored product. */
  function ToProductResponse(product: Product): (r: ProductResponse)
    ensures r.id == product.id && r.name == product.name && r.description == product.description
    ensures r.price == product.price && r.availableQuantity == product.availableQuantity
    ensures r.categoryId == product.category.id
    ensures r.categoryName == product.category.name && r.categoryDescription == product.category.description
  {
    ProductResponse(
      product.id,
      product.name,
      product.description,
      product.price,
      product.availableQuantity,
      product.category.id,
      product.category.name,
      product.category.description)
  }

  /** The confirmation of a purchased line: the product's identity and price,
      and the quantity that was requested. */
  function ToProductPurchaseResponse(product: Product, requestedQuantity: real): (r: ProductPurchaseResponse)
    ensures r.quantity == requestedQuantity
    ensures r.id == product.id && r.name == product.name && r.description == product.description
    ensures r.price == product.price
  {
    ProductPurchaseResponse(
      product.id,
      product.name,
      product.description,
      product.price,
      requestedQuantity)
  }

  /** A confirmation does not depend on the stock left on the product. */
  lemma ConfirmationIgnoresStock(product: Product, stock: real, requestedQuantity: real)
    ensures ToProductPurchaseResponse(product.(availableQuantity := stock), requestedQuantity)
         == ToProductPurchaseResponse(product, requestedQuantity)
  {
  }

  /** Creating an entity from a request and viewing it gives back every field
      of the request; the category's name and description are unset. */
  lemma RequestResponseRoundTrip(request: ProductRequest)
    ensures var r := ToProductResponse(ToProduct(request));
      && r.id == request.id
      && r.name == request.name
      && r.description == request.description
      && r.price == request.price
      && r.availableQuantity == request.availableQuantity
      && r.categoryId == request.categoryId
      && r.categoryName.None? && r.categoryDescription.None?
  {
  }
}
