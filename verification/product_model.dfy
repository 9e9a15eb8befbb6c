/** The records of the product service: the stored entity, the catalog
    request and response, and the purchase request and confirmation. */
module ProductModel {
  import opened Results
  import opened Text

  /** java.math.BigDecimal as its unscaled value and scale; it is only copied. */
  datatype Decimal = Decimal(unscaled: int, scale: int)

  /** The category a product belongs to. */
  datatype Category = Category(id: int, name: NullableString, description: NullableString)

  /** The stored product entity; its quantity is a Java double, held here as a real. */
  datatype Product = Product(
    id: int,
    name: NullableString,
    description: NullableString,
    price: Option<Decimal>,
    availableQuantity: real,
    category: Category)

  /** The catalog create request; the category is referenced by id only. */
  datatype ProductRequest = ProductRequest(
    id: int,
    name: NullableString,
    description: NullableString,
    price: Option<Decimal>,
    availableQuantity: real,
    categoryId: int)

  /** The catalog view of a product, with its category flattened in. */
  datatype ProductResponse = ProductResponse(
    id: int,
    name: NullableString,
    description: NullableString,
    price: Option<Decimal>,
    availableQuantity: real,
    categoryId: int,
    categoryName: NullableString,
    categoryDescription: NullableString)

  /** One line of a purchase batch. */
  datatype ProductPurchaseRequest = ProductPurchaseRequest(productId: int, quantity: real)

  /** The confirmation of one purchased line. */
  datatype ProductPurchaseResponse = ProductPurchaseResponse(
    id: int,
    name: NullableString,
    description: NullableString,
    price: Option<Decimal>,
    quantity: real)

  /** The sort key of a purchase line. */
  function LineProductId(line: ProductPurchaseRequest): int {
    line.productId
  }
}
