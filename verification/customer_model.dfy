/** The records of the customer service. */
module CustomerModel {
  import opened Results
  import opened Text

  datatype Address = Address(street: NullableString, houseNumber: NullableString, zipCode: NullableString)

  /** The stored customer document, keyed by its string id. */
  datatype Customer = Customer(
    id: string,
    firstName: NullableString,
    lastName: NullableString,
    email: NullableString,
    address: Option<Address>)

  /** The create and update request; on update, blank fields mean "keep". */
  datatype CustomerRequest = CustomerRequest(
    id: string,
    firstName: NullableString,
    lastName: NullableString,
    email: NullableString,
    address: Option<Address>)
}
