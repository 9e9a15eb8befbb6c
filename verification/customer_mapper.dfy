/** The request-to-document copy of the customer service. */
module CustomerMapper {
  import opened Results
  import opened CustomerModel

  /** toCustomer: null maps to null; otherwise every field is copied as is. */
  function ToCustomer(request: Option<CustomerRequest>): (c: Option<Customer>)
    ensures c.None? <==> request.None?
    ensures c.Some? ==> c.value.id == request.value.id
    ensures c.Some? ==>
      && c.value.firstName == request.value.firstName
      && c.value.lastName == request.value.lastName
      && c.value.email == request.value.email
    ensures c.Some? ==> c.value.address == request.value.address
  {
    match request
    case None => None
    case Some(r) => Some(Customer(r.id, r.firstName, r.lastName, r.email, r.address))
  }
}
