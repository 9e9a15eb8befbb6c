/** Creating customers and merging partial updates into stored customers. */
module CustomerService {
  import opened Results
  import opened Text
  import opened CustomerModel
  import opened CustomerMapper

  type CustomerStore = map<string, Customer>

  /** Every customer is stored under its own id. */
  predicate WellKeyed(store: CustomerStore) {
    forall id :: id in store ==> store[id].id == id
  }

  function CustomerNotFoundMessage(id: string): string {
    "Cannot update customer:: Customer with id " + id + " not found"
  }

  /** createCustomer: save the mapped request and return the saved id. */
  function CreateCustomer(store: CustomerStore, request: CustomerRequest): (o: (string, CustomerStore))
    requires WellKeyed(store)
    ensures o.0 == request.id
    ensures WellKeyed(o.1)
    ensures o.1.Keys == store.Keys + {request.id}
    ensures Some(o.1[o.0]) == ToCustomer(Some(request))
    ensures forall id :: id in store && id != request.id ==> o.1[id] == store[id]
  {
    var customer := ToCustomer(Some(request)).value;
    var saved := store[customer.id := customer];
    (customer.id, saved)
  }

  /** One field of the merge: a non-blank incoming value wins, anything else
      keeps the current value. */
  function MergeField(current: NullableString, incoming: NullableString): (v: NullableString)
    ensures IsNotBlank(incoming) ==> v == incoming
    ensures IsBlank(incoming) ==> v == current
  {
    if IsNotBlank(incoming) then incoming else current
  }

  /** mergeCustomer: the names and email are overwritten only by non-blank
      values, the address only by a non-null one, and the id never. */
  function MergeCustomer(customer: Customer, request: CustomerRequest): (c: Customer)
    ensures c.id == customer.id
    ensures IsNotBlank(request.firstName) ==> c.firstName == request.firstName
    ensures IsBlank(request.firstName) ==> c.firstName == customer.firstName
    ensures IsNotBlank(request.lastName) ==> c.lastName == request.lastName
    ensures IsBlank(request.lastName) ==> c.lastName == customer.lastName
    ensures IsNotBlank(request.email) ==> c.email == request.email
    ensures IsBlank(request.email) ==> c.email == customer.email
    ensures request.address.Some? ==> c.address == request.address
    ensures request.address.None? ==> c.address == customer.address
  {
    customer.(
      firstName := MergeField(customer.firstName, request.firstName),
      lastName := MergeField(customer.lastName, request.lastName),
      email := MergeField(customer.email, request.email),
      address := if request.address.Some? then request.address else customer.address)
  }

  /** updateCustomer: fail with CustomerNotFoundException when no customer has
      the request's id, otherwise save the merged customer. */
  function UpdateCustomer(store: CustomerStore, request: CustomerRequest): (o: Outcome<(), CustomerStore>)
    requires WellKeyed(store)
    ensures o.result.Success? <==> request.id in store
    ensures o.result.Failure? ==>
      o.result.error == CustomerNotFoundException(CustomerNotFoundMessage(request.id)) && o.state == store
    ensures WellKeyed(o.state)
    ensures o.state.Keys == store.Keys
    ensures o.result.Success? ==> o.state[request.id] == MergeCustomer(store[request.id], request)
    ensures forall id :: id in store && id != request.id ==> o.state[id] == store[id]
  {
    if request.id !in store then
      Outcome(Failure(CustomerNotFoundException(CustomerNotFoundMessage(request.id))), store)
    else
      var customer := MergeCustomer(store[request.id], request);
      Outcome(Success(()), store[customer.id := customer])
  }

  /** Merging the same request a second time changes nothing more. */
  lemma MergeIdempotent(customer: Customer, request: CustomerRequest)
    ensures MergeCustomer(MergeCustomer(customer, request), request) == MergeCustomer(customer, request)
  {
  }

  /** The merge never blanks a field out: a merged name or email is non-blank
      exactly when the request's or the stored one was. */
  lemma MergeNeverBlanks(customer: Customer, request: CustomerRequest)
    ensures IsNotBlank(MergeCustomer(customer, request).firstName)
        <==> IsNotBlank(request.firstName) || IsNotBlank(customer.firstName)
    ensures IsNotBlank(MergeCustomer(customer, request).lastName)
        <==> IsNotBlank(request.lastName) || IsNotBlank(customer.lastName)
    ensures IsNotBlank(MergeCustomer(customer, request).email)
        <==> IsNotBlank(request.email) || IsNotBlank(customer.email)
    ensures MergeCustomer(customer, request).address.Some?
        <==> request.address.Some? || customer.address.Some?
  {
  }

  /** A request with only blank fields and no address leaves the customer as it was. */
  lemma BlankRequestKeepsCustomer(customer: Customer, request: CustomerRequest)
    requires IsBlank(request.firstName) && IsBlank(request.lastName) && IsBlank(request.email)
    requires request.address.None?
    ensures MergeCustomer(customer, request) == customer
  {
  }

  /** A request with every field filled in turns the customer into exactly
      what the mapper would build from that request. */
  lemma FullRequestMatchesMapper(customer: Customer, request: CustomerRequest)
    requires request.id == customer.id
    requires IsNotBlank(request.firstName) && IsNotBlank(request.lastName) && IsNotBlank(request.email)
    requires request.address.Some?
    ensures Some(MergeCustomer(customer, request)) == ToCustomer(Some(request))
  {
  }

  /** Applying the same update twice leaves the same store as applying it once. */
  lemma UpdateIdempotent(store: CustomerStore, request: CustomerRequest)
    requires WellKeyed(store)
    ensures UpdateCustomer(UpdateCustomer(store, request).state, request) == UpdateCustomer(store, request)
  {
    if request.id in store {
      var merged := MergeCustomer(store[request.id], request);
      MergeIdempotent(store[request.id], request);
      var once := UpdateCustomer(store, request).state;
      assert once == store[request.id := merged];
      assert once[request.id] == merged;
      assert MergeCustomer(once[request.id], request) == merged;
      assert UpdateCustomer(once, request).state == once[request.id := merged];
      assert once[request.id := merged] == once;
    }
  }

  /** A customer just created can be updated with any request carrying its id. */
  lemma UpdateAfterCreateSucceeds(store: CustomerStore, created: CustomerRequest, update: CustomerRequest)
    requires WellKeyed(store)
    requires update.id == created.id
    ensures UpdateCustomer(CreateCustomer(store, created).1, update).result.Success?
  {
  }

  /** The not-found message names exactly one id. */
  lemma NotFoundMessageNamesCustomer(a: string, b: string)
    requires CustomerNotFoundMessage(a) == CustomerNotFoundMessage(b)
    ensures a == b
  {
    var prefix := "Cannot update customer:: Customer with id ";
    var m := CustomerNotFoundMessage(a);
    assert |a| == |b|;
    assert m[|prefix|..|prefix| + |a|] == a;
    assert CustomerNotFoundMessage(b)[|prefix|..|prefix| + |b|] == b;
  }

  /** The messages for an empty id and for ids "1" and "999". */
  lemma NotFoundMessageExamples()
    ensures CustomerNotFoundMessage("") == "Cannot update customer:: Customer with id  not found"
    ensures CustomerNotFoundMessage("1") == "Cannot update customer:: Customer with id 1 not found"
    ensures CustomerNotFoundMessage("999") == "Cannot update customer:: Customer with id 999 not found"
  {
  }
}
