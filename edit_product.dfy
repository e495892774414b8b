/** The EditProduct use case: build the candidate product from the request,
    check that the product exists, write it, and answer with what the
    repository returned. Repository exceptions raised on the way are re-raised
    as business exceptions with the same message; a missing product is
    reported as NotFound before anything is written. */
module EditUseCase {
  import opened Products
  import opened Errors
  import opened SqlRepository

  datatype EditProductRequest = EditProductRequest(
    productId: string,
    userId: string,
    name: string,
    description: string,
    price: int,
    location: string,
    status: string,
    isAvailable: bool)

  datatype EditProductResponse = EditProductResponse(
    productId: string,
    userId: string,
    name: string,
    description: string,
    price: int,
    location: string,
    status: string,
    isAvailable: bool)

  /** `Product(**request._asdict())`: the candidate carries the request's
      eight fields. */
  function Candidate(request: EditProductRequest): (p: Product)
    ensures p.productId == request.productId && p.userId == request.userId
    ensures p.name == request.name && p.description == request.description
    ensures p.price == request.price && p.location == request.location
    ensures p.status == request.status && p.isAvailable == request.isAvailable
  {
    Product(request.productId, request.userId, request.name, request.description,
            request.price, request.location, request.status, request.isAvailable)
  }

  /** `EditProductResponse(**response._asdict())`: the response carries the
      eight fields of the product the repository returned. */
  function ResponseOf(p: Product): (response: EditProductResponse)
    ensures response.productId == p.productId && response.userId == p.userId
    ensures response.name == p.name && response.description == p.description
    ensures response.price == p.price && response.location == p.location
    ensures response.status == p.status && response.isAvailable == p.isAvailable
  {
    EditProductResponse(p.productId, p.userId, p.name, p.description, p.price, p.location, p.status, p.isAvailable)
  }

  /** What one call answers against a table holding `rows`, when the
      existence check meets a storage fault (`findFault`) or the write does
      (`editFault`). */
  function EditOutcome(rows: map<string, ProductRow>, request: EditProductRequest,
                       findFault: bool, editFault: bool): (r: Result<EditProductResponse>)
    requires Keyed(rows)
    ensures r == Err(NotFound(request.productId)) <==> !findFault && request.productId !in rows
    ensures r.Ok? <==> !findFault && request.productId in rows && !editFault
    ensures r.Err? ==> !r.error.RepositoryError?
    ensures findFault ==> r == Err(BusinessError(RepoMessage("find")))
    ensures !findFault && request.productId in rows && editFault ==> r == Err(BusinessError(RepoMessage("edit")))
  {
    if findFault then Err(Translate(RepositoryError("find")))
    else if request.productId !in rows then Err(NotFound(request.productId))
    else if editFault then Err(Translate(RepositoryError("edit")))
    else Ok(ResponseOf(ParseProduct(Edited(rows, Candidate(request))[request.productId])))
  }

  /** The table a call leaves behind: written only when the call succeeds. */
  function EditedTable(rows: map<string, ProductRow>, request: EditProductRequest,
                       findFault: bool, editFault: bool): (r: map<string, ProductRow>)
    requires Keyed(rows)
    ensures EditOutcome(rows, request, findFault, editFault).Err? ==> r == rows
    ensures EditOutcome(rows, request, findFault, editFault).Ok? ==>
      r == Edited(rows, Candidate(request)) && Keyed(r)
  {
    if !findFault && request.productId in rows && !editFault then Edited(rows, Candidate(request))
    else rows
  }

  /** Against the table, a successful edit answers with exactly the fields the
      request asked for, and stores them. */
  lemma SuccessEchoesRequest(rows: map<string, ProductRow>, request: EditProductRequest)
    requires Keyed(rows)
    requires request.productId in rows
    ensures EditOutcome(rows, request, false, false) == Ok(EditProductResponse(
      request.productId, request.userId, request.name, request.description,
      request.price, request.location, request.status, request.isAvailable))
    ensures EditedTable(rows, request, false, false)[request.productId] == ToRow(Candidate(request))
  {
  }

  /** Applying the same request twice gives the same answer and the same table
      as applying it once. */
  lemma EditTwiceSameAsOnce(rows: map<string, ProductRow>, request: EditProductRequest)
    requires Keyed(rows)
    ensures var once := EditedTable(rows, request, false, false);
      && EditOutcome(once, request, false, false) == EditOutcome(rows, request, false, false)
      && EditedTable(once, request, false, false) == once
  {
  }

  /** A caller can tell a failed existence check from a failed write by the
      business exception's message alone. */
  lemma FaultNamedByMessage(rows: map<string, ProductRow>, request: EditProductRequest,
                            findFault1: bool, editFault1: bool, findFault2: bool, editFault2: bool)
    requires Keyed(rows)
    requires EditOutcome(rows, request, findFault1, editFault1).Err?
    requires EditOutcome(rows, request, findFault2, editFault2).Err?
    requires EditOutcome(rows, request, findFault1, editFault1).error.BusinessError?
    requires EditOutcome(rows, request, findFault2, editFault2).error.BusinessError?
    requires Message(EditOutcome(rows, request, findFault1, editFault1).error)
          == Message(EditOutcome(rows, request, findFault2, editFault2).error)
    ensures findFault1 == findFault2
  {
    if findFault1 != findFault2 {
      RepoMessageInjective("find", "edit");
      RepoMessageInjective("edit", "find");
    }
  }

  class EditProduct {
    const repository: SqlProductRepository

    constructor (repository: SqlProductRepository)
      ensures this.repository == repository
    {
      this.repository := repository;
    }

    /** `_verify_product_existence`: passes when a product is stored under
        `productId`; fails with NotFound when none is, and with the repository
        error when the lookup meets a storage fault. Reads only. */
    method VerifyProductExistence(productId: string, findFault: bool) returns (r: Outcome)
      requires repository.Valid()
      ensures findFault ==> r == Fail(RepositoryError("find"))
      ensures !findFault ==> (r == Pass <==> productId in repository.rows)
      ensures !findFault && productId !in repository.rows ==> r == Fail(NotFound(productId))
    {
      var productExisting := repository.GetById(productId, findFault);
      if productExisting.Err? {
        return Fail(productExisting.error);
      }
      if productExisting.value.None? {
        return Fail(NotFound(productId));
      }
      r := Pass;
    }

    /** `__call__`: the existence check comes first, and the write happens
        only when it passed. Its answer and the table it leaves are those of
        EditOutcome and EditedTable; on success the answer mirrors the row the
        repository stored. */
    method Call(request: EditProductRequest, findFault: bool, editFault: bool)
      returns (r: Result<EditProductResponse>)
      requires repository.Valid()
      modifies repository
      ensures repository.Valid()
      ensures r == EditOutcome(old(repository.rows), request, findFault, editFault)
      ensures repository.rows == EditedTable(old(repository.rows), request, findFault, editFault)
      ensures repository.order == old(repository.order)
      ensures r.Ok? ==> r.value == ResponseOf(ParseProduct(repository.rows[request.productId]))
    {
      var product := Candidate(request);
      var existence := VerifyProductExistence(request.productId, findFault);
      if existence.Fail? {
        if existence.error.RepositoryError? {
          return Err(Translate(existence.error));
        }
        return Err(existence.error);
      }
      var response := repository.Edit(product, editFault);
      if response.Err? {
        return Err(Translate(response.error));
      }
      r := Ok(ResponseOf(response.value));
    }
  }
}
