/** The FindProductsByStatus use case: one read-only call to the repository's
    `get_by_status`, its list wrapped in a response, its exception re-raised
    unchanged. */
module FindByStatusUseCase {
  import opened Products
  import opened Errors
  import opened SqlRepository

  datatype FindProductsByStatusRequest = FindProductsByStatusRequest(status: string)

  datatype FindProductsByStatusResponse = FindProductsByStatusResponse(products: seq<Product>)

  class FindProductsByStatus {
    /** The injected repository: the use case's only field, never reassigned. */
    const repository: SqlProductRepository

    constructor (repository: SqlProductRepository)
      ensures this.repository == repository
    {
      this.repository := repository;
    }

    /** `__call__`: the response holds exactly the list the repository
        returned for the requested status, which is every stored product with
        that status, each once; a repository exception reaches the caller as
        it was raised. Being a function of the repository's state, the call
        writes nothing. */
    function Call(request: FindProductsByStatusRequest, fault: bool): (r: Result<FindProductsByStatusResponse>)
      reads repository
      requires repository.Valid()
      ensures r.Err? <==> fault
      ensures r.Err? ==> r.error == repository.GetByStatus(request.status, fault).error
      ensures r.Err? ==> Message(r.error) == "Exception while executing find in Product"
      ensures r.Ok? ==> r.value.products == repository.GetByStatus(request.status, fault).value
      ensures r.Ok? ==> forall p :: p in r.value.products <==> repository.Stored(p) && p.status == request.status
      ensures r.Ok? ==> DistinctIds(r.value.products)
    {
      match repository.GetByStatus(request.status, fault)
      case Ok(products) => Ok(FindProductsByStatusResponse(products))
      case Err(e) => Err(e)
    }
  }
}
