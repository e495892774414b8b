/** The unit-test scenarios of the two use cases, set up on the table model
    instead of a mock repository: each method fills a repository through its
    own operations, runs a use case, and proves what the scenario asserts. */
module Scenarios {
  import opened Products
  import opened Errors
  import opened SqlRepository
  import opened EditUseCase
  import opened FindByStatusUseCase

  const FIRST := Product("1", "1", "fake_name_1", "fake_description_1", 1050, "fake_location_1", "New", true)
  const SECOND := Product("2", "2", "fake_name_2", "fake_description_2", 1050, "fake_location_2", "New", true)

  /** A table holding FIRST and SECOND, in that order. */
  method SeededRepository() returns (repository: SqlProductRepository)
    ensures fresh(repository) && repository.Valid()
    ensures repository.rows == map["1" := ToRow(FIRST), "2" := ToRow(SECOND)]
    ensures repository.order == ["1", "2"]
  {
    repository := new SqlProductRepository();
    var _ := repository.Create(FIRST, false);
    var _ := repository.Create(SECOND, false);
  }

  /** Two stored products with status "New": the response lists both. */
  method FindSeededNew() returns (r: Result<FindProductsByStatusResponse>)
    ensures r.Ok? && |r.value.products| == 2
    ensures FIRST in r.value.products && SECOND in r.value.products
  {
    var repository := SeededRepository();
    var useCase := new FindProductsByStatus(repository);
    r := useCase.Call(FindProductsByStatusRequest("New"), false);
    assert (set k | k in repository.rows && repository.rows[k].status == "New") == {"1", "2"};
  }

  /** A storage fault during the query reaches the caller as the "find"
      repository exception. */
  method FindWithStorageFault() returns (r: Result<FindProductsByStatusResponse>)
    ensures r == Err(RepositoryError("find"))
    ensures Message(r.error) == "Exception while executing find in Product"
  {
    var repository := SeededRepository();
    var useCase := new FindProductsByStatus(repository);
    r := useCase.Call(FindProductsByStatusRequest("New"), true);
  }

  const EDIT_REQUEST := EditProductRequest("1", "1", "fake_name_edited", "fake_description_edited", 1050,
                                           "fake_location_edited", "Used", true)

  /** Editing a stored product answers with the edited fields. */
  method EditSeeded() returns (r: Result<EditProductResponse>)
    ensures r.Ok?
    ensures r.value.name == "fake_name_edited" && r.value.description == "fake_description_edited"
    ensures r.value.location == "fake_location_edited" && r.value.status == "Used"
  {
    var repository := SeededRepository();
    var useCase := new EditProduct(repository);
    SuccessEchoesRequest(repository.rows, EDIT_REQUEST);
    r := useCase.Call(EDIT_REQUEST, false, false);
  }

  /** A storage fault on the write surfaces as a business exception with the
      repository's message, and nothing is written. */
  method EditWithStorageFault() returns (r: Result<EditProductResponse>, repository: SqlProductRepository)
    ensures r == Err(BusinessError("Exception while executing edit in Product"))
    ensures repository.rows == map["1" := ToRow(FIRST), "2" := ToRow(SECOND)]
  {
    repository := SeededRepository();
    var useCase := new EditProduct(repository);
    r := useCase.Call(EDIT_REQUEST, false, true);
  }

  /** No product under the requested id: NotFound, and nothing is written. */
  method EditMissing() returns (r: Result<EditProductResponse>, repository: SqlProductRepository)
    ensures r == Err(NotFound("fake_product_id"))
    ensures repository.rows == map["1" := ToRow(FIRST), "2" := ToRow(SECOND)]
  {
    repository := SeededRepository();
    var useCase := new EditProduct(repository);
    r := useCase.Call(EDIT_REQUEST.(productId := "fake_product_id"), false, false);
  }
}
