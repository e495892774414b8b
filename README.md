# Product catalog core, modelled in Dafny

This project models the decision logic of a small product catalog service.
It follows a ports-and-adapters layout, and the model covers three pieces:

- **The SQL product repository** (`SQLProductRepository`). It is modelled as
  an in-memory table: a class `SqlProductRepository` whose field `rows` maps
  each product id to its row. A second field, `order`, gives the order in
  which queries hand rows back. It has six operations: `list_all`, `create`,
  `get_by_id`, `get_by_status`, `edit` and `delete`.
  - The reads are functions of the table.
  - `create`, `edit` and `delete` are methods that change the table.
  - A storage fault is an explicit `fault: bool` input.
  - Every fault becomes the repository error tagged with the operation name:
    `"list"`, `"create"`, `"find"`, `"edit"` or `"delete"`. The source rolls
    the session back before raising. The model makes each operation one
    atomic step, so a failed operation leaves the table as it was.
  - `edit` and `delete` on a missing id always fail.
- **The EditProduct use case.** It is a method that changes the repository.
  It builds the candidate product from the request, then checks that the
  product exists with `get_by_id`. If the product is absent, it reports
  NotFound and writes nothing. Otherwise it calls `edit` and answers with the
  product the repository returned. Any repository exception on the way is
  re-raised as a business exception with the same message.
- **The FindProductsByStatus use case.** It is a function of the repository
  state. It makes one `get_by_status` call, wraps the list in a response, and
  passes a repository exception through unchanged.

Errors are values (`Errors.Result`, `Errors.Outcome`), not exceptions. The
error type has the three variants `RepositoryError(operation)`,
`BusinessError(msg)` and `NotFound(productId)`. A repository error's message
is `"Exception while executing <operation> in Product"`.

Files:

- `products.dfy`: the `Product` entity, the table row, and `parse_product`.
- `errors.dfy`: the error taxonomy and its messages.
- `sql_product_repository.dfy`: the repository.
- `edit_product.dfy`: the EditProduct use case.
- `find_products_by_status.dfy`: the FindProductsByStatus use case.
- `scenarios.dfy`: the use cases' unit-test scenarios, set up on the table
  model instead of a mock repository. The tests' edit requests go to a mock
  that answers for any id. Here the edit request carries the tests' edited
  values under the stored id `"1"`.

Two details of the code decide the model's shape:

- `get_by_status` is annotated `Optional[Product]`, but `.all()` always
  returns a list. So the `None` branch at
  adapters/src/repositories/sql/sql_product_repository.py:65-66 cannot be
  reached, and the model returns a list, possibly empty.
- `_verify_product_existence` runs inside the same `try` as `edit`
  (app/src/use_cases/product/edit/use_case.py:18-24). So a `"find"` fault
  during the existence check is also re-raised as a business exception.

## Model

| member | source | states |
|---|---|---|
| `Products.ToRow` | adapters/src/repositories/sql/sql_product_repository.py:28-37 | the row built for `create` has each of the eight columns equal to the product's field of the same name |
| `Products.ParseProduct` | adapters/src/repositories/sql/sql_product_repository.py:106-116 | the parsed product has exactly the row's columns: storing it again gives back the same row |
| `Products.Overwrite` | adapters/src/repositories/sql/sql_product_repository.py:80-86 | the seven assignments keep the row's key; when the key is the product's id, the row becomes exactly the product's row |
| `Errors.Translate` | app/src/use_cases/product/edit/use_case.py:23-24 | a caught repository exception becomes a business exception with an identical message |
| `Errors.RepoMessageInjective` | adapters/src/repositories/sql/sql_product_repository.py:22-24 | a property of the message format "Exception while executing <operation> in Product": two operations with the same message are the same operation |
| `SqlRepository.Admits` | adapters/src/repositories/sql/sql_product_repository.py:63 | with no filter every row passes; with a status filter a row passes exactly when its status equals the requested one |
| `SqlRepository.Select` | adapters/src/repositories/sql/sql_product_repository.py:59-70 | a query result lists only stored rows that pass its filter, each product id at most once; with no filter it has one entry per key |
| `SqlRepository.SelectComplete` | adapters/src/repositories/sql/sql_product_repository.py:62-70 | every stored row that passes the filter appears in the query result |
| `SqlRepository.SelectCount` | adapters/src/repositories/sql/sql_product_repository.py:62-70 | over distinct keys, a query returns exactly as many products as there are keys whose row passes the filter |
| `SqlRepository.DistinctLength` | adapters/src/repositories/sql/sql_product_repository.py:14-21 | a duplicate-free key order is as long as the table has rows, so `list_all` returns one product per row |
| `SqlRepository.Without` | adapters/src/repositories/sql/sql_product_repository.py:97-99 | removing the deleted key from the row order leaves every other key, each still once |
| `SqlRepository.Edited` | adapters/src/repositories/sql/sql_product_repository.py:78-88 | after an edit, the edited row equals the product's row, the set of keys is the same, and every other row is unchanged |
| `SqlRepository.EditedIdempotent` | adapters/src/repositories/sql/sql_product_repository.py:80-88 | a second edit with the same product leaves the table as the first one left it |
| `SqlRepository.SqlProductRepository.constructor` | adapters/src/repositories/sql/sql_product_repository.py:8-9 | a new repository holds a valid, empty table |
| `SqlRepository.SqlProductRepository.ListAll` | adapters/src/repositories/sql/sql_product_repository.py:11-24 | returns every stored product exactly once, so `[]` for an empty table; a fault gives the "list" error |
| `SqlRepository.SqlProductRepository.GetById` | adapters/src/repositories/sql/sql_product_repository.py:46-57 | returns Some(the stored product with that id) exactly when one exists, otherwise None and no error; a fault gives the "find" error |
| `SqlRepository.SqlProductRepository.GetByStatus` | adapters/src/repositories/sql/sql_product_repository.py:59-73 | returns exactly the stored products whose status matches, each once, so its length is the number of matching rows; never absent; a fault gives the "find" error |
| `SqlRepository.SqlProductRepository.Create` | adapters/src/repositories/sql/sql_product_repository.py:26-44 | on success the product is stored under its id and returned as given; a fault or a taken id gives the "create" error and leaves the table unchanged |
| `SqlRepository.SqlProductRepository.Edit` | adapters/src/repositories/sql/sql_product_repository.py:75-92 | on success the row under the product's id takes every field of the product, other rows are kept, and the parsed row, which equals the product, is returned; a missing id or a fault gives the "edit" error and leaves the table unchanged |
| `SqlRepository.SqlProductRepository.Delete` | adapters/src/repositories/sql/sql_product_repository.py:94-103 | on success the key is gone, the removed product is returned, and other rows are kept; a missing id or a fault gives the "delete" error and leaves the table unchanged |
| `EditUseCase.Candidate` | app/src/use_cases/product/edit/use_case.py:17 | the candidate product carries the request's eight fields |
| `EditUseCase.ResponseOf` | app/src/use_cases/product/edit/use_case.py:22 | the response carries the eight fields of the product the repository returned, each under its own name |
| `EditUseCase.EditOutcome` | app/src/use_cases/product/edit/use_case.py:16-29 | NotFound exactly when the lookup succeeds and finds no row; success exactly when neither call faults and the row exists; a repository error is never leaked, and find or edit faults become business errors with the repository's message |
| `EditUseCase.EditedTable` | app/src/use_cases/product/edit/use_case.py:18-22 | the table is written only when the call succeeds; every error, NotFound included, leaves it unchanged |
| `EditUseCase.SuccessEchoesRequest` | app/src/use_cases/product/edit/use_case.py:20-22 | against the table, a successful edit answers with, and stores, exactly the request's fields |
| `EditUseCase.EditTwiceSameAsOnce` | app/src/use_cases/product/edit/use_case.py:16-22 | applying the same request twice gives the same answer and the same table as applying it once |
| `EditUseCase.FaultNamedByMessage` | app/src/use_cases/product/edit/use_case.py:18-24 | two business exceptions from the same request with the same message come from the same step: the message tells a failed existence check from a failed write |
| `EditUseCase.EditProduct.constructor` | app/src/use_cases/product/edit/use_case.py:13-14 | the use case holds the injected repository |
| `EditUseCase.EditProduct.VerifyProductExistence` | app/src/use_cases/product/edit/use_case.py:26-29 | passes exactly when a product is stored under the id; otherwise NotFound(id), or the "find" error when the lookup faults |
| `EditUseCase.EditProduct.Call` | app/src/use_cases/product/edit/use_case.py:16-24 | the answer and the new table are EditOutcome and EditedTable of the old table, and the row order is kept; on success the answer mirrors the row the repository stored |
| `FindByStatusUseCase.FindProductsByStatus.constructor` | app/src/use_cases/product/get_by_status/use_case.py:12-13 | the only field is the injected repository, set once |
| `FindByStatusUseCase.FindProductsByStatus.Call` | app/src/use_cases/product/get_by_status/use_case.py:15-20 | the response's products are exactly the repository's list for the status: every stored product with that status, each once; the repository error is passed through unchanged with message "Exception while executing find in Product" |
| `Scenarios.SeededRepository` | app/tests/unit/products/use_cases/get_products_unit_test.py:13-47 | creating the two test products yields a table holding exactly those rows, in that order |
| `Scenarios.FindSeededNew` | app/tests/unit/products/use_cases/get_products_unit_test.py:50-59 | with two stored "New" products, the response has length 2 and holds both; this follows from the contracts of the use case and of `GetByStatus` |
| `Scenarios.FindWithStorageFault` | app/tests/unit/products/use_cases/get_products_unit_test.py:61-72 | a query fault reaches the caller as the "find" repository error with its message |
| `Scenarios.EditSeeded` | app/tests/unit/products/use_cases/get_products_unit_test.py:74-97 | editing the stored product "1" with the test's edited values answers with the edited name, description, location and status |
| `Scenarios.EditWithStorageFault` | app/tests/unit/products/use_cases/get_products_unit_test.py:99-120 | a write fault surfaces as a business error "Exception while executing edit in Product", and the returned repository still holds exactly the two seeded rows |
| `Scenarios.EditMissing` | app/tests/unit/products/use_cases/get_products_unit_test.py:122-140 | an unknown id gives NotFound, and the returned repository still holds exactly the two seeded rows |

## Left out

- HTTP routing, dependency injection and DTO conversion (api/src/routes/product_routes.py) are HTTP plumbing with no logic of their own.
- The ListProducts, FindProductById and CreateProduct use cases are not part of this model. Only the repository operations they call are modelled.
- Sessions, queries, commits and rollbacks are not modelled. Each repository operation is one atomic update of the table, and a failure leaves the table unchanged.
- SqlRepository.SqlProductRepository.Edit: in the source, `parse_product(product_ref)` runs after `session.commit()`, and with the default expire-on-commit it reloads the row. A fault there raises the "edit" error after the write is committed, and the rollback cannot undo it; EditProduct then reports a business error over a changed table. The model's atomic step does not capture this case: an "edit" error always leaves the table unchanged.
- The lookups by id and by status compare strings with SQL `==`, whose result depends on the database's collation (case-insensitive in some databases). The model compares strings exactly.
- Which storage faults happen (connectivity, mapping faults) is outside the model. Each operation takes a `fault` flag that says whether one happens.
- Row order: the SQL queries have no ORDER BY, so the database may return rows in any order. The model fixes one order, insertion order, kept in the field `order`.
- The price is a Decimal in the source. Here it is an integer number of cents, and the conversions in `parse_product` are identities.
- SqlRepository.SqlProductRepository.Create: the model assumes `product_id` is the table's primary key, so a taken id fails with "create". The table definition (tables.py) is not part of this model.
- SqlRepository.SqlProductRepository.constructor: the source's constructor only stores a session. The model starts from an empty table and fills it through `Create`.
- The `None` branches after `.all()` in `list_all` and `get_by_status` cannot be reached, so they are not modelled.
- The `Optional[Product]` annotation on `get_by_status` disagrees with the list it returns. The model returns a list.
- The text of ProductNotFoundException is not part of this model, so `Errors.Message` is defined only for repository and business errors.
- EditUseCase.EditProduct.Call: in the unit tests a mock repository returns an edited record that differs from the request. The table model's `edit` always returns the stored candidate. So "the answer mirrors what the repository returned" is stated as mirroring the row stored under the id.
- The race between EditProduct's existence check and its write is a concurrency concern. The source leaves it unguarded, and the model runs each call as one sequential step.
- The repository's `delete` has no use case, and the model adds none.
