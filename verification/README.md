# Product catalogue CRUD — a Dafny model

This project models the core of the product microservice of a small
e-commerce system: the product repository's create/read/update/delete rules,
the HTTP request handlers built on it, and the entity ↔ transfer-object
conversion between them.

- `entities.dfy` — `Product`, `ProductDTO` and the `(flag, message)` `Response` envelope.
- `conversions.dfy` — `ToEntity`, and the dual-input `FromEntity` (single-item branch and list branch).
- `repository.dfy` — the repository over an abstract store, a sequence of products in query order.
  `Create`, `Update` and `Delete` return the new store together with their envelope.
  `FindById`, `GetAll` and `GetBy` return no store, so they cannot change it.
  The id the database assigns to an inserted row is the parameter `assignedId`.
  Where the store throws during a mutation is the parameter `fault`: nowhere, in the existence lookup, or in `SaveChangesAsync`.
- `repository_properties.dfy` — the store invariants (unique non-empty names, unique ids) and how each mutation treats them, plus lookups after mutations.
- `controller.dfy` — `GetProducts`, `GetProduct`, `CreateProduct`, `UpdateProduct`, `DeleteProduct`, mapping outcomes to `Ok`, `NotFound` or `BadRequest`.
- `controller_properties.dfy` — the dead "No product found" branch, the id carried by the 404 message, and concrete request sequences.
- `text.dfy` — decimal rendering of the id in `$"No product found with id: {id}"`, with a parser proving it injective.
- `wrappers.dfy` — `Option`, standing for a nullable reference.

Points where the code's behaviour is easy to misread:
- Create refuses a duplicate only when the matching stored name is non-empty. The code checks `!string.IsNullOrEmpty(getProduct.Name)`, so a second product with an empty name is accepted.
- A store fault inside Create, Update or Delete, whether in the lookup that starts it or in the commit, is caught by that method and becomes its fault envelope. A lookup fault therefore wins over the duplicate and not-found answers: an unknown id can get "Error occurred updating product". The model includes this.
- The stand-alone lookups `FindByIdAsync`, `GetAllAsync` and `GetByAsync` rethrow a fault instead of returning an outcome. Those faults are left out (see below).
- Update replaces the record without re-checking names, so it can break name uniqueness (`UpdateCanBreakUniqueNames`).
- When the assigned id is not positive, Create returns the error envelope. The row has already been committed at that point, so it stays in the store.

`GetAll`'s ensures give every stored product, in store order; `CreatedProductIsListed` states what it shows after a Create.

## Model

| member | source | states |
|---|---|---|
| Conversions.FromEntity | src/ProductApi.Application/DTOs/Conversions/ProductConversions.cs:16-39 | needs at least one argument present, since both absent dereferences null. A present single product wins, giving a field-identical DTO and no list, even if a list is given too. Otherwise it gives no single item and a list of the same length and order, converted field by field |
| Conversions.ToDtos | src/ProductApi.Application/DTOs/Conversions/ProductConversions.cs:33-37 | the list conversion keeps length and order, and each element carries its entity's four fields |
| Conversions.ToEntity | src/ProductApi.Application/DTOs/Conversions/ProductConversions.cs:7-14 | the entity carries exactly the DTO's id, name, quantity and price |
| Conversions.EntityRoundTrip | src/ProductApi.Application/DTOs/Conversions/ProductConversions.cs:7-29 | ToEntity of FromEntity's single item reproduces the entity exactly |
| Conversions.DtoRoundTrip | src/ProductApi.Application/DTOs/Conversions/ProductConversions.cs:7-14 | ToEntity copies all four fields: converting the entity back gives the original DTO |
| Conversions.ListRoundTrip | src/ProductApi.Application/DTOs/Conversions/ProductConversions.cs:33-37 | each element of the converted list maps back to the entity at the same position |
| Repository.FirstIndex | src/ProductApi.Infraestructure/Repositories/ProductRepository.cs:123 | the first position in store order whose product satisfies the filter, or none exactly when no product does |
| Repository.GetBy | src/ProductApi.Infraestructure/Repositories/ProductRepository.cs:119-124 | a result exists exactly when some stored product satisfies the predicate. It is the first such product in store order |
| Repository.FindById | src/ProductApi.Infraestructure/Repositories/ProductRepository.cs:85-90 | a result exists exactly when some stored product has the id. The result is stored and carries that id |
| Repository.GetAll | src/ProductApi.Infraestructure/Repositories/ProductRepository.cs:102-107 | returns every stored product, in store order and nothing else; CreatedProductIsListed states what it shows after a Create |
| Repository.Create | src/ProductApi.Infraestructure/Repositories/ProductRepository.cs:13-38 | a throwing lookup gives (false, "Error occurred adding new product") with the store unchanged. Otherwise a taken non-empty name gives (false, "<name> already added") with the store unchanged. A failed commit gives the fixed fault message with the store unchanged. Otherwise the entity is appended with the assigned id. It returns (true, "<name> added to database successfully") when the id is positive and (false, "Error occurred while adding <name>") otherwise. The flag is true exactly in the first of these two cases |
| Repository.Update | src/ProductApi.Infraestructure/Repositories/ProductRepository.cs:40-61 | a throwing lookup gives (false, "Error occurred updating product") with the store unchanged. Otherwise an unknown id gives (false, "<name> not found"), naming the supplied entity, with the store unchanged. A failed commit gives the fault message with the store unchanged. Otherwise the first record with that id becomes the entity wholesale, every other record is unchanged, and it returns (true, "<name> is updated successfully") |
| Repository.Delete | src/ProductApi.Infraestructure/Repositories/ProductRepository.cs:63-83 | a throwing lookup gives (false, "Error occurred deleting product") with the store unchanged. Otherwise an unknown id gives (false, "<name> not found") with the store unchanged. A failed commit gives the fault message with the store unchanged. Otherwise exactly the first record with that id is removed, so the count drops by one and the order is kept, and it returns (true, "<name> deleted successfully") |
| RepositoryProperties.CreatePreservesUniqueNames | src/ProductApi.Infraestructure/Repositories/ProductRepository.cs:18-23 | from a store where no two products share a non-empty name, Create keeps that true for every outcome |
| RepositoryProperties.UpdateCanBreakUniqueNames | src/ProductApi.Infraestructure/Repositories/ProductRepository.cs:44-51 | Update does not check names. Renaming product 2 to product 1's name succeeds and leaves two products with the same name |
| RepositoryProperties.CreatePreservesUniqueIds | src/ProductApi.Infraestructure/Repositories/ProductRepository.cs:22-23 | if the store assigns an id not already in use, ids stay unique after Create |
| RepositoryProperties.UpdatePreservesUniqueIds | src/ProductApi.Infraestructure/Repositories/ProductRepository.cs:44-50 | the replacement carries the id it replaces, so ids stay unique |
| RepositoryProperties.DeletePreservesInvariants | src/ProductApi.Infraestructure/Repositories/ProductRepository.cs:67-72 | removing a record keeps both ids and non-empty names unique |
| RepositoryProperties.FindByIdUnique | src/ProductApi.Infraestructure/Repositories/ProductRepository.cs:89-90 | when ids are unique, the lookup of a stored product's id returns that product |
| RepositoryProperties.CreateTwice | src/ProductApi.Infraestructure/Repositories/ProductRepository.cs:18-26 | creating a fresh non-empty name succeeds. Creating the same name again leaves the store as it was and fails with "<name> already added", or with the fault envelope if its lookup throws. Exactly one stored product then has that name |
| RepositoryProperties.CreatedProductIsListed | Test/UnitTest.ProductApi/Repositories/ProductRepositoryTest.cs:26-35 | after a successful Create, GetAll lists the product with its assigned id and with the given name, quantity and price, and has one more entry |
| RepositoryProperties.FindAfterUpdate | src/ProductApi.Infraestructure/Repositories/ProductRepository.cs:44-51 | with unique ids, after a successful Update, looking up the id returns exactly the supplied entity |
| RepositoryProperties.FindAfterDelete | src/ProductApi.Infraestructure/Repositories/ProductRepository.cs:67-73 | with unique ids, after a successful Delete, the id is no longer found |
| Controller.FromResponse | src/ProductApi.Presentation/Controllers/ProductsController.cs:72 | the envelope passes through unchanged. The result is Ok exactly when the flag is true and BadRequest otherwise |
| Controller.GetProducts | src/ProductApi.Presentation/Controllers/ProductsController.cs:22-32 | gives NotFound("No products detected in the database") exactly when the store is empty. Otherwise it gives Ok with every product converted, with the same length and order |
| Controller.GetProduct | src/ProductApi.Presentation/Controllers/ProductsController.cs:40-50 | gives NotFound("No product found with id: {id}") exactly when no stored product has the id. Otherwise it gives Ok with a DTO that carries the id and mirrors a stored product |
| Controller.CreateProduct | src/ProductApi.Presentation/Controllers/ProductsController.cs:60-73 | invalid model state gives BadRequest with the errors and leaves the store unchanged. Otherwise the repository's store and envelope pass through, with Ok exactly when the name is free, the store does not throw and the id is positive |
| Controller.UpdateProduct | src/ProductApi.Presentation/Controllers/ProductsController.cs:82-94 | invalid model state gives BadRequest with the errors and leaves the store unchanged. Otherwise the repository's store and envelope pass through, with Ok exactly when the id is stored and the store does not throw. An unknown id gives BadRequest((false, "<name> not found")), and a throwing lookup gives BadRequest with the update fault envelope |
| Controller.DeleteProduct | src/ProductApi.Presentation/Controllers/ProductsController.cs:103-110 | the action method has no validity check: the converted DTO always reaches the repository (automatic `[ApiController]` validation is left out). The store and envelope pass through, with Ok exactly when the id is stored and the store does not throw. An unknown id gives BadRequest((false, "<name> not found")), and a throwing lookup gives BadRequest with the delete fault envelope. On success the store shrinks by one |
| ControllerProperties.GetProductsNeverReportsEmptyConversion | src/ProductApi.Presentation/Controllers/ProductsController.cs:30-31 | the "No product found" branch cannot be reached |
| ControllerProperties.NotFoundMessageIdentifiesId | src/ProductApi.Presentation/Controllers/ProductsController.cs:43-45 | two requests that get the same 404 message asked for the same id |
| ControllerProperties.CreateThenDuplicate | src/ProductApi.Presentation/Controllers/ProductsController.cs:64-72 | posting a named product to an empty store gives Ok with the "added" envelope. Posting one with the same name again gives BadRequest with the "already added" envelope, and the store is unchanged |
| ControllerProperties.ProductOneMessages | src/ProductApi.Infraestructure/Repositories/ProductRepository.cs:20-26 | the success and duplicate messages for "Product 1" read "Product 1 added to database successfully" and "Product 1 already added" |
| ControllerProperties.MissingIdScenario | src/ProductApi.Presentation/Controllers/ProductsController.cs:43-45 | GetProduct(20) and GetProduct(999) on stores without those ids give "No product found with id: 20" (the string ProductControllerTest.cs:127 expects) and "... 999". Deleting an absent id gives BadRequest naming the supplied product |
| ControllerProperties.ListScenario | Test/UnitTest.ProductApi/Controllers/ProductControllerTest.cs:28-74 | two stored products give Ok with two DTOs, the first with id 1 and the last with id 2. An empty store gives the "No products detected in the database" 404 |
| Text.IntToString | src/ProductApi.Presentation/Controllers/ProductsController.cs:45 | renders `{id}` as a non-empty string that starts with '-' exactly when the id is negative. The rest is decimal digits without a leading zero that read back as the id's magnitude |
| Text.IntToStringInjective | src/ProductApi.Presentation/Controllers/ProductsController.cs:45 | distinct ids render as distinct strings |

## Left out

- Read faults in the handlers: `FindByIdAsync` and `GetAllAsync` log the fault and rethrow, and `GetProduct`/`GetProducts` do not catch it, so the exception reaches the HTTP pipeline. The model's lookups always answer. (Faults of the lookups inside Create, Update and Delete are modelled, since those methods catch them.)
- Name comparison: the duplicate check `_.Name!.Equals(entity.Name)` is translated to SQL and compared under the database column's collation, which on a typical server ignores case and trailing spaces. The model compares names by exact string equality, so it accepts "product 1" beside "Product 1" where such a database would refuse it.
- Text.IntToString: renders `{id}` as in the invariant culture, with '-' as the negative sign. The current culture's negative sign is not modelled; the `{id:int}` route does accept negative ids.
- Logging (`LogException.LogExceptions`) is a foreign library with no effect on results.
- EF change tracking (`EntityState.Detached`, `AsNoTracking`) is modelled as plain replacement and plain snapshot.
- Id generation belongs to the database, so it is the `assignedId` parameter. The unique-id lemma for Create assumes the database hands out an unused id.
- Query order: the database gives no order without `ORDER BY`, so the model takes store order as query order.
- The predicate passed to `GetByAsync` is an expression tree. It is modelled as a plain `Product -> bool` function.
- Null names: names are non-null strings, and `string.IsNullOrEmpty` becomes a test for the empty string.
- `price` is a C# `decimal`. It is modelled as an integer number of the smallest currency unit, because it is only copied.
- async/await, concurrent requests, and the check-then-insert race on duplicate names: each call is modelled as one atomic step.
- The handlers are modelled as the action methods invoked directly, as the controller's unit tests call them. With `[ApiController]` on the controller, ASP.NET Core validates the bound `ProductDTO` and answers 400 before any action runs; that automatic model-state response is not modelled. So in the hosted service a DELETE whose DTO fails validation (an empty name, say) gets 400 without reaching the repository, while `Controller.DeleteProduct` forwards it.
- HTTP routing (including the unused `{id:int}` route value of the delete endpoint), `[Authorize]`/`[AllowAnonymous]` attributes and gateway-only middleware are out of scope.
- Data-annotation validation rules are out of scope. The model state is given as its list of recorded errors.
- `ProductDbContext`, `ServiceContainer` (DI wiring) and the `IProduct` marker interface: no behaviour beyond the store the model abstracts.
