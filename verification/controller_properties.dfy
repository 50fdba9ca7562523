/**
 Properties of the request handlers: the defensive "No product found" branch
 of GetProducts is dead, the not-found message of GetProduct identifies the
 requested id, and concrete request sequences: a repeated create, requests
 for an unknown id, an empty store and a two-product store.
 */
module ControllerProperties {
  import opened Entities
  import Text
  import Repository
  import opened Controller

  /** GetProducts never reaches its second 404: a non-empty list converts to a non-empty list. */
  lemma GetProductsNeverReportsEmptyConversion(store: Repository.Store)
    ensures GetProducts(store) != NotFound(NoProductFoundMessage)
  {
  }

  /** Two GetProduct requests that draw the same 404 message asked for the same id. */
  lemma NotFoundMessageIdentifiesId(store: Repository.Store, a: int, b: int)
    requires GetProduct(store, a).NotFound?
    requires GetProduct(store, a) == GetProduct(store, b)
    ensures a == b
  {
    var prefix := "No product found with id: ";
    assert NoProductWithIdMessage(a)[|prefix|..] == Text.IntToString(a);
    assert NoProductWithIdMessage(b)[|prefix|..] == Text.IntToString(b);
    Text.IntToStringInjective(a, b);
  }

  /** Posting a product to an empty store succeeds; posting one with the same name again is refused. */
  lemma CreateThenDuplicate(dto: ProductDTO, again: ProductDTO, id1: int, id2: int)
    requires dto.name != "" && again.name == dto.name
    requires id1 > 0
    ensures var first := CreateProduct([], dto, ModelState([]), id1, Repository.NoFault);
            var second := CreateProduct(first.store, again, ModelState([]), id2, Repository.NoFault);
            && first.result == Ok(Envelope(Response(true, Repository.Added(dto.name))))
            && second.result == BadRequest(Envelope(Response(false, Repository.AlreadyAdded(dto.name))))
            && second.store == first.store
  {
    var first := CreateProduct([], dto, ModelState([]), id1, Repository.NoFault);
    assert first.store[0] in first.store;
  }

  /** The envelope messages for "Product 1", spelled out. */
  lemma ProductOneMessages()
    ensures Repository.Added("Product 1") == "Product 1 added to database successfully"
    ensures Repository.AlreadyAdded("Product 1") == "Product 1 already added"
  {
  }

  /** Requests for ids the store never held: 404 naming the id, and a refused delete naming the supplied product. */
  lemma MissingIdScenario()
    ensures GetProduct([Product(1, "Product 1", 10, 10070)], 999) == NotFound("No product found with id: 999")
    ensures GetProduct([], 20) == NotFound("No product found with id: 20")
    ensures DeleteProduct([], ProductDTO(999, "Ghost", 1, 1), Repository.NoFault).result
            == BadRequest(Envelope(Response(false, "Ghost not found")))
  {
    assert Text.NatToString(99) == "99";
    assert Text.NatToString(999) == "999";
    assert Text.IntToString(999) == "999";
    assert Text.NatToString(20) == "20";
    assert Text.IntToString(20) == "20";
  }

  /** GetProducts on two stored products returns both, first id 1 and last id 2; on none, the empty-store 404. */
  lemma ListScenario()
    ensures var r := GetProducts([Product(1, "Product 1", 10, 10070), Product(2, "Product 2", 120, 100470)]);
            && r.Ok? && r.body.Items? && |r.body.items| == 2
            && r.body.items[0].id == 1 && r.body.items[1].id == 2
    ensures GetProducts([]) == NotFound("No products detected in the database")
  {
  }
}
