/**
 The request handlers of the products endpoint. Each one drives Conversion and
 the Repository and maps the outcome to a status result. Create and Update
 first consult the model-state validation flag; Delete does not.
 */
module Controller {
  import opened Wrappers
  import opened Entities
  import Conversions
  import Text
  import Repository

  /** A field-level validation error recorded by model binding. */
  datatype ValidationError = ValidationError(field: string, message: string)

  /** The model state: valid exactly when no error was recorded. */
  datatype ModelState = ModelState(errors: seq<ValidationError>) {
    predicate IsValid() { |errors| == 0 }
  }

  /** The object a status result carries. */
  datatype Body =
    | Items(items: seq<ProductDTO>)
    | Item(item: ProductDTO)
    | Envelope(response: Response)
    | Errors(errors: seq<ValidationError>)

  /** The status results the handlers produce (200, 404 with a text message, 400). */
  datatype ActionResult = Ok(body: Body) | NotFound(message: string) | BadRequest(body: Body)

  /** A mutating handler's result and the store it leaves behind. */
  datatype Handled = Handled(store: Repository.Store, result: ActionResult)

  const NoProductsMessage := "No products detected in the database"
  const NoProductFoundMessage := "No product found"

  function NoProductWithIdMessage(id: int): string {
    "No product found with id: " + Text.IntToString(id)
  }

  /** `response.Flag is true ? Ok(response) : BadRequest(response)`. */
  function FromResponse(response: Response): (r: ActionResult)
    ensures r.Ok? <==> response.flag
    ensures r.Ok? || r.BadRequest?
    ensures r.body == Envelope(response)
  {
    if response.flag then Ok(Envelope(response)) else BadRequest(Envelope(response))
  }

  /** `GetProducts`: 404 on an empty store, otherwise 200 with every product converted, in order. */
  function GetProducts(store: Repository.Store): (r: ActionResult)
    ensures |store| == 0 <==> r == NotFound(NoProductsMessage)
    ensures |store| > 0 ==>
              && r.Ok? && r.body.Items?
              && |r.body.items| == |store|
              && forall i :: 0 <= i < |store| ==> Conversions.Mirrors(r.body.items[i], store[i])
  {
    var products := Repository.GetAll(store);
    if |products| == 0 then NotFound(NoProductsMessage)
    else
      var (_, list) := Conversions.FromEntity(None, Some(products));
      if |list.value| > 0 then Ok(Items(list.value)) else NotFound(NoProductFoundMessage)
  }

  /** `GetProduct(id)`: 404 naming the id when it is not stored, otherwise 200 with the product converted. */
  function GetProduct(store: Repository.Store, id: int): (r: ActionResult)
    ensures !Repository.HasId(store, id) <==> r == NotFound(NoProductWithIdMessage(id))
    ensures Repository.HasId(store, id) ==>
              && r.Ok? && r.body.Item?
              && r.body.item.id == id
              && exists p :: p in store && Conversions.Mirrors(r.body.item, p)
  {
    var product := Repository.FindById(store, id);
    if product.None? then NotFound(NoProductWithIdMessage(id))
    else
      var (single, _) := Conversions.FromEntity(product, None);
      if single.Some? then Ok(Item(single.value)) else NotFound(NoProductWithIdMessage(id))
  }

  /** `CreateProduct`: 400 with the errors on an invalid model, else the repository's envelope passed through. */
  function CreateProduct(store: Repository.Store, dto: ProductDTO, modelState: ModelState,
                         assignedId: int, fault: Repository.Fault): (r: Handled)
    ensures !modelState.IsValid() ==> r == Handled(store, BadRequest(Errors(modelState.errors)))
    ensures modelState.IsValid() ==>
              var o := Repository.Create(store, Conversions.ToEntity(dto), assignedId, fault);
              && r.store == o.store
              && (r.result.Ok? || r.result.BadRequest?)
              && r.result.body == Envelope(o.response)
              && (r.result.Ok? <==> !Repository.NameTaken(store, dto.name) && fault.NoFault? && assignedId > 0)
    ensures r.result.Ok? ==> r.result.body == Envelope(Response(true, Repository.Added(dto.name)))
  {
    if !modelState.IsValid() then Handled(store, BadRequest(Errors(modelState.errors)))
    else
      var entity := Conversions.ToEntity(dto);
      var o := Repository.Create(store, entity, assignedId, fault);
      Handled(o.store, FromResponse(o.response))
  }

  /** `UpdateProduct`: 400 with the errors on an invalid model, else the repository's envelope passed through. */
  function UpdateProduct(store: Repository.Store, dto: ProductDTO, modelState: ModelState,
                         fault: Repository.Fault): (r: Handled)
    ensures !modelState.IsValid() ==> r == Handled(store, BadRequest(Errors(modelState.errors)))
    ensures modelState.IsValid() ==>
              var o := Repository.Update(store, Conversions.ToEntity(dto), fault);
              && r.store == o.store
              && (r.result.Ok? || r.result.BadRequest?)
              && r.result.body == Envelope(o.response)
              && (r.result.Ok? <==> Repository.HasId(store, dto.id) && fault.NoFault?)
    ensures modelState.IsValid() && !Repository.HasId(store, dto.id) && !fault.LookupFault? ==>
              r == Handled(store, BadRequest(Envelope(Response(false, Repository.NotFoundMessage(dto.name)))))
    ensures modelState.IsValid() && fault.LookupFault? ==>
              r == Handled(store, BadRequest(Envelope(Response(false, Repository.UpdateFault))))
    ensures r.result.Ok? ==> r.result.body == Envelope(Response(true, Repository.Updated(dto.name)))
  {
    if !modelState.IsValid() then Handled(store, BadRequest(Errors(modelState.errors)))
    else
      var entity := Conversions.ToEntity(dto);
      var o := Repository.Update(store, entity, fault);
      Handled(o.store, FromResponse(o.response))
  }

  /** `DeleteProduct`: no validation step; the converted entity always reaches the repository. */
  function DeleteProduct(store: Repository.Store, dto: ProductDTO, fault: Repository.Fault): (r: Handled)
    ensures var o := Repository.Delete(store, Conversions.ToEntity(dto), fault);
            && r.store == o.store
            && (r.result.Ok? || r.result.BadRequest?)
            && r.result.body == Envelope(o.response)
    ensures r.result.Ok? <==> Repository.HasId(store, dto.id) && fault.NoFault?
    ensures !Repository.HasId(store, dto.id) && !fault.LookupFault? ==>
              r == Handled(store, BadRequest(Envelope(Response(false, Repository.NotFoundMessage(dto.name)))))
    ensures fault.LookupFault? ==>
              r == Handled(store, BadRequest(Envelope(Response(false, Repository.DeleteFault))))
    ensures r.result.Ok? ==>
              && r.result.body == Envelope(Response(true, Repository.Deleted(dto.name)))
              && |r.store| == |store| - 1
  {
    var entity := Conversions.ToEntity(dto);
    var o := Repository.Delete(store, entity, fault);
    Handled(o.store, FromResponse(o.response))
  }
}
