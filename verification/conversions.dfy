/**
 Field-copy mapping between the product entity and its transfer object,
 including the dual-input `FromEntity`, which converts either one entity or a
 list of entities.
 */
module Conversions {
  import opened Wrappers
  import opened Entities

  /** `d` carries exactly the fields of `p`. */
  predicate Mirrors(d: ProductDTO, p: Product) {
    d.id == p.id && d.name == p.name && d.quantity == p.quantity && d.price == p.price
  }

  /** Transfer object to entity. */
  function ToEntity(d: ProductDTO): (p: Product)
    ensures Mirrors(d, p)
  {
    Product(d.id, d.name, d.quantity, d.price)
  }

  /** Entity to transfer object, the constructor call both branches of `FromEntity` use. */
  function ToDto(p: Product): ProductDTO {
    ProductDTO(p.id, p.name, p.quantity, p.price)
  }

  /** The list branch of `FromEntity`: every entity converted, in order. */
  function ToDtos(ps: seq<Product>): (ds: seq<ProductDTO>)
    ensures |ds| == |ps|
    ensures forall i :: 0 <= i < |ps| ==> Mirrors(ds[i], ps[i])
    decreases |ps|
  {
    if |ps| == 0 then [] else [ToDto(ps[0])] + ToDtos(ps[1..])
  }

  /**
   `FromEntity(product, products)`. A present single product wins, even when a
   list is given too. With both absent the C# method dereferences null, so at
   least one argument must be present; under that requirement the final
   `(null, null)` return cannot be reached.
   */
  function FromEntity(product: Option<Product>, products: Option<seq<Product>>)
    : (r: (Option<ProductDTO>, Option<seq<ProductDTO>>))
    requires product.Some? || products.Some?
    ensures product.Some? ==> r.0.Some? && Mirrors(r.0.value, product.value) && r.1.None?
    ensures product.None? ==>
              && r.0.None?
              && r.1.Some?
              && |r.1.value| == |products.value|
              && forall i :: 0 <= i < |products.value| ==> Mirrors(r.1.value[i], products.value[i])
  {
    if product.Some? || products.None? then
      (Some(ToDto(product.value)), None)
    else if product.None? && products.Some? then
      (None, Some(ToDtos(products.value)))
    else
      (None, None)
  }

  /** An entity sent out as a single transfer object and converted back is unchanged. */
  lemma EntityRoundTrip(e: Product)
    ensures ToEntity(FromEntity(Some(e), None).0.value) == e
  {
  }

  /** A transfer object converted to an entity and back is unchanged. */
  lemma DtoRoundTrip(d: ProductDTO)
    ensures FromEntity(Some(ToEntity(d)), None).0 == Some(d)
  {
  }

  /** Every entity of a list sent out through the list branch converts back to itself. */
  lemma ListRoundTrip(ps: seq<Product>)
    ensures forall i :: 0 <= i < |ps| ==> ToEntity(FromEntity(None, Some(ps)).1.value[i]) == ps[i]
  {
  }
}
