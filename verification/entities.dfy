/**
 The plain data shapes of the product catalogue: the persisted entity, its
 transfer representation at the request boundary, and the `(flag, message)`
 envelope that every mutating repository operation returns.
 */
module Entities {

  /** A persisted product. `price` is a decimal in the service; here it is an
      integer count of the smallest currency unit, since it is only ever copied. */
  datatype Product = Product(id: int, name: string, quantity: int, price: int)

  /** The boundary representation of a product; it carries the same four fields. */
  datatype ProductDTO = ProductDTO(id: int, name: string, quantity: int, price: int)

  /** The outcome envelope of Create, Update and Delete. */
  datatype Response = Response(flag: bool, message: string)
}
