/** The record types of the product package: a product row and the report's filter. */
module ProductModel {
  /** A Go `float32`, carried as its IEEE-754 bit pattern; the model never interprets prices. */
  datatype Float32 = Float32(bits: bv32)

  /** One row of the `products` table, as the JSON handlers and the SQL layer exchange it. */
  datatype Product = Product(
    productId: int,
    manufacturer: string,
    sku: string,
    upc: string,
    pricePerUnit: Float32,
    quantityOnHand: int,
    productName: string)

  /** The three optional substring filters of a report request; "" means "no filter". */
  datatype ReportFilter = ReportFilter(nameFilter: string, manufacturerFilter: string, skuFilter: string)
}
