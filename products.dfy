/** The Product entity and the table row it is stored as. */
module Products {

  /** A product record as the use-case layer sees it. The price, a Decimal in
      the source, is kept as an integer number of cents. */
  datatype Product = Product(
    productId: string,
    userId: string,
    name: string,
    description: string,
    price: int,
    location: string,
    status: string,
    isAvailable: bool)

  /** One row of the products table: one column per field of a Product. */
  datatype ProductRow = ProductRow(
    productId: string,
    userId: string,
    name: string,
    description: string,
    price: int,
    location: string,
    status: string,
    isAvailable: bool)

  /** The row that `create` builds from a product, column by column. */
  function ToRow(p: Product): (row: ProductRow)
    ensures row.productId == p.productId && row.userId == p.userId
    ensures row.name == p.name && row.description == p.description
    ensures row.price == p.price && row.location == p.location
    ensures row.status == p.status && row.isAvailable == p.isAvailable
  {
    ProductRow(p.productId, p.userId, p.name, p.description, p.price, p.location, p.status, p.isAvailable)
  }

  /** `parse_product`: reads every column of a row back into a Product. The
      string, Decimal and bool conversions are identities on these types, so
      the row the result would be stored as is the row it was read from. */
  function ParseProduct(row: ProductRow): (p: Product)
    ensures ToRow(p) == row
  {
    Product(row.productId, row.userId, row.name, row.description, row.price, row.location, row.status, row.isAvailable)
  }

  /** The seven assignments `edit` makes on the row it found: every column
      except the key takes the value of the edited product. */
  function Overwrite(row: ProductRow, p: Product): (r: ProductRow)
    ensures r.productId == row.productId
    ensures row.productId == p.productId ==> r == ToRow(p)
  {
    row.(userId := p.userId, name := p.name, description := p.description, price := p.price,
         location := p.location, status := p.status, isAvailable := p.isAvailable)
  }
}
