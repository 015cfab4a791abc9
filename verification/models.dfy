/** The two catalog records and the schema constraints their tags declare. */
module Models {
  import opened Common

  /** `ProductCategory`: `id` is an auto-increment primary key, `name` is
      NOT NULL and UNIQUE (a Go string is never NULL, so only uniqueness bites). */
  datatype Category = Category(id: int, name: string)

  /** `Product`. Price is held in cents (the source uses `float64`); `category`
      is the nested snapshot that the JSON form carries but no column stores. */
  datatype Product = Product(
    id: int,
    name: string,
    description: string,
    price: int,
    stock: int,
    categoryId: int,
    category: Category)

  /** Go's zero values: what `&models.ProductCategory{}` and `&models.Product{}` hold. */
  const ZeroCategory := Category(0, "")
  const ZeroProduct := Product(0, "", "", 0, 0, 0, ZeroCategory)

  /** The part of a product that is stored in the `products` table: its
      columns. The nested category is a relation, not a column, so reading a
      row back leaves it zero-valued. */
  function Columns(p: Product): (r: Product)
    ensures r.category == ZeroCategory
    ensures r.(category := p.category) == p
  {
    p.(category := ZeroCategory)
  }

  /** The keys the schema declares: the two primary keys and the unique name. */
  function ProductIdOf(p: Product): int { p.id }
  function CategoryIdOf(c: Category): int { c.id }
  function CategoryNameOf(c: Category): string { c.name }

  /** Every row of the products table holds only column data. */
  ghost predicate ColumnsOnly(products: seq<Product>) {
    forall p :: p in products ==> p.category == ZeroCategory
  }

  /** Foreign key `category_id -> product_categories.id`. */
  predicate CategoryResolves(p: Product, categories: seq<Category>) {
    exists c :: c in categories && c.id == p.categoryId
  }

  /** The key, uniqueness and foreign-key constraints the schema tags impose
      on the two tables: unique primary keys, unique category names, and every
      product's `category_id` naming an existing category. Column widths are
      not part of it. */
  ghost predicate Schema(products: seq<Product>, categories: seq<Category>) {
    && DistinctBy(products, ProductIdOf)
    && DistinctBy(categories, CategoryIdOf)
    && DistinctBy(categories, CategoryNameOf)
    && ColumnsOnly(products)
    && (forall p :: p in products ==> CategoryResolves(p, categories))
  }
}
