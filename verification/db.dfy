/** The database side of the product repository: the two tables, their point
    lookups and mutations with their not-found conventions, and the search. */
module Db {
  import opened Common
  import opened Models
  import opened Search

  /** `FindProductById`: the last row carrying the id; a lookup that matches
      nothing fails with `ErrRecordNotFound`, like any other failure. */
  function FindProduct(rows: seq<Product>, id: int, fault: Option<string>): (r: Result<Product>)
    ensures fault.Some? ==> r == Err(Infra(fault.value))
    ensures fault.None? ==> (r == Err(RecordNotFound) <==> forall p :: p in rows ==> p.id != id)
    ensures fault.None? ==> (r.Ok? <==> exists p :: p in rows && p.id == id)
    ensures r.Ok? ==> exists i :: 0 <= i < |rows| && rows[i] == r.value && r.value.id == id
                              && forall j :: i < j < |rows| ==> rows[j].id != id
  {
    if fault.Some? then Err(Infra(fault.value))
    else
      var i := LastIndex(rows, ProductIdOf, id);
      if i < 0 then Err(RecordNotFound) else Ok(rows[i])
  }

  /** `FindProductCategoryById`: a missing id is NOT an error here; it yields
      the zero-valued category. */
  function FindCategory(rows: seq<Category>, id: int, fault: Option<string>): (r: Result<Category>)
    ensures fault.Some? ==> r == Err(Infra(fault.value))
    ensures fault.None? ==> r.Ok?
    ensures fault.None? && (forall c :: c in rows ==> c.id != id) ==> r == Ok(ZeroCategory)
    ensures fault.None? && (exists c :: c in rows && c.id == id) ==>
              exists i :: 0 <= i < |rows| && rows[i] == r.value && r.value.id == id
                       && forall j :: i < j < |rows| ==> rows[j].id != id
  {
    if fault.Some? then Err(Infra(fault.value))
    else
      var i := LastIndex(rows, CategoryIdOf, id);
      if i < 0 then Ok(ZeroCategory) else Ok(rows[i])
  }

  /** With unique primary keys the lookup finds the one row with the id. */
  lemma FindProductUnique(rows: seq<Product>, id: int, k: int)
    requires DistinctBy(rows, ProductIdOf)
    requires 0 <= k < |rows| && rows[k].id == id
    ensures FindProduct(rows, id, None) == Ok(rows[k])
  {
    LastIndexIsOnlyMatch(rows, ProductIdOf, id, k);
  }

  /** gorm's `Updates(struct)`: only the fields of `upd` that are not
      zero-valued are written; the key and the nested category are not columns
      that change. */
  function MergeProduct(row: Product, upd: Product): (r: Product)
    ensures r.id == row.id && r.category == row.category
    ensures upd.name != "" ==> r.name == upd.name
    ensures upd.name == "" ==> r.name == row.name
    ensures upd.description != "" ==> r.description == upd.description
    ensures upd.description == "" ==> r.description == row.description
    ensures upd.price != 0 ==> r.price == upd.price
    ensures upd.price == 0 ==> r.price == row.price
    ensures upd.stock != 0 ==> r.stock == upd.stock
    ensures upd.stock == 0 ==> r.stock == row.stock
    ensures upd.categoryId != 0 ==> r.categoryId == upd.categoryId
    ensures upd.categoryId == 0 ==> r.categoryId == row.categoryId
  {
    row.(
      name := if upd.name != "" then upd.name else row.name,
      description := if upd.description != "" then upd.description else row.description,
      price := if upd.price != 0 then upd.price else row.price,
      stock := if upd.stock != 0 then upd.stock else row.stock,
      categoryId := if upd.categoryId != 0 then upd.categoryId else row.categoryId)
  }

  /** `UPDATE products SET ... WHERE id = upd.id`, applied to every row with the id. */
  function UpdatedProducts(rows: seq<Product>, upd: Product): (r: seq<Product>)
    ensures |r| == |rows|
    ensures forall i :: 0 <= i < |rows| && rows[i].id != upd.id ==> r[i] == rows[i]
    ensures forall i :: 0 <= i < |rows| && rows[i].id == upd.id ==> r[i] == MergeProduct(rows[i], upd)
  {
    seq(|rows|, i requires 0 <= i < |rows| => if rows[i].id == upd.id then MergeProduct(rows[i], upd) else rows[i])
  }

  /** Why an update of a product is refused, if it is: a failure, or a new
      `category_id` that names no category (checked only when a row is hit). */
  function UpdateProductError(rows: seq<Product>, cats: seq<Category>, upd: Product, fault: Option<string>): (r: Option<Error>)
    ensures fault.Some? ==> r == Some(Infra(fault.value))
    ensures fault.None? ==>
      (r.Some? <==> (exists p :: p in rows && p.id == upd.id) && upd.categoryId != 0
                    && forall c :: c in cats ==> c.id != upd.categoryId)
    ensures fault.None? && r.Some? ==> r == Some(Rejected("fk_products_category"))
  {
    if fault.Some? then Some(Infra(fault.value))
    else if LastIndex(rows, ProductIdOf, upd.id) >= 0 && upd.categoryId != 0
         && LastIndex(cats, CategoryIdOf, upd.categoryId) < 0
    then Some(Rejected("fk_products_category"))
    else None
  }

  /** `UPDATE product_categories SET name = ... WHERE id = upd.id`; an empty
      name is a zero field and is not written. */
  function UpdatedCategories(rows: seq<Category>, upd: Category): (r: seq<Category>)
    ensures |r| == |rows|
    ensures forall i :: 0 <= i < |rows| ==> r[i].id == rows[i].id
    ensures forall i :: 0 <= i < |rows| && (rows[i].id != upd.id || upd.name == "") ==> r[i] == rows[i]
    ensures forall i :: 0 <= i < |rows| && rows[i].id == upd.id && upd.name != "" ==> r[i].name == upd.name
  {
    seq(|rows|, i requires 0 <= i < |rows| =>
      if rows[i].id == upd.id && upd.name != "" then rows[i].(name := upd.name) else rows[i])
  }

  /** Another category already holds the name the update would write. */
  predicate NameTakenByOther(rows: seq<Category>, upd: Category) {
    exists c :: c in rows && c.id != upd.id && c.name == upd.name
  }

  function UpdateCategoryError(rows: seq<Category>, upd: Category, fault: Option<string>): (r: Option<Error>)
    ensures fault.Some? ==> r == Some(Infra(fault.value))
    ensures fault.None? ==>
      (r.Some? <==> upd.name != "" && (exists c :: c in rows && c.id == upd.id) && NameTakenByOther(rows, upd))
    ensures fault.None? && r.Some? ==> r == Some(Rejected("product_categories_name_key"))
  {
    if fault.Some? then Some(Infra(fault.value))
    else if upd.name != "" && LastIndex(rows, CategoryIdOf, upd.id) >= 0 && NameTakenByOther(rows, upd)
    then Some(Rejected("product_categories_name_key"))
    else None
  }

  function WithoutProduct(rows: seq<Product>, id: int): (r: seq<Product>)
    ensures forall p :: p in r <==> p in rows && p.id != id
  {
    Keep(rows, (p: Product) => p.id != id)
  }

  function WithoutCategory(rows: seq<Category>, id: int): (r: seq<Category>)
    ensures forall c :: c in r <==> c in rows && c.id != id
  {
    Keep(rows, (c: Category) => c.id != id)
  }

  /** `ON DELETE CASCADE`: the products whose category is deleted go with it. */
  function WithoutProductsOf(rows: seq<Product>, categoryId: int): (r: seq<Product>)
    ensures forall p :: p in r <==> p in rows && p.categoryId != categoryId
  {
    Keep(rows, (p: Product) => p.categoryId != categoryId)
  }

  /** The id an insert gives the row: the caller's id when it is set, the
      next value of the table's sequence otherwise. */
  function AssignedId(requested: int, next: int): (id: int)
    ensures requested != 0 ==> id == requested
    ensures requested == 0 ==> id == next
  {
    if requested == 0 then next else requested
  }

  /** What `Create` on the products table reports: a failure, a clash of
      primary keys, a `category_id` naming no category (the database checks
      in that order), or the id the new row received. */
  function ProductInsertOutcome(rows: seq<Product>, cats: seq<Category>, next: int, product: Product, fault: Option<string>): (r: Result<int>)
    ensures fault.Some? ==> r == Err(Infra(fault.value))
    ensures r.Ok? ==> (forall p :: p in rows ==> p.id != r.value) && CategoryResolves(product, cats)
    ensures r.Ok? ==> r.value == AssignedId(product.id, next)
    ensures fault.None? && (exists p :: p in rows && p.id == AssignedId(product.id, next)) ==>
              r == Err(Rejected("products_pkey"))
    ensures (fault.None? && (forall p :: p in rows ==> p.id != AssignedId(product.id, next))
             && !CategoryResolves(product, cats)) ==> r == Err(Rejected("fk_products_category"))
    ensures (fault.None? && (forall p :: p in rows ==> p.id != AssignedId(product.id, next))
             && CategoryResolves(product, cats)) ==> r == Ok(AssignedId(product.id, next))
  {
    if fault.Some? then Err(Infra(fault.value))
    else
      var id := AssignedId(product.id, next);
      if exists p :: p in rows && p.id == id then Err(Rejected("products_pkey"))
      else if !CategoryResolves(product, cats) then Err(Rejected("fk_products_category"))
      else Ok(id)
  }

  /** What `Create` on the categories table reports: the primary key is
      checked before the unique name. */
  function CategoryInsertOutcome(rows: seq<Category>, next: int, category: Category, fault: Option<string>): (r: Result<int>)
    ensures fault.Some? ==> r == Err(Infra(fault.value))
    ensures r.Ok? ==> forall c :: c in rows ==> c.id != r.value && c.name != category.name
    ensures r.Ok? ==> r.value == AssignedId(category.id, next)
    ensures fault.None? && (exists c :: c in rows && c.id == AssignedId(category.id, next)) ==>
              r == Err(Rejected("product_categories_pkey"))
    ensures (fault.None? && (forall c :: c in rows ==> c.id != AssignedId(category.id, next))
             && (exists c :: c in rows && c.name == category.name)) ==> r == Err(Rejected("product_categories_name_key"))
    ensures (fault.None? && (forall c :: c in rows ==> c.id != AssignedId(category.id, next) && c.name != category.name))
              ==> r == Ok(AssignedId(category.id, next))
  {
    if fault.Some? then Err(Infra(fault.value))
    else
      var id := AssignedId(category.id, next);
      if exists c :: c in rows && c.id == id then Err(Rejected("product_categories_pkey"))
      else if exists c :: c in rows && c.name == category.name then Err(Rejected("product_categories_name_key"))
      else Ok(id)
  }

  /** A product inserted with id `id` is what a lookup of `id` then finds. */
  lemma FindAfterInsert(rows: seq<Product>, cats: seq<Category>, next: int, product: Product)
    requires ProductInsertOutcome(rows, cats, next, product, None).Ok?
    ensures var id := ProductInsertOutcome(rows, cats, next, product, None).value;
      FindProduct(rows + [Columns(product).(id := id)], id, None) == Ok(Columns(product).(id := id))
  {
  }

  /** A category inserted with id `id` is what a lookup of `id` then finds. */
  lemma FindCategoryAfterInsert(rows: seq<Category>, next: int, category: Category)
    requires CategoryInsertOutcome(rows, next, category, None).Ok?
    ensures var id := CategoryInsertOutcome(rows, next, category, None).value;
      FindCategory(rows + [Category(id, category.name)], id, None) == Ok(Category(id, category.name))
  {
  }

  /** After an update the lookup finds the merged row: the fields the caller
      set, and the old values of the fields left zero. */
  lemma FindAfterUpdate(rows: seq<Product>, upd: Product, k: int)
    requires DistinctBy(rows, ProductIdOf)
    requires 0 <= k < |rows| && rows[k].id == upd.id
    ensures FindProduct(UpdatedProducts(rows, upd), upd.id, None) == Ok(MergeProduct(rows[k], upd))
  {
    var r := UpdatedProducts(rows, upd);
    assert DistinctBy(r, ProductIdOf) by {
      forall i, j | 0 <= i < j < |r| ensures r[i].id != r[j].id {
        assert r[i].id == rows[i].id && r[j].id == rows[j].id;
      }
    }
    LastIndexIsOnlyMatch(r, ProductIdOf, upd.id, k);
  }

  /** Writing the same update twice leaves what writing it once left. */
  lemma MergeIdempotent(row: Product, upd: Product)
    ensures MergeProduct(MergeProduct(row, upd), upd) == MergeProduct(row, upd)
  {
  }

  /** A body with only zero-valued fields changes nothing. */
  lemma MergeOfZeroFields(row: Product, id: int)
    ensures MergeProduct(row, ZeroProduct.(id := id)) == row
  {
  }

  /** After a delete nothing with the id is left to find. */
  lemma FindAfterDelete(rows: seq<Product>, id: int)
    ensures FindProduct(WithoutProduct(rows, id), id, None) == Err(RecordNotFound)
  {
  }

  /** The two tables, their auto-increment sequences, and a count of point
      lookups (so that a caller can state that the store was not read). */
  class Database {
    var products: seq<Product>
    var categories: seq<Category>
    var productSeq: int
    var categorySeq: int
    ghost var lookups: nat

    ghost predicate Valid()
      reads this
    {
      Schema(products, categories) && productSeq >= 1 && categorySeq >= 1
    }

    constructor ()
      ensures Valid()
      ensures products == [] && categories == [] && lookups == 0
    {
      products := [];
      categories := [];
      productSeq := 1;
      categorySeq := 1;
      lookups := 0;
    }

    method FindProductById(id: int, fault: Option<string>) returns (r: Result<Product>)
      modifies this`lookups
      ensures lookups == old(lookups) + 1
      ensures r == FindProduct(products, id, fault)
    {
      lookups := lookups + 1;
      if fault.Some? {
        return Err(Infra(fault.value));
      }
      var i := LastIndex(products, ProductIdOf, id);
      if i < 0 {
        return Err(RecordNotFound);
      }
      r := Ok(products[i]);
    }

    method FindProductCategoryById(id: int, fault: Option<string>) returns (r: Result<Category>)
      modifies this`lookups
      ensures lookups == old(lookups) + 1
      ensures r == FindCategory(categories, id, fault)
    {
      lookups := lookups + 1;
      if fault.Some? {
        return Err(Infra(fault.value));
      }
      var i := LastIndex(categories, CategoryIdOf, id);
      if i < 0 {
        return Ok(ZeroCategory);
      }
      r := Ok(categories[i]);
    }

    /** `InsertNewProduct`: a zero id draws the next value of the sequence
        (consumed even when the insert then fails); the id comes back to the caller. */
    method InsertNewProduct(product: Product, fault: Option<string>) returns (r: Result<int>)
      requires Valid()
      modifies this`products, this`productSeq
      ensures Valid()
      ensures r == ProductInsertOutcome(old(products), categories, old(productSeq), product, fault)
      ensures productSeq == if fault.None? && product.id == 0 then old(productSeq) + 1 else old(productSeq)
      ensures r.Ok? ==> products == old(products) + [Columns(product).(id := r.value)]
      ensures r.Err? ==> products == old(products)
    {
      if fault.Some? {
        return Err(Infra(fault.value));
      }
      var id := product.id;
      if id == 0 {
        id := productSeq;
        productSeq := productSeq + 1;
      }
      var i := LastIndex(products, ProductIdOf, id);
      if i >= 0 {
        assert products[i] in products;
        return Err(Rejected("products_pkey"));
      }
      var c := LastIndex(categories, CategoryIdOf, product.categoryId);
      if c < 0 {
        assert !CategoryResolves(product, categories) by {
          forall x | x in categories ensures x.id != product.categoryId {
            var k :| 0 <= k < |categories| && categories[k] == x;
          }
        }
        return Err(Rejected("fk_products_category"));
      }
      var row := Columns(product).(id := id);
      assert categories[c] in categories;
      assert CategoryResolves(row, categories);
      AppendDistinct(products, row, ProductIdOf);
      products := products + [row];
      r := Ok(id);
    }

    /** `InsertNewProductCategory`: the same for categories. */
    method InsertNewProductCategory(category: Category, fault: Option<string>) returns (r: Result<int>)
      requires Valid()
      modifies this`categories, this`categorySeq
      ensures Valid()
      ensures r == CategoryInsertOutcome(old(categories), old(categorySeq), category, fault)
      ensures categorySeq == if fault.None? && category.id == 0 then old(categorySeq) + 1 else old(categorySeq)
      ensures r.Ok? ==> categories == old(categories) + [Category(r.value, category.name)]
      ensures r.Err? ==> categories == old(categories)
    {
      if fault.Some? {
        return Err(Infra(fault.value));
      }
      var id := category.id;
      if id == 0 {
        id := categorySeq;
        categorySeq := categorySeq + 1;
      }
      var i := LastIndex(categories, CategoryIdOf, id);
      if i >= 0 {
        assert categories[i] in categories;
        return Err(Rejected("product_categories_pkey"));
      }
      var n := LastIndex(categories, CategoryNameOf, category.name);
      if n >= 0 {
        assert categories[n] in categories;
        return Err(Rejected("product_categories_name_key"));
      }
      var row := Category(id, category.name);
      AppendDistinct(categories, row, CategoryIdOf);
      AppendDistinct(categories, row, CategoryNameOf);
      categories := categories + [row];
      r := Ok(id);
    }

    /** `UpdateProduct`: rows with the id take the non-zero fields; the
        caller's struct is returned as it was passed. No affected-row check:
        a missing id is not an error. */
    method UpdateProduct(product: Product, fault: Option<string>) returns (r: Result<Product>)
      requires Valid()
      modifies this`products
      ensures Valid()
      ensures var err := UpdateProductError(old(products), categories, product, fault);
        && (err.Some? ==> r == Err(err.value) && products == old(products))
        && (err.None? ==> r == Ok(product) && products == UpdatedProducts(old(products), product))
    {
      var err := UpdateProductError(products, categories, product, fault);
      if err.Some? {
        return Err(err.value);
      }
      UpdateKeepsSchema(products, categories, product);
      products := UpdatedProducts(products, product);
      r := Ok(product);
    }

    /** `UpdateProductCategory`: the same convention for categories. */
    method UpdateProductCategory(category: Category, fault: Option<string>) returns (r: Result<Category>)
      requires Valid()
      modifies this`categories
      ensures Valid()
      ensures var err := UpdateCategoryError(old(categories), category, fault);
        && (err.Some? ==> r == Err(err.value) && categories == old(categories))
        && (err.None? ==> r == Ok(category) && categories == UpdatedCategories(old(categories), category))
    {
      var err := UpdateCategoryError(categories, category, fault);
      if err.Some? {
        return Err(err.value);
      }
      UpdateCategoryKeepsSchema(products, categories, category);
      categories := UpdatedCategories(categories, category);
      r := Ok(category);
    }

    /** `DeleteProduct`: removes every row with the id; a missing id is not an error. */
    method DeleteProduct(id: int, fault: Option<string>) returns (err: Option<Error>)
      requires Valid()
      modifies this`products
      ensures Valid()
      ensures fault.Some? ==> err == Some(Infra(fault.value)) && products == old(products)
      ensures fault.None? ==> err == None && products == WithoutProduct(old(products), id)
    {
      if fault.Some? {
        return Some(Infra(fault.value));
      }
      KeepDistinct(products, (p: Product) => p.id != id, ProductIdOf);
      products := WithoutProduct(products, id);
      err := None;
    }

    /** `DeleteProductCategory`: removes the category and, through the
        foreign key's ON DELETE CASCADE, the products that referred to it. */
    method DeleteProductCategory(id: int, fault: Option<string>) returns (err: Option<Error>)
      requires Valid()
      modifies this`products, this`categories
      ensures Valid()
      ensures fault.Some? ==> err == Some(Infra(fault.value)) && products == old(products) && categories == old(categories)
      ensures fault.None? ==> err == None && categories == WithoutCategory(old(categories), id)
                              && products == WithoutProductsOf(old(products), id)
      ensures fault.None? ==> forall p :: p in products ==> p.categoryId != id
    {
      if fault.Some? {
        return Some(Infra(fault.value));
      }
      KeepDistinct(categories, (c: Category) => c.id != id, CategoryIdOf);
      KeepDistinct(categories, (c: Category) => c.id != id, CategoryNameOf);
      KeepDistinct(products, (p: Product) => p.categoryId != id, ProductIdOf);
      var cats := WithoutCategory(categories, id);
      var rows := WithoutProductsOf(products, id);
      forall p | p in rows ensures CategoryResolves(p, cats) {
        var c :| c in categories && c.id == p.categoryId;
        assert c in cats;
      }
      categories := cats;
      products := rows;
      err := None;
    }

    /** `SearchProducts`: the plan is built one clause at a time, as the
        query is; the count is taken before ordering and paging. */
    method SearchProducts(params: Params, fault: Option<string>) returns (r: SearchResult)
      ensures r == SearchOutcome(products, categories, params, fault)
    {
      if fault.Some? {
        return SearchResult([], 0, Some(Infra(fault.value)));
      }
      var matching := Filter(Join(products, categories), params);
      var totalCount := |matching|;

      var orderBy := params.orderBy;
      if orderBy == "" {
        orderBy := "p.name";
      }
      var sort := params.sort;
      if sort != "asc" && sort != "desc" {
        sort := "asc";
      }
      assert orderBy == OrderByOrDefault(params.orderBy);
      assert sort == NormalizeSort(params.sort);
      var column := ParseColumn(orderBy);
      if column.None? {
        return SearchResult([], 0, Some(UnknownColumn(orderBy)));
      }
      var offset := Offset(params.page, params.pageSize);
      var ordered := SortRows(Select(matching), column.value, DirectionOf(sort));
      r := SearchResult(Window(ordered, offset, params.pageSize), totalCount, None);
    }
  }

  /** The rows the WHERE clauses of the plan let through. */
  method Filter(joined: seq<Joined>, params: Params) returns (matching: seq<Joined>)
    ensures matching == Matching(joined, params)
  {
    var conds := PlanOf(params);
    matching := Keep(joined, (j: Joined) => HoldsAll(conds, j));
    PlanFilterIsMatching(joined, conds, params);
  }

  /** The WHERE clauses the search builds, one per filter that is set, in
      the order the query appends them. */
  method PlanOf(params: Params) returns (conds: seq<Condition>)
    ensures forall j :: HoldsAll(conds, j) <==> Matches(params, j)
  {
    conds := [];
    if params.name != "" {
      conds := conds + [NameLike(params.name)];
    }
    if params.category != "" {
      conds := conds + [CategoryIs(params.category)];
    }
    if params.minPrice != 0 {
      conds := conds + [PriceAtLeast(params.minPrice)];
    }
    if params.maxPrice != 0 {
      conds := conds + [PriceAtMost(params.maxPrice)];
    }
    PlanConditionsMatch(params, conds);
  }

  /** The clauses the search appends are, together, exactly the filter. */
  lemma PlanConditionsMatch(params: Params, conds: seq<Condition>)
    requires forall c :: c in conds <==>
      || (c == NameLike(params.name) && params.name != "")
      || (c == CategoryIs(params.category) && params.category != "")
      || (c == PriceAtLeast(params.minPrice) && params.minPrice != 0)
      || (c == PriceAtMost(params.maxPrice) && params.maxPrice != 0)
    ensures forall j :: HoldsAll(conds, j) <==> Matches(params, j)
  {
    forall j ensures HoldsAll(conds, j) <==> Matches(params, j) {
      if HoldsAll(conds, j) {
        if params.name != "" { assert Holds(NameLike(params.name), j); }
        if params.category != "" { assert Holds(CategoryIs(params.category), j); }
        if params.minPrice != 0 { assert Holds(PriceAtLeast(params.minPrice), j); }
        if params.maxPrice != 0 { assert Holds(PriceAtMost(params.maxPrice), j); }
      }
    }
  }

  /** An update that passes its checks keeps every schema constraint. */
  lemma UpdateKeepsSchema(rows: seq<Product>, cats: seq<Category>, upd: Product)
    requires Schema(rows, cats)
    requires UpdateProductError(rows, cats, upd, None).None?
    ensures Schema(UpdatedProducts(rows, upd), cats)
  {
    var r := UpdatedProducts(rows, upd);
    forall i, j | 0 <= i < j < |r| ensures r[i].id != r[j].id {
      assert r[i].id == rows[i].id && r[j].id == rows[j].id;
    }
    forall p | p in r ensures p.category == ZeroCategory && CategoryResolves(p, cats) {
      var i :| 0 <= i < |r| && r[i] == p;
      assert rows[i] in rows;
      if rows[i].id == upd.id && upd.categoryId != 0 {
        assert LastIndex(rows, ProductIdOf, upd.id) >= 0;
        var k := LastIndex(cats, CategoryIdOf, upd.categoryId);
        assert cats[k] in cats;
      }
    }
  }

  lemma UpdateCategoryKeepsSchema(rows: seq<Product>, cats: seq<Category>, upd: Category)
    requires Schema(rows, cats)
    requires UpdateCategoryError(cats, upd, None).None?
    ensures Schema(rows, UpdatedCategories(cats, upd))
  {
    var r := UpdatedCategories(cats, upd);
    forall i, j | 0 <= i < j < |r| ensures r[i].id != r[j].id && r[i].name != r[j].name {
      if upd.name != "" && (cats[i].id == upd.id || cats[j].id == upd.id) {
        var k := if cats[i].id == upd.id then i else j;
        var o := if cats[i].id == upd.id then j else i;
        assert LastIndex(cats, CategoryIdOf, upd.id) >= 0 by {
          assert CategoryIdOf(cats[k]) == upd.id;
        }
        assert cats[o] in cats;
        assert cats[o].id != upd.id;
      }
    }
    forall p | p in rows ensures CategoryResolves(p, r) {
      var c :| c in cats && c.id == p.categoryId;
      var i :| 0 <= i < |cats| && cats[i] == c;
      assert r[i] in r;
    }
  }
}
