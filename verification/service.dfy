/** The product service: a cache-aside read of products in front of the
    store, and write operations that go to the store alone. */
module Service {
  import opened Common
  import opened Models
  import opened Redis
  import opened Search
  import opened Db

  /** The answer `GetProductById` gives, as a function of the keyspace, the
      clock and the products table: a cache failure as it is, a cached
      product with a positive id as it is, and otherwise the store's answer. */
  function Served(entries: map<string, Entry>, now: int, rows: seq<Product>, id: int,
                  cacheFault: Option<string>, dbFault: Option<string>): (r: Result<Product>)
    ensures cacheFault.Some? ==> r == Err(Infra(cacheFault.value))
    ensures cacheFault.None? && !Live(entries, now, ProductKey(id)) ==> r == FindProduct(rows, id, dbFault)
    ensures var cached := ProductFromRedis(entries, now, id, cacheFault);
      && (cached.Err? ==> r == cached)
      && (cached.Ok? && cached.value.id > 0 ==> r == cached)
      && (cached.Ok? && cached.value.id <= 0 ==> r == FindProduct(rows, id, dbFault))
    ensures cacheFault.None? && Live(entries, now, ProductKey(id)) && entries[ProductKey(id)].payload.Garbled? ==>
              r == Err(InvalidJson(entries[ProductKey(id)].payload.text))
  {
    match ProductFromRedis(entries, now, id, cacheFault)
    case Err(e) => Err(e)
    case Ok(p) => if p.id > 0 then Ok(p) else FindProduct(rows, id, dbFault)
  }

  /** With the keyspace written only by the backfill, the product served
      always carries the id that was asked for. */
  lemma ServedHasRequestedId(entries: map<string, Entry>, now: int, rows: seq<Product>, id: int,
                             cacheFault: Option<string>, dbFault: Option<string>)
    requires ProductEntriesKeyed(entries)
    requires Served(entries, now, rows, id, cacheFault, dbFault).Ok?
    ensures Served(entries, now, rows, id, cacheFault, dbFault).value.id == id
  {
    var cached := ProductFromRedis(entries, now, id, cacheFault);
    if cached.Ok? && cached.value.id > 0 {
      CachedProductHasRequestedId(entries, now, id);
    }
  }

  /** Once the backfill of a fetched product has been written, later reads
      within five minutes are served from the cache, whatever the store then
      holds or however it fails: an edit or a delete is not seen until the
      entry expires. */
  lemma {:induction false} BackfillServesUntilExpiry(entries: map<string, Entry>, now: int, rows: seq<Product>, id: int,
                                   elapsed: int, later: seq<Product>, dbFault: Option<string>)
    requires 0 < id
    requires 0 <= elapsed < TtlSeconds
    requires FindProduct(rows, id, None).Ok?
    ensures var p := FindProduct(rows, id, None).value;
      Served(Put(entries, now, ProductKey(p.id), EncodeProduct(p)), now + elapsed, later, id, None, dbFault) == Ok(p)
  {
    var p := FindProduct(rows, id, None).value;
    ReadBackWithinTtl(entries, now, p, elapsed);
  }

  /** After five minutes the backfilled entry is gone and the store is asked again. */
  lemma {:induction false} BackfillExpires(entries: map<string, Entry>, now: int, p: Product,
                         elapsed: int, later: seq<Product>, dbFault: Option<string>)
    requires elapsed >= TtlSeconds
    ensures Served(Put(entries, now, ProductKey(p.id), EncodeProduct(p)), now + elapsed, later, p.id, None, dbFault)
            == FindProduct(later, p.id, dbFault)
  {
    ExpiredAfterTtl(entries, now, p, elapsed);
  }

  /** `ProductService`: the Redis keyspace, the database, and the cache
      writes the lookups have scheduled but not yet carried out. */
  class ProductService {
    const cache: Cache
    const db: Database
    var pendingWrites: seq<Product>

    ghost predicate Valid()
      reads this, cache, db
    {
      db.Valid() && ProductEntriesKeyed(cache.entries)
    }

    constructor (cache: Cache, db: Database)
      requires db.Valid() && ProductEntriesKeyed(cache.entries)
      ensures Valid()
      ensures this.cache == cache && this.db == db && pendingWrites == []
    {
      this.cache := cache;
      this.db := db;
      pendingWrites := [];
    }

    /** `GetProductById`: the cache first; a cached product with a positive
        id is returned without reading the store; otherwise the store is read
        and, when it finds the row, one cache write of that row is queued. */
    method GetProductById(id: int, cacheFault: Option<string>, dbFault: Option<string>) returns (r: Result<Product>)
      modifies db`lookups, this`pendingWrites
      ensures r == Served(cache.entries, cache.now, db.products, id, cacheFault, dbFault)
      ensures var cached := ProductFromRedis(cache.entries, cache.now, id, cacheFault);
        && (cached.Err? ==> r == cached)
        && (cached.Err? || cached.value.id > 0 ==>
              db.lookups == old(db.lookups) && pendingWrites == old(pendingWrites))
        && (cached.Ok? && cached.value.id <= 0 ==>
              db.lookups == old(db.lookups) + 1 && r == FindProduct(db.products, id, dbFault))
      ensures pendingWrites == if db.lookups != old(db.lookups) && r.Ok? then old(pendingWrites) + [r.value] else old(pendingWrites)
    {
      var product := cache.GetProductByIdFromRedis(id, cacheFault);
      if product.Err? {
        return product;
      }
      if product.value.id > 0 {
        return product;
      }
      product := db.FindProductById(id, dbFault);
      if product.Err? {
        return product;
      }
      pendingWrites := pendingWrites + [product.value];
      r := product;
    }

    /** The queued cache write runs: `SetProductById` for the oldest pending
        product. A failure is only logged; the entry is dropped either way and
        nothing already answered changes. */
    method FlushBackfill(fault: Option<string>) returns (written: bool)
      requires Valid()
      modifies this`pendingWrites, cache`entries
      ensures Valid()
      ensures old(pendingWrites) == [] ==> !written && pendingWrites == [] && cache.entries == old(cache.entries)
      ensures old(pendingWrites) != [] ==>
        && pendingWrites == old(pendingWrites)[1..]
        && written == fault.None?
        && cache.entries == if written
             then Put(old(cache.entries), cache.now, ProductKey(old(pendingWrites)[0].id), EncodeProduct(old(pendingWrites)[0]))
             else old(cache.entries)
    {
      if pendingWrites == [] {
        return false;
      }
      var product := pendingWrites[0];
      pendingWrites := pendingWrites[1..];
      PutProductKeepsKeyed(cache.entries, cache.now, product);
      var err := cache.SetProductById(product, fault);
      written := err.None?;
    }

    /** `GetProductCategoryById`: the store only; the cache is neither read nor written. */
    method GetProductCategoryById(id: int, fault: Option<string>) returns (r: Result<Category>)
      modifies db`lookups
      ensures db.lookups == old(db.lookups) + 1
      ensures r == FindCategory(db.categories, id, fault)
    {
      r := db.FindProductCategoryById(id, fault);
    }

    /** `CreateNewProduct`. This and the other writes leave the keyspace and
        the queue as they were. */
    method CreateNewProduct(product: Product, fault: Option<string>) returns (r: Result<int>)
      requires Valid()
      modifies db`products, db`productSeq
      ensures Valid()
      ensures r == ProductInsertOutcome(old(db.products), db.categories, old(db.productSeq), product, fault)
      ensures db.productSeq == if fault.None? && product.id == 0 then old(db.productSeq) + 1 else old(db.productSeq)
      ensures db.products == if r.Ok? then old(db.products) + [Columns(product).(id := r.value)] else old(db.products)
      ensures cache.entries == old(cache.entries) && pendingWrites == old(pendingWrites)
    {
      r := db.InsertNewProduct(product, fault);
    }

    method CreateNewProductCategory(category: Category, fault: Option<string>) returns (r: Result<int>)
      requires Valid()
      modifies db`categories, db`categorySeq
      ensures Valid()
      ensures r == CategoryInsertOutcome(old(db.categories), old(db.categorySeq), category, fault)
      ensures db.categorySeq == if fault.None? && category.id == 0 then old(db.categorySeq) + 1 else old(db.categorySeq)
      ensures db.categories == if r.Ok? then old(db.categories) + [Category(r.value, category.name)] else old(db.categories)
      ensures cache.entries == old(cache.entries) && pendingWrites == old(pendingWrites)
    {
      r := db.InsertNewProductCategory(category, fault);
    }

    /** `EditProduct`: the store row changes, the cached copy does not. */
    method EditProduct(product: Product, fault: Option<string>) returns (r: Result<Product>)
      requires Valid()
      modifies db`products
      ensures Valid()
      ensures var err := UpdateProductError(old(db.products), db.categories, product, fault);
        && (err.Some? ==> r == Err(err.value) && db.products == old(db.products))
        && (err.None? ==> r == Ok(product) && db.products == UpdatedProducts(old(db.products), product))
      ensures cache.entries == old(cache.entries) && pendingWrites == old(pendingWrites)
    {
      r := db.UpdateProduct(product, fault);
    }

    method EditProductCategory(category: Category, fault: Option<string>) returns (r: Result<Category>)
      requires Valid()
      modifies db`categories
      ensures Valid()
      ensures var err := UpdateCategoryError(old(db.categories), category, fault);
        && (err.Some? ==> r == Err(err.value) && db.categories == old(db.categories))
        && (err.None? ==> r == Ok(category) && db.categories == UpdatedCategories(old(db.categories), category))
      ensures cache.entries == old(cache.entries) && pendingWrites == old(pendingWrites)
    {
      r := db.UpdateProductCategory(category, fault);
    }

    method DeleteProductCategory(id: int, fault: Option<string>) returns (err: Option<Error>)
      requires Valid()
      modifies db`products, db`categories
      ensures Valid()
      ensures fault.Some? ==> err == Some(Infra(fault.value)) && db.products == old(db.products) && db.categories == old(db.categories)
      ensures fault.None? ==> err == None && db.categories == WithoutCategory(old(db.categories), id)
                              && db.products == WithoutProductsOf(old(db.products), id)
      ensures cache.entries == old(cache.entries) && pendingWrites == old(pendingWrites)
    {
      err := db.DeleteProductCategory(id, fault);
    }

    /** `DeleteProduct`: the row goes, a cached copy stays until it expires. */
    method DeleteProduct(id: int, fault: Option<string>) returns (err: Option<Error>)
      requires Valid()
      modifies db`products
      ensures Valid()
      ensures fault.Some? ==> err == Some(Infra(fault.value)) && db.products == old(db.products)
      ensures fault.None? ==> err == None && db.products == WithoutProduct(old(db.products), id)
      ensures cache.entries == old(cache.entries) && pendingWrites == old(pendingWrites)
    {
      err := db.DeleteProduct(id, fault);
    }

    method SearchProducts(params: Params, fault: Option<string>) returns (r: SearchResult)
      ensures r == SearchOutcome(db.products, db.categories, params, fault)
    {
      r := db.SearchProducts(params, fault);
    }
  }
}
