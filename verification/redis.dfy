/** The Redis side of the product repository: the key formats, what a cached
    payload decodes to, and the keyspace itself with its expiry clock. */
module Redis {
  import opened Common
  import opened Decimal
  import opened GoInt
  import opened Models

  const ProductKeyPrefix := "product:"
  const CategoryKeyPrefix := "product_category:"

  /** Both set calls store with `time.Minute*5`; the clock counts seconds. */
  const TtlSeconds: int := 5 * 60

  /** `fmt.Sprintf("product:%d", id)` */
  function ProductKey(id: int): (k: string)
    ensures |k| > |ProductKeyPrefix| && k[..|ProductKeyPrefix|] == ProductKeyPrefix
    ensures k[|ProductKeyPrefix|..] == FormatInt(id)
  {
    ProductKeyPrefix + FormatInt(id)
  }

  /** `fmt.Sprintf("product_category:%d", id)` */
  function CategoryKey(id: int): (k: string)
    ensures |k| > |CategoryKeyPrefix| && k[..|CategoryKeyPrefix|] == CategoryKeyPrefix
    ensures k[|CategoryKeyPrefix|..] == FormatInt(id)
  {
    CategoryKeyPrefix + FormatInt(id)
  }

  /** Different products never share a cache key. */
  lemma ProductKeyInjective(a: int, b: int)
    requires ProductKey(a) == ProductKey(b)
    ensures a == b
  {
    assert FormatInt(a) == ProductKey(a)[|ProductKeyPrefix|..];
    assert FormatInt(b) == ProductKey(b)[|ProductKeyPrefix|..];
    FormatIntInjective(a, b);
  }

  /** Different categories never share a cache key. */
  lemma CategoryKeyInjective(a: int, b: int)
    requires CategoryKey(a) == CategoryKey(b)
    ensures a == b
  {
    assert FormatInt(a) == CategoryKey(a)[|CategoryKeyPrefix|..];
    assert FormatInt(b) == CategoryKey(b)[|CategoryKeyPrefix|..];
    FormatIntInjective(a, b);
  }

  /** A product key and a category key differ at their eighth character
      (':' against '_'), so the two kinds of entry never overwrite each other. */
  lemma KeysNeverCollide(a: int, b: int)
    ensures ProductKey(a) != CategoryKey(b)
  {
    assert ProductKey(a)[7] == ':';
    assert CategoryKey(b)[7] == '_';
  }

  /** The id can be read back from the key: the text after the prefix parses
      to the id for every 64-bit id. */
  lemma ProductKeyCarriesId(id: int)
    requires InInt64(id)
    ensures |ProductKey(id)| > |ProductKeyPrefix|
    ensures ProductKey(id)[..|ProductKeyPrefix|] == ProductKeyPrefix
    ensures ParseInt(ProductKey(id)[|ProductKeyPrefix|..]) == Some(id)
  {
    assert ProductKey(id)[|ProductKeyPrefix|..] == FormatInt(id);
    ParseFormatRoundTrip(id);
  }

  /** The text a key holds. JSON itself is not modelled: `json.Marshal` of a
      product or a category is its own payload value, and `Garbled` is any
      text that `json.Unmarshal` refuses. */
  datatype Payload =
    | ProductJson(product: Product)
    | CategoryJson(category: Category)
    | Garbled(text: string)

  function EncodeProduct(p: Product): Payload {
    ProductJson(p)
  }

  function EncodeCategory(c: Category): Payload {
    CategoryJson(c)
  }

  /** `json.Unmarshal` into a `models.Product`. A category's JSON fills only
      the fields whose names match (`id` and `name`); unknown fields are ignored. */
  function DecodeProduct(payload: Payload): Result<Product> {
    match payload
    case ProductJson(p) => Ok(p)
    case CategoryJson(c) => Ok(ZeroProduct.(id := c.id, name := c.name))
    case Garbled(text) => Err(InvalidJson(text))
  }

  /** `json.Unmarshal` into a `models.ProductCategory`. */
  function DecodeCategory(payload: Payload): Result<Category> {
    match payload
    case ProductJson(p) => Ok(Category(p.id, p.name))
    case CategoryJson(c) => Ok(c)
    case Garbled(text) => Err(InvalidJson(text))
  }

  lemma DecodeEncodeProduct(p: Product)
    ensures DecodeProduct(EncodeProduct(p)) == Ok(p)
  {
  }

  lemma DecodeEncodeCategory(c: Category)
    ensures DecodeCategory(EncodeCategory(c)) == Ok(c)
  {
  }

  /** A stored value and the clock reading at which Redis drops it. */
  datatype Entry = Entry(payload: Payload, expiresAt: int)

  /** A key is visible while the clock has not reached its expiry. */
  predicate Live(entries: map<string, Entry>, now: int, key: string) {
    key in entries && now < entries[key].expiresAt
  }

  /** What `Redis.Get(ctx, key).Result()` reports: the text, `redis.Nil`, or
      a failure of the connection or the server (`fault`). */
  datatype Reply = Value(payload: Payload) | Nil | Failed(cause: string)

  function Get(entries: map<string, Entry>, now: int, key: string, fault: Option<string>): (r: Reply)
    ensures r.Failed? <==> fault.Some?
    ensures r.Nil? <==> fault.None? && !Live(entries, now, key)
    ensures r.Value? ==> Live(entries, now, key) && r.payload == entries[key].payload
  {
    if fault.Some? then Failed(fault.value)
    else if Live(entries, now, key) then Value(entries[key].payload)
    else Nil
  }

  /** `Redis.Set(ctx, key, payload, time.Minute*5)`: overwrite the key and
      restart its lifetime. */
  function Put(entries: map<string, Entry>, now: int, key: string, payload: Payload): (r: map<string, Entry>)
    ensures r.Keys == entries.Keys + {key}
    ensures r[key] == Entry(payload, now + TtlSeconds)
    ensures forall k :: k in entries && k != key ==> r[k] == entries[k]
    ensures Live(r, now, key)
  {
    entries[key := Entry(payload, now + TtlSeconds)]
  }

  /** `GetProductByIdFromRedis`: a miss is the zero product with no error,
      any other failure is returned as it is, and a payload that does not
      decode is an error. */
  function ProductFromRedis(entries: map<string, Entry>, now: int, id: int, fault: Option<string>): (r: Result<Product>)
    ensures fault.Some? ==> r == Err(Infra(fault.value))
    ensures fault.None? && !Live(entries, now, ProductKey(id)) ==> r == Ok(ZeroProduct)
    ensures fault.None? && Live(entries, now, ProductKey(id)) ==>
              r == DecodeProduct(entries[ProductKey(id)].payload)
    ensures r.Err? ==> fault.Some? || entries[ProductKey(id)].payload.Garbled?
  {
    match Get(entries, now, ProductKey(id), fault)
    case Nil => Ok(ZeroProduct)
    case Failed(cause) => Err(Infra(cause))
    case Value(payload) => DecodeProduct(payload)
  }

  /** `GetProductCategoryByIdFromRedis`: a miss is the error "product category
      not found". Any other failure is not returned: decoding then runs on the
      empty string Redis handed back, which fails, so an error still results. */
  function CategoryFromRedis(entries: map<string, Entry>, now: int, id: int, fault: Option<string>): (r: Result<Category>)
    ensures fault.Some? ==> r == Err(InvalidJson(""))
    ensures fault.None? && !Live(entries, now, CategoryKey(id)) ==> r == Err(CategoryNotFound)
    ensures fault.None? && Live(entries, now, CategoryKey(id)) ==>
              r == DecodeCategory(entries[CategoryKey(id)].payload)
  {
    match Get(entries, now, CategoryKey(id), fault)
    case Nil => Err(CategoryNotFound)
    case Failed(_) => DecodeCategory(Garbled(""))
    case Value(payload) => DecodeCategory(payload)
  }

  /** Setting a product and reading it back before five minutes have passed
      returns an equal product. */
  lemma ReadBackWithinTtl(entries: map<string, Entry>, now: int, p: Product, elapsed: int)
    requires 0 <= elapsed < TtlSeconds
    ensures ProductFromRedis(Put(entries, now, ProductKey(p.id), EncodeProduct(p)), now + elapsed, p.id, None) == Ok(p)
  {
  }

  /** Once five minutes have passed the entry is gone: the read is a miss. */
  lemma ExpiredAfterTtl(entries: map<string, Entry>, now: int, p: Product, elapsed: int)
    requires elapsed >= TtlSeconds
    ensures ProductFromRedis(Put(entries, now, ProductKey(p.id), EncodeProduct(p)), now + elapsed, p.id, None) == Ok(ZeroProduct)
  {
  }

  /** A set touches only its own key. */
  lemma PutLeavesOtherKeys(entries: map<string, Entry>, now: int, key: string, payload: Payload, other: string)
    requires other != key
    ensures other in Put(entries, now, key, payload) <==> other in entries
    ensures other in entries ==> Put(entries, now, key, payload)[other] == entries[other]
  {
  }

  /** Every product entry holds the JSON of the product whose id names its
      key, which is how `SetProductById` writes it. */
  ghost predicate ProductEntriesKeyed(entries: map<string, Entry>) {
    forall id: int {:trigger ProductKey(id)} :: ProductKey(id) in entries ==>
      entries[ProductKey(id)].payload.ProductJson? && entries[ProductKey(id)].payload.product.id == id
  }

  /** `SetProductById` keeps every product entry under its own id's key. */
  lemma PutProductKeepsKeyed(entries: map<string, Entry>, now: int, p: Product)
    requires ProductEntriesKeyed(entries)
    ensures ProductEntriesKeyed(Put(entries, now, ProductKey(p.id), EncodeProduct(p)))
  {
    forall id: int | ProductKey(id) == ProductKey(p.id) ensures id == p.id {
      ProductKeyInjective(id, p.id);
    }
  }

  /** `SetProductCategoryById` never disturbs a product entry. */
  lemma PutCategoryKeepsKeyed(entries: map<string, Entry>, now: int, c: Category)
    requires ProductEntriesKeyed(entries)
    ensures ProductEntriesKeyed(Put(entries, now, CategoryKey(c.id), EncodeCategory(c)))
  {
    forall id: int ensures ProductKey(id) != CategoryKey(c.id) {
      KeysNeverCollide(id, c.id);
    }
  }

  /** In a keyspace written only by `SetProductById`, a product read from
      the cache is the product with the requested id, or the zero product. */
  lemma CachedProductHasRequestedId(entries: map<string, Entry>, now: int, id: int)
    requires ProductEntriesKeyed(entries)
    requires ProductFromRedis(entries, now, id, None).Ok?
    ensures ProductFromRedis(entries, now, id, None).value.id in {0, id}
  {
  }

  /** The Redis keyspace as the repository sees it, and the clock that
      decides expiry. */
  class Cache {
    var entries: map<string, Entry>
    var now: int

    constructor ()
      ensures entries == map[] && now == 0
    {
      entries := map[];
      now := 0;
    }

    /** Time passes; entries are not touched but may expire. */
    method Tick(seconds: nat)
      modifies this`now
      ensures now == old(now) + seconds
    {
      now := now + seconds;
    }

    method GetProductByIdFromRedis(productId: int, fault: Option<string>) returns (r: Result<Product>)
      ensures r == ProductFromRedis(entries, now, productId, fault)
      ensures r.Ok? && !Live(entries, now, ProductKey(productId)) ==> r.value.id == 0
    {
      var cacheKey := ProductKey(productId);
      var reply := Get(entries, now, cacheKey, fault);
      if reply.Failed? {
        return Err(Infra(reply.cause));
      }
      if reply.Nil? {
        return Ok(ZeroProduct);
      }
      r := DecodeProduct(reply.payload);
    }

    method GetProductCategoryByIdFromRedis(categoryId: int, fault: Option<string>) returns (r: Result<Category>)
      ensures r == CategoryFromRedis(entries, now, categoryId, fault)
      ensures r.Err?
        || (fault.None? && Live(entries, now, CategoryKey(categoryId)))
    {
      var cacheKey := CategoryKey(categoryId);
      var reply := Get(entries, now, cacheKey, fault);
      var text := Garbled("");
      if reply.Nil? {
        return Err(CategoryNotFound);
      }
      if reply.Value? {
        text := reply.payload;
      }
      r := DecodeCategory(text);
    }

    /** `SetProductById`: overwrite `product:<id>` with the product's JSON and
        a fresh five-minute lifetime. A failed write leaves the keyspace as it was. */
    method SetProductById(product: Product, fault: Option<string>) returns (err: Option<Error>)
      modifies this`entries
      ensures fault.None? ==> err == None && entries == Put(old(entries), now, ProductKey(product.id), EncodeProduct(product))
      ensures fault.Some? ==> err == Some(Infra(fault.value)) && entries == old(entries)
    {
      var cacheKey := ProductKey(product.id);
      if fault.Some? {
        return Some(Infra(fault.value));
      }
      entries := Put(entries, now, cacheKey, EncodeProduct(product));
      err := None;
    }

    /** `SetProductCategoryById`: the same for `product_category:<id>`. */
    method SetProductCategoryById(category: Category, fault: Option<string>) returns (err: Option<Error>)
      modifies this`entries
      ensures fault.None? ==> err == None && entries == Put(old(entries), now, CategoryKey(category.id), EncodeCategory(category))
      ensures fault.Some? ==> err == Some(Infra(fault.value)) && entries == old(entries)
    {
      var cacheKey := CategoryKey(category.id);
      if fault.Some? {
        return Some(Infra(fault.value));
      }
      entries := Put(entries, now, cacheKey, EncodeCategory(category));
      err := None;
    }
  }
}
