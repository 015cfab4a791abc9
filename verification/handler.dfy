/** The HTTP handlers: the guards on path ids, the binding of request
    bodies, the normalisation of search query parameters, and the page
    count and next-page link of a search response. */
module Handler {
  import opened Common
  import opened Decimal
  import opened GoInt
  import opened Models
  import opened Search
  import opened Db
  import Redis
  import opened Service

  /** Which entity a path id names. Product handlers parse it with
      `strconv.ParseInt(s, 10, 64)` and category handlers with `strconv.Atoi`,
      which accept the same texts where `int` is 64 bits. */
  datatype IdKind = ProductId | CategoryId

  /** The outcome of a guard: the accepted value, or the message of the 400 reply. */
  datatype Checked<T> = Accept(value: T) | Reject(message: string)

  /** What `ShouldBindJSON` leaves: the decoded body, or the binder's error text. */
  datatype Body<T> = Bound(value: T) | Unbound(message: string)

  /** The reply a handler writes: 400 with a message, 500 with the error of
      the layer below, or a success status with a body. */
  datatype Response<T> = BadRequest(message: string) | Failure(error: Error) | Success(status: int, body: T)

  function InvalidIdMessage(kind: IdKind): string {
    match kind
    case ProductId => "Invalid product id"
    case CategoryId => "Invalid category id"
  }

  function NonPositiveIdMessage(kind: IdKind): string {
    match kind
    case ProductId => "Product id must be positive"
    case CategoryId => "Category id must be positive"
  }

  /** The guard every id handler runs before it calls the layer below: the
      text must parse, and the id must be positive. */
  function CheckId(text: string, kind: IdKind): (r: Checked<int>)
    ensures r.Accept? <==> ParseInt(text).Some? && ParseInt(text).value > 0
    ensures r.Accept? ==> r.value == ParseInt(text).value && 0 < r.value <= MaxInt64
    ensures ParseInt(text).None? ==> r == Reject(InvalidIdMessage(kind))
    ensures ParseInt(text).Some? && ParseInt(text).value <= 0 ==> r == Reject(NonPositiveIdMessage(kind))
  {
    match ParseInt(text)
    case None => Reject(InvalidIdMessage(kind))
    case Some(id) => if id <= 0 then Reject(NonPositiveIdMessage(kind)) else Accept(id)
  }

  /** Every positive 64-bit id, written in decimal, passes the guard unchanged. */
  lemma CheckIdAcceptsPrinted(n: int, kind: IdKind)
    requires 0 < n <= MaxInt64
    ensures CheckId(FormatInt(n), kind) == Accept(n)
  {
    ParseFormatRoundTrip(n);
  }

  /** Zero and negative ids, written in decimal, are refused as not positive. */
  lemma CheckIdRefusesPrintedNonPositive(n: int, kind: IdKind)
    requires MinInt64 <= n <= 0
    ensures CheckId(FormatInt(n), kind) == Reject(NonPositiveIdMessage(kind))
  {
    ParseFormatRoundTrip(n);
  }

  /** The reply for the result of the layer below. */
  function Reply<T>(result: Result<T>, status: int): (r: Response<T>)
    ensures r.Failure? <==> result.Err?
    ensures result.Ok? ==> r == Success(status, result.value)
    ensures result.Err? ==> r.error == result.error
  {
    match result
    case Ok(v) => Success(status, v)
    case Err(e) => Failure(e)
  }

  /** A price query parameter. Parsing the decimal text is not modelled: the
      parameter is missing, refused by `strconv.ParseFloat`, or a price in cents. */
  datatype PriceParam = Absent | Unparsable | Price(cents: int)

  /** The query string of a search, each value as `c.Query` returns it. */
  datatype SearchQuery = SearchQuery(
    name: string,
    category: string,
    minPrice: PriceParam,
    maxPrice: PriceParam,
    orderBy: string,
    sort: string,
    page: string,
    pageSize: string)

  /** A missing price leaves the bound at zero, which switches its filter off. */
  function PriceOf(p: PriceParam): int {
    if p.Price? then p.cents else 0
  }

  /** `page` and `page_size` after parsing: a missing text or a value that is
      not positive becomes the fallback. */
  function Coerce(text: string, fallback: int): (n: int)
    requires text == "" || ParseInt(text).Some?
    requires 1 <= fallback <= MaxInt64
    ensures 1 <= n <= MaxInt64
    ensures text == "" ==> n == fallback
    ensures text != "" ==> n == if ParseInt(text).value > 0 then ParseInt(text).value else fallback
  {
    if text == "" then fallback
    else
      var v := ParseInt(text).value;
      if v <= 0 then fallback else v
  }

  /** Any positive 64-bit value given for `page` or `page_size` is kept. */
  lemma CoerceKeepsPositive(n: int, fallback: int)
    requires 0 < n <= MaxInt64
    requires 1 <= fallback <= MaxInt64
    ensures ParseInt(FormatInt(n)).Some?
    ensures Coerce(FormatInt(n), fallback) == n
  {
    ParseFormatRoundTrip(n);
  }

  /** Giving zero or a negative value is the same as leaving the parameter out. */
  lemma CoerceNonPositiveIsOmitted(n: int, fallback: int)
    requires MinInt64 <= n <= 0
    requires 1 <= fallback <= MaxInt64
    ensures ParseInt(FormatInt(n)).Some?
    ensures Coerce(FormatInt(n), fallback) == Coerce("", fallback)
  {
    ParseFormatRoundTrip(n);
  }

  /** The parameters `SearchProducts` hands on, or the 400 message of the first
      parameter that does not parse; they are checked in the order min_price,
      max_price, page, page_size. */
  function SearchParamsOf(q: SearchQuery): (r: Checked<Params>)
    ensures r.Reject? <==>
      || q.minPrice.Unparsable? || q.maxPrice.Unparsable?
      || (q.page != "" && ParseInt(q.page).None?)
      || (q.pageSize != "" && ParseInt(q.pageSize).None?)
    ensures q.minPrice.Unparsable? ==> r == Reject("Invalid min_price")
    ensures !q.minPrice.Unparsable? && q.maxPrice.Unparsable? ==> r == Reject("Invalid max_price")
    ensures (r.Reject? && !q.minPrice.Unparsable? && !q.maxPrice.Unparsable?
             && (q.page == "" || ParseInt(q.page).Some?)) ==> r == Reject("Invalid page_size")
    ensures r.Accept? ==>
      && r.value.name == q.name && r.value.category == q.category
      && r.value.orderBy == q.orderBy && r.value.sort == q.sort
      && r.value.minPrice == PriceOf(q.minPrice) && r.value.maxPrice == PriceOf(q.maxPrice)
      && 1 <= r.value.page <= MaxInt64 && 1 <= r.value.pageSize <= MaxInt64
      && (q.page == "" ==> r.value.page == 1)
      && (q.pageSize == "" ==> r.value.pageSize == 10)
    ensures r.Accept? ==> r.value.page == Coerce(q.page, 1) && r.value.pageSize == Coerce(q.pageSize, 10)
    ensures (!q.minPrice.Unparsable? && !q.maxPrice.Unparsable? && q.page != "" && ParseInt(q.page).None?)
              ==> r == Reject("Invalid page")
  {
    if q.minPrice.Unparsable? then Reject("Invalid min_price")
    else if q.maxPrice.Unparsable? then Reject("Invalid max_price")
    else if q.page != "" && ParseInt(q.page).None? then Reject("Invalid page")
    else if q.pageSize != "" && ParseInt(q.pageSize).None? then Reject("Invalid page_size")
    else Accept(Params(q.name, q.category, PriceOf(q.minPrice), PriceOf(q.maxPrice), q.orderBy, q.sort,
                       Coerce(q.page, 1), Coerce(q.pageSize, 10)))
  }

  /** A query that gives every parameter in range reaches the store as given:
      the page and page size asked for are the ones searched. */
  lemma SearchParamsKeepQuery(q: SearchQuery, page: int, pageSize: int)
    requires !q.minPrice.Unparsable? && !q.maxPrice.Unparsable?
    requires 0 < page <= MaxInt64 && 0 < pageSize <= MaxInt64
    requires q.page == FormatInt(page) && q.pageSize == FormatInt(pageSize)
    ensures SearchParamsOf(q) == Accept(Params(q.name, q.category, PriceOf(q.minPrice), PriceOf(q.maxPrice),
                                               q.orderBy, q.sort, page, pageSize))
  {
    CoerceKeepsPositive(page, 1);
    CoerceKeepsPositive(pageSize, 10);
  }

  /** The search handler overwrites the fields of its parameter record one at
      a time, returning early at the first parameter that does not parse. */
  method NormalizeSearchQuery(q: SearchQuery) returns (r: Checked<Params>)
    ensures r == SearchParamsOf(q)
  {
    var params := Params(q.name, q.category, 0, 0, q.orderBy, q.sort, 0, 0);
    if !q.minPrice.Absent? {
      if q.minPrice.Unparsable? {
        return Reject("Invalid min_price");
      }
      params := params.(minPrice := q.minPrice.cents);
    }
    if !q.maxPrice.Absent? {
      if q.maxPrice.Unparsable? {
        return Reject("Invalid max_price");
      }
      params := params.(maxPrice := q.maxPrice.cents);
    }
    if q.page != "" {
      var page := ParseInt(q.page);
      if page.None? {
        return Reject("Invalid page");
      }
      params := params.(page := page.value);
    }
    if params.page <= 0 {
      params := params.(page := 1);
    }
    if q.pageSize != "" {
      var pageSize := ParseInt(q.pageSize);
      if pageSize.None? {
        return Reject("Invalid page_size");
      }
      params := params.(pageSize := pageSize.value);
    }
    if params.pageSize <= 0 {
      params := params.(pageSize := 10);
    }
    r := Accept(params);
  }

  /** The number of pages, computed without overflow. */
  function TotalPages(totalCount: int, pageSize: int): (n: int)
    requires totalCount >= 0 && pageSize >= 1
    ensures n >= 0
  {
    (totalCount + pageSize - 1) / pageSize
  }

  /** The page count is the ceiling of `totalCount / pageSize`: the fewest
      pages of `pageSize` rows that hold every row. */
  lemma TotalPagesIsCeiling(totalCount: int, pageSize: int)
    requires totalCount >= 0 && pageSize >= 1
    ensures var n := TotalPages(totalCount, pageSize);
      (n - 1) * pageSize < totalCount <= n * pageSize
  {
    var n := TotalPages(totalCount, pageSize);
    var m := totalCount + pageSize - 1;
    assert m == n * pageSize + m % pageSize;
  }

  /** No rows, no pages. */
  lemma NoRowsNoPages(pageSize: int)
    requires pageSize >= 1
    ensures TotalPages(0, pageSize) == 0
  {
  }

  /** `(totalCount + params.PageSize - 1) / params.PageSize` in Go's 64-bit
      `int`: the sum wraps, and the division truncates. */
  function TotalPagesAsWritten(totalCount: int, pageSize: int): (n: int)
    requires pageSize >= 1
    ensures pageSize == 1 && InInt64(totalCount) ==> n == totalCount
  {
    Quo(Wrap(Wrap(totalCount + pageSize) - 1), pageSize)
  }

  /** Where nothing overflows, the expression in the handler is the ceiling. */
  lemma TotalPagesAsWrittenAgrees(totalCount: int, pageSize: int)
    requires totalCount >= 0 && pageSize >= 1
    requires totalCount + pageSize <= MaxInt64
    ensures TotalPagesAsWritten(totalCount, pageSize) == TotalPages(totalCount, pageSize)
  {
  }

  /** A `page_size` of the largest 64-bit value with two matching rows: the
      sum wraps to a negative number and the handler reports -1 pages where
      there is one. */
  lemma TotalPagesOverflow()
    ensures TotalPagesAsWritten(2, MaxInt64) == -1
    ensures TotalPages(2, MaxInt64) == 1
  {
    assert Wrap(2 + MaxInt64) == MinInt64 + 1;
    assert Wrap(MinInt64 + 1 - 1) == MinInt64;
  }

  /** The next-page link, as the parameters it carries. The order and the
      direction are the ones the request gave, before the store's defaults. */
  datatype Locator = Locator(
    page: int,
    pageSize: int,
    name: string,
    category: string,
    minPrice: int,
    maxPrice: int,
    orderBy: string,
    sort: string)

  function NextPage(params: Params, totalPages: int): (r: Option<Locator>)
    ensures r.Some? <==> params.page < totalPages
    ensures r.Some? ==> r.value == Locator(params.page + 1, params.pageSize, params.name, params.category,
                                           params.minPrice, params.maxPrice, params.orderBy, params.sort)
  {
    if params.page < totalPages
    then Some(Locator(params.page + 1, params.pageSize, params.name, params.category,
                      params.minPrice, params.maxPrice, params.orderBy, params.sort))
    else None
  }

  /** Scaling both sides of `a <= b` by a non-negative factor. */
  lemma MulMonotone(a: int, b: int, c: int)
    requires a <= b && c >= 0
    ensures a * c <= b * c
  {
    assert b * c - a * c == (b - a) * c;
  }

  /** A link to the next page is given exactly when rows remain after this page. */
  lemma NextPageIffMoreRows(params: Params, totalCount: int)
    requires params.page >= 1 && params.pageSize >= 1 && totalCount >= 0
    ensures NextPage(params, TotalPages(totalCount, params.pageSize)).Some? <==> params.page * params.pageSize < totalCount
  {
    var n := TotalPages(totalCount, params.pageSize);
    TotalPagesIsCeiling(totalCount, params.pageSize);
    if params.page < n {
      MulMonotone(params.page, n - 1, params.pageSize);
    } else {
      MulMonotone(n, params.page, params.pageSize);
    }
  }

  /** The body of a successful search. */
  datatype SearchResponse = SearchResponse(
    products: seq<Product>,
    page: int,
    pageSize: int,
    totalCount: int,
    totalPages: int,
    next: Option<Locator>)

  /** The reply to a search: a 500 when it failed, without any paging; else
      the page, the coerced page and page size, the count, and the link. */
  function SearchReply(params: Params, outcome: SearchResult): (r: Response<SearchResponse>)
    requires params.pageSize >= 1 && outcome.totalCount >= 0
    ensures outcome.err.Some? ==> r == Failure(outcome.err.value)
    ensures outcome.err.None? ==>
      && r.Success? && r.status == 200
      && r.body.products == outcome.products
      && r.body.page == params.page && r.body.pageSize == params.pageSize
      && r.body.totalCount == outcome.totalCount
      && r.body.totalPages == TotalPages(outcome.totalCount, params.pageSize)
      && r.body.next == NextPage(params, r.body.totalPages)
  {
    if outcome.err.Some? then Failure(outcome.err.value)
    else
      var totalPages := TotalPages(outcome.totalCount, params.pageSize);
      Success(200, SearchResponse(outcome.products, params.page, params.pageSize, outcome.totalCount,
                                  totalPages, NextPage(params, totalPages)))
  }

  /** The page the locator names starts right after this page. */
  lemma NextPageOffset(params: Params)
    ensures var next := params.(page := params.page + 1);
      && next.page == params.page + 1 && next.pageSize == params.pageSize
      && Offset(next.page, next.pageSize) == params.page * params.pageSize
  {
  }

  /** Following the link of a search reply yields a non-empty page; a reply
      without a link is the last page, and the next one would be empty. */
  lemma LinkLeadsToRows(ps: seq<Product>, cs: seq<Category>, params: Params)
    requires params.page >= 1 && params.pageSize >= 1
    requires SearchOutcome(ps, cs, params, None).err.None?
    ensures var reply := SearchReply(params, SearchOutcome(ps, cs, params, None));
      reply.body.next.Some? <==> SearchOutcome(ps, cs, params.(page := params.page + 1), None).products != []
  {
    var next := params.(page := params.page + 1);
    NextPageOffset(params);
    OtherPageNonEmptyIff(ps, cs, params, next);
    NextPageIffMoreRows(params, SearchOutcome(ps, cs, params, None).totalCount);
  }

  /** The handlers, over the service they call. */
  class ProductHandler {
    const service: ProductService

    ghost predicate Valid()
      reads this, service, service.cache, service.db
    {
      service.Valid()
    }

    constructor (service: ProductService)
      requires service.Valid()
      ensures Valid() && this.service == service
    {
      this.service := service;
    }

    /** `GetProductInfo`: the id guard, then the cache-aside lookup. */
    method GetProductInfo(idText: string, cacheFault: Option<string>, dbFault: Option<string>) returns (r: Response<Product>)
      modifies service.db`lookups, service`pendingWrites
      ensures var check := CheckId(idText, ProductId);
        && (check.Reject? ==>
              && r == BadRequest(check.message)
              && service.db.lookups == old(service.db.lookups) && service.pendingWrites == old(service.pendingWrites))
        && (check.Accept? ==>
              var served := Served(service.cache.entries, service.cache.now, service.db.products, check.value, cacheFault, dbFault);
              var cached := Redis.ProductFromRedis(service.cache.entries, service.cache.now, check.value, cacheFault);
              var missed := cached.Ok? && cached.value.id <= 0;
              && r == Reply(served, 200)
              && service.db.lookups == (if missed then old(service.db.lookups) + 1 else old(service.db.lookups))
              && service.pendingWrites == if missed && served.Ok? then old(service.pendingWrites) + [served.value]
                                          else old(service.pendingWrites))
    {
      var check := CheckId(idText, ProductId);
      if check.Reject? {
        return BadRequest(check.message);
      }
      var product := service.GetProductById(check.value, cacheFault, dbFault);
      r := Reply(product, 200);
    }

    method GetProductCategoryById(idText: string, fault: Option<string>) returns (r: Response<Category>)
      modifies service.db`lookups
      ensures var check := CheckId(idText, CategoryId);
        && (check.Reject? ==> r == BadRequest(check.message) && service.db.lookups == old(service.db.lookups))
        && (check.Accept? ==> r == Reply(FindCategory(service.db.categories, check.value, fault), 200))
    {
      var check := CheckId(idText, CategoryId);
      if check.Reject? {
        return BadRequest(check.message);
      }
      var category := service.GetProductCategoryById(check.value, fault);
      r := Reply(category, 200);
    }

    /** `CreateNewProduct`: a body that does not bind is a 400; otherwise the
        reply is the caller's product carrying the id the insert assigned. */
    method CreateNewProduct(body: Body<Product>, fault: Option<string>) returns (r: Response<Product>)
      requires Valid()
      modifies service.db`products, service.db`productSeq
      ensures Valid()
      ensures body.Unbound? ==>
        && r == BadRequest(body.message)
        && service.db.products == old(service.db.products) && service.db.productSeq == old(service.db.productSeq)
      ensures body.Bound? ==>
        var out := ProductInsertOutcome(old(service.db.products), service.db.categories, old(service.db.productSeq), body.value, fault);
        && r == (if out.Ok? then Success(201, body.value.(id := out.value)) else Failure(out.error))
        && service.db.products == (if out.Ok? then old(service.db.products) + [Columns(body.value).(id := out.value)]
                                   else old(service.db.products))
        && service.db.productSeq == if fault.None? && body.value.id == 0 then old(service.db.productSeq) + 1
                                    else old(service.db.productSeq)
    {
      if body.Unbound? {
        return BadRequest(body.message);
      }
      var product := body.value;
      var id := service.CreateNewProduct(product, fault);
      if id.Err? {
        return Failure(id.error);
      }
      product := product.(id := id.value);
      r := Success(201, product);
    }

    method CreateNewProductCategory(body: Body<Category>, fault: Option<string>) returns (r: Response<Category>)
      requires Valid()
      modifies service.db`categories, service.db`categorySeq
      ensures Valid()
      ensures body.Unbound? ==>
        && r == BadRequest(body.message)
        && service.db.categories == old(service.db.categories) && service.db.categorySeq == old(service.db.categorySeq)
      ensures body.Bound? ==>
        var out := CategoryInsertOutcome(old(service.db.categories), old(service.db.categorySeq), body.value, fault);
        && r == (if out.Ok? then Success(201, body.value.(id := out.value)) else Failure(out.error))
        && service.db.categories == (if out.Ok? then old(service.db.categories) + [Category(out.value, body.value.name)]
                                     else old(service.db.categories))
        && service.db.categorySeq == if fault.None? && body.value.id == 0 then old(service.db.categorySeq) + 1
                                     else old(service.db.categorySeq)
    {
      if body.Unbound? {
        return BadRequest(body.message);
      }
      var category := body.value;
      var id := service.CreateNewProductCategory(category, fault);
      if id.Err? {
        return Failure(id.error);
      }
      category := category.(id := id.value);
      r := Success(201, category);
    }

    /** `EditProduct`: the id guard, then the body; the path id replaces
        whatever id the body carried. */
    method EditProduct(idText: string, body: Body<Product>, fault: Option<string>) returns (r: Response<Product>)
      requires Valid()
      modifies service.db`products
      ensures Valid()
      ensures var check := CheckId(idText, ProductId);
        && (check.Reject? ==> r == BadRequest(check.message) && service.db.products == old(service.db.products))
        && (check.Accept? && body.Unbound? ==> r == BadRequest(body.message) && service.db.products == old(service.db.products))
        && (check.Accept? && body.Bound? ==>
              var product := body.value.(id := check.value);
              var err := UpdateProductError(old(service.db.products), service.db.categories, product, fault);
              && r == (if err.Some? then Failure(err.value) else Success(200, product))
              && service.db.products == if err.Some? then old(service.db.products) else UpdatedProducts(old(service.db.products), product))
    {
      var check := CheckId(idText, ProductId);
      if check.Reject? {
        return BadRequest(check.message);
      }
      if body.Unbound? {
        return BadRequest(body.message);
      }
      var product := body.value.(id := check.value);
      var updated := service.EditProduct(product, fault);
      r := Reply(updated, 200);
    }

    method EditProductCategory(idText: string, body: Body<Category>, fault: Option<string>) returns (r: Response<Category>)
      requires Valid()
      modifies service.db`categories
      ensures Valid()
      ensures var check := CheckId(idText, CategoryId);
        && (check.Reject? ==> r == BadRequest(check.message) && service.db.categories == old(service.db.categories))
        && (check.Accept? && body.Unbound? ==> r == BadRequest(body.message) && service.db.categories == old(service.db.categories))
        && (check.Accept? && body.Bound? ==>
              var category := body.value.(id := check.value);
              var err := UpdateCategoryError(old(service.db.categories), category, fault);
              && r == (if err.Some? then Failure(err.value) else Success(200, category))
              && service.db.categories == if err.Some? then old(service.db.categories) else UpdatedCategories(old(service.db.categories), category))
    {
      var check := CheckId(idText, CategoryId);
      if check.Reject? {
        return BadRequest(check.message);
      }
      if body.Unbound? {
        return BadRequest(body.message);
      }
      var category := body.value.(id := check.value);
      var updated := service.EditProductCategory(category, fault);
      r := Reply(updated, 200);
    }

    method DeleteProductCategory(idText: string, fault: Option<string>) returns (r: Response<string>)
      requires Valid()
      modifies service.db`products, service.db`categories
      ensures Valid()
      ensures var check := CheckId(idText, CategoryId);
        && (check.Reject? ==>
              && r == BadRequest(check.message)
              && service.db.products == old(service.db.products) && service.db.categories == old(service.db.categories))
        && (check.Accept? && fault.Some? ==>
              && r == Failure(Infra(fault.value))
              && service.db.products == old(service.db.products) && service.db.categories == old(service.db.categories))
        && (check.Accept? && fault.None? ==>
              && r == Success(200, "Product category deleted successfully")
              && service.db.categories == WithoutCategory(old(service.db.categories), check.value)
              && service.db.products == WithoutProductsOf(old(service.db.products), check.value))
    {
      var check := CheckId(idText, CategoryId);
      if check.Reject? {
        return BadRequest(check.message);
      }
      var err := service.DeleteProductCategory(check.value, fault);
      if err.Some? {
        return Failure(err.value);
      }
      r := Success(200, "Product category deleted successfully");
    }

    method DeleteProduct(idText: string, fault: Option<string>) returns (r: Response<string>)
      requires Valid()
      modifies service.db`products
      ensures Valid()
      ensures var check := CheckId(idText, ProductId);
        && (check.Reject? ==> r == BadRequest(check.message) && service.db.products == old(service.db.products))
        && (check.Accept? && fault.Some? ==> r == Failure(Infra(fault.value)) && service.db.products == old(service.db.products))
        && (check.Accept? && fault.None? ==>
              && r == Success(200, "Product deleted successfully")
              && service.db.products == WithoutProduct(old(service.db.products), check.value))
    {
      var check := CheckId(idText, ProductId);
      if check.Reject? {
        return BadRequest(check.message);
      }
      var err := service.DeleteProduct(check.value, fault);
      if err.Some? {
        return Failure(err.value);
      }
      r := Success(200, "Product deleted successfully");
    }

    /** `SearchProducts`: normalise the query, search, then page the reply. */
    method SearchProducts(q: SearchQuery, fault: Option<string>) returns (r: Response<SearchResponse>)
      ensures var checked := SearchParamsOf(q);
        && (checked.Reject? ==> r == BadRequest(checked.message))
        && (checked.Accept? ==> r == SearchReply(checked.value, SearchOutcome(service.db.products, service.db.categories, checked.value, fault)))
    {
      var checked := NormalizeSearchQuery(q);
      if checked.Reject? {
        return BadRequest(checked.message);
      }
      var params := checked.value;
      var outcome := service.SearchProducts(params, fault);
      r := SearchReply(params, outcome);
    }
  }
}
