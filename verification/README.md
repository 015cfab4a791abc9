# productfc catalog core, modelled in Dafny

`productfc` is a small product catalog service. Its HTTP handlers validate
path ids and search parameters and call a service layer. The service reads
products cache-aside through Redis and sends every write to a PostgreSQL
store. The repository has a Redis adapter and a gorm adapter: the Redis
adapter formats keys and stores JSON with a five-minute TTL, and the gorm
adapter handles point lookups, inserts, updates, deletes (with cascade) and
a filtered, counted, ordered and paged search.

The model follows the program's own layers:

| file | module | models |
|---|---|---|
| `models.dfy` | `Models` | `Product` and `ProductCategory` as datatypes; the key, uniqueness and foreign-key constraints as the predicate `Schema` |
| `redis.dfy` | `Redis` | key formats, the JSON payloads, the keyspace as a map with an expiry clock (`class Cache`) |
| `db.dfy` | `Db` | the two tables with their sequences (`class Database`), the not-found conventions, gorm's zero-field skipping on update, ON DELETE CASCADE |
| `search.dfy` | `Search` | the search as functions: join, filter, count, order, OFFSET/LIMIT |
| `service.dfy` | `Service` | `class ProductService`: cache-aside read, queued backfill, pass-through writes |
| `handler.dfy` | `Handler` | `class ProductHandler`: id guards, body binding, search parameter normalisation, page count and next-page link |
| `decimal.dfy`, `goint.dfy`, `common.dfy` | `Decimal`, `GoInt`, `Common` | `%d` and `strconv.ParseInt`/`Atoi`, Go's 64-bit wrap-around and truncating division, `Result`/`Option` and sequence helpers |

The Redis server, the database and the clock are the fields of the two
classes. Each failure of the database or of Redis is a `fault: Option<string>`
parameter of the operation that meets it. The goroutine that writes a fetched
product back to the cache is a `pendingWrites` queue. `FlushBackfill` carries
out one write from that queue and may fail.

## Model

| member | source | states |
|---|---|---|
| Models.Columns | cmd/product/repository/db.go:84 | a row read back from the products table carries every column of the product and a zero-valued nested category |
| Common.Keep | cmd/product/repository/db.go:87-98 | a filter keeps exactly the elements that satisfy it, each as many times as it was given, and never more than it was given |
| Common.KeepDistinct | models/product.go:4-5 | removing rows never creates a duplicate primary key or name |
| Common.AppendDistinct | models/product.go:4-5 | appending a row with a fresh key keeps keys unique |
| Common.LastIndex | cmd/product/repository/db.go:13 | the index found holds the key, and no later row does; -1 when no row does |
| Decimal.NatDigits | cmd/product/repository/redis.go:20 | `%d` of a natural number is a non-empty digit string with no leading zero |
| Decimal.FormatInt | cmd/product/repository/redis.go:20 | `%d` begins with '-' exactly for negative numbers |
| Decimal.ParseInt | cmd/product/handler/handler.go:30 | a string of digits (leading zeros allowed, "007" is 7) is its value when it fits in 64 bits and refused otherwise; a '+' sign is ignored and a '-' sign negates down to -2^63; the empty text, a bare sign, and any text with a non-digit after the sign are refused |
| Decimal.DigitsOfNatDigits | cmd/product/repository/redis.go:20 | the digits `%d` prints denote the number |
| Decimal.ParseFormatRoundTrip | cmd/product/handler/handler.go:30 | parsing what `%d` printed gives back every 64-bit number |
| Decimal.FormatIntInjective | cmd/product/repository/redis.go:15-16 | distinct numbers print differently |
| GoInt.Wrap | cmd/product/handler/handler.go:281 | a 64-bit result is congruent to the true one modulo 2^64, and equal to it when it fits |
| GoInt.Quo | cmd/product/handler/handler.go:281 | Go's division of a positive divisor rounds toward zero |
| Redis.ProductKeyInjective | cmd/product/repository/redis.go:14-20 | two products never share a cache key |
| Redis.CategoryKeyInjective | cmd/product/repository/redis.go:14-17 | two categories never share a cache key |
| Redis.ProductKey | cmd/product/repository/redis.go:15-20 | a product key is "product:" followed by the id printed with `%d` |
| Redis.CategoryKey | cmd/product/repository/redis.go:36-37 | a category key is "product_category:" followed by the id printed with `%d` |
| Redis.Put | cmd/product/repository/redis.go:58 | a set adds or replaces exactly the one key, holding the payload until now + 300 s, so the key is live right after |
| Redis.KeysNeverCollide | cmd/product/repository/redis.go:15-16 | a product key never equals a category key |
| Redis.ProductKeyCarriesId | cmd/product/repository/redis.go:15-20 | a product key is "product:" followed by text that parses back to the id |
| Redis.DecodeEncodeProduct | cmd/product/repository/redis.go:28-33 | decoding the stored JSON of a product gives the product, nested category included |
| Redis.DecodeEncodeCategory | cmd/product/repository/redis.go:44-49 | decoding the stored JSON of a category gives the category |
| Redis.Get | cmd/product/repository/redis.go:21-27 | a get fails exactly on a fault, reports nil exactly when the key is absent or expired, and otherwise returns the stored text |
| Redis.ProductFromRedis | cmd/product/repository/redis.go:19-34 | a fault is returned as the error; a miss is the zero product with no error; a hit is the decoded payload; an error means a fault or undecodable text |
| Redis.CategoryFromRedis | cmd/product/repository/redis.go:36-50 | a miss is "product category not found"; a fault is not returned but decoding the empty text fails; a hit is the decoded payload |
| Redis.ReadBackWithinTtl | cmd/product/repository/redis.go:19-58 | a product read back less than five minutes after it was set is equal to it |
| Redis.ExpiredAfterTtl | cmd/product/repository/redis.go:58 | five minutes after the set, the read is a miss |
| Redis.PutLeavesOtherKeys | cmd/product/repository/redis.go:52-68 | a set changes no other key |
| Redis.PutProductKeepsKeyed | cmd/product/repository/redis.go:52-58 | after `SetProductById` every product entry still holds the product whose id names its key |
| Redis.PutCategoryKeepsKeyed | cmd/product/repository/redis.go:61-67 | a category set never disturbs a product entry |
| Redis.CachedProductHasRequestedId | cmd/product/repository/redis.go:19-34 | in such a keyspace a cached product has the requested id, or is the zero product of a miss |
| Redis.Cache.constructor | cmd/product/repository/redis.go:14-17 | the keyspace starts empty |
| Redis.Cache.Tick | cmd/product/repository/redis.go:58 | the clock advances and no entry changes |
| Redis.Cache.GetProductByIdFromRedis | cmd/product/repository/redis.go:19-34 | the read is the one `ProductFromRedis` describes; a miss yields id 0 |
| Redis.Cache.GetProductCategoryByIdFromRedis | cmd/product/repository/redis.go:36-50 | the read is the one `CategoryFromRedis` describes; a success needs a live key and no fault |
| Redis.Cache.SetProductById | cmd/product/repository/redis.go:52-59 | without a fault the key `product:<id>` holds the product's JSON until now + 300 s, nothing else changes; a fault changes nothing |
| Redis.Cache.SetProductCategoryById | cmd/product/repository/redis.go:61-68 | the same for `product_category:<id>` |
| Search.JoinOne | cmd/product/repository/db.go:85 | a product pairs with exactly the categories whose id is its `category_id`, each pair as often as that category row occurs |
| Search.Join | cmd/product/repository/db.go:85 | every joined pair is a product of the table with the category it names, and every such product and category pair appears |
| Search.JoinMultiplicity | cmd/product/repository/db.go:85 | a pair occurs in the join as many times as the product occurs times the category occurs, and never when the ids differ |
| Search.Fold | cmd/product/repository/db.go:88 | case folding keeps the length and lowers each character |
| Search.ContainsFold | cmd/product/repository/db.go:88 | an empty pattern matches every name, and a match needs a name at least as long as the pattern |
| Search.Matches | cmd/product/repository/db.go:87-98 | with no filter set every row matches; a match under a category filter has that category's name; a match under both price bounds lies between them |
| Search.NameFilterExample | cmd/product/repository/db.go:88 | "chair" matches "Office Chair" and not "Table" |
| Search.Matching | cmd/product/repository/db.go:87-98 | the filtered rows are exactly the joined rows that every set filter accepts, each as many times as it was joined |
| Search.MatchingIff | cmd/product/repository/db.go:83-98 | a row is in the result set iff its category resolves and each non-empty / non-zero filter accepts it (name ILIKE, category equal, price bounds) |
| Search.PlanFilterIsMatching | cmd/product/repository/db.go:87-98 | a chain of WHERE clauses that agrees with the parameters keeps the same rows as the reference filter |
| Search.Select | cmd/product/repository/db.go:84 | each result row is only the product's columns |
| Search.OrderByOrDefault | cmd/product/repository/db.go:103-105 | an empty order becomes `p.name`; any other is kept |
| Search.NormalizeSort | cmd/product/repository/db.go:107-109 | the direction is "asc" or "desc"; those two are kept, all else becomes "asc" |
| Search.ParseColumn | cmd/product/repository/db.go:112 | the ORDER BY text is accepted exactly when it is one of the six selected columns, bare or after `p.`; `p.x` means the same as `x` |
| Search.ParseColumnBare | cmd/product/repository/db.go:84 | a bare column name is accepted exactly when it is one of the six selected columns |
| Search.DirectionOf | cmd/product/repository/db.go:107-112 | the sort is descending exactly when the normalised direction is "desc" |
| Search.DefaultOrder | cmd/product/repository/db.go:103-112 | with no order and no direction the rows come by name, ascending |
| Search.LexLeqTotal | cmd/product/repository/db.go:112 | any two texts are comparable |
| Search.InOrderTotal | cmd/product/repository/db.go:112 | any two rows are comparable under every sort column and direction |
| Search.InsertRow | cmd/product/repository/db.go:112 | inserting into an ordered sequence keeps it ordered and adds exactly the row |
| Search.SortRows | cmd/product/repository/db.go:112 | the ordering is a permutation of the rows and is ordered by the column and direction |
| Search.Ranked | cmd/product/repository/db.go:83-112 | the ranked rows are a permutation of the selected columns of the matching rows, ordered by the defaulted column and direction |
| Search.Window | cmd/product/repository/db.go:114-115 | the page is the run of rows from the offset (ignored when not positive), at most `limit` of them, empty past the end |
| Search.WindowKeepsOrder | cmd/product/repository/db.go:112-115 | a window of ordered rows is ordered |
| Search.Offset | cmd/product/repository/db.go:114 | the first page starts at offset 0 |
| Search.OffsetAsWritten | cmd/product/repository/db.go:114 | the offset as written is always a 64-bit value |
| Search.OffsetAsWrittenAgrees | cmd/product/repository/db.go:114 | where the 64-bit product fits, the offset as written is `(page-1)*pageSize` |
| Search.OffsetOverflowServesFirstPage | cmd/product/repository/db.go:114-115 | page 3 of size 2^62 wraps the offset to -2^63 and serves the first rows instead of an empty page |
| Search.OffsetNonNegative | cmd/product/repository/db.go:114 | a valid page and size give a non-negative offset |
| Search.SearchOutcome | cmd/product/repository/db.go:80-122 | an error gives no rows and a zero count; success iff the order column is known; the count is the number of matches; a page never exceeds `pageSize` |
| Search.PageRowsMatch | cmd/product/repository/db.go:83-98 | every row on a page is the columns of a joined row that passes every filter |
| Search.PageIsOrdered | cmd/product/repository/db.go:103-112 | the page is ordered by the defaulted column and direction |
| Search.PageBounds | cmd/product/repository/db.go:114-115 | the offset is `(page-1)*pageSize` and not negative; the page holds `min(pageSize, count - offset)` rows, is empty when the offset reaches the count, and its k-th row is the ranked row at offset + k |
| Search.CountIgnoresPaging | cmd/product/repository/db.go:101 | the count depends only on the filters, not on page, size, order or direction |
| Search.PageNonEmptyIff | cmd/product/repository/db.go:114-115 | a page has rows exactly when its offset lies before the count of matches |
| Search.OtherPageNonEmptyIff | cmd/product/repository/db.go:101-115 | any other page of the same search has rows exactly when its offset lies before this search's count |
| Db.FindProduct | cmd/product/repository/db.go:11-18 | a fault is the error; no row with the id is `ErrRecordNotFound`; otherwise the last row with the id |
| Db.FindCategory | cmd/product/repository/db.go:20-30 | a missing id is the zero category with no error; otherwise the last row with the id; a fault is the error |
| Db.FindProductUnique | cmd/product/repository/db.go:13 | with unique keys, the lookup finds the one row with the id |
| Db.UpdatedProducts | cmd/product/repository/db.go:48-54 | rows with the id take the non-zero fields of the update; other rows are unchanged |
| Db.UpdatedCategories | cmd/product/repository/db.go:56-62 | rows with the id take the new name if it is non-empty; ids never change |
| Db.WithoutProduct | cmd/product/repository/db.go:72-78 | the rows left are exactly those without the id |
| Db.WithoutCategory | cmd/product/repository/db.go:64-70 | the categories left are exactly those without the id |
| Db.WithoutProductsOf | models/product.go:15 | the cascade keeps exactly the products of other categories |
| Db.ProductInsertOutcome | cmd/product/repository/db.go:32-38 | a fault is that error; a taken id is refused by `products_pkey`; a fresh id with an unknown category is refused by `fk_products_category`; otherwise the insert succeeds with the assigned id; column widths are not checked |
| Db.CategoryInsertOutcome | cmd/product/repository/db.go:40-46 | a fault is that error; a taken id is refused by `product_categories_pkey`; a fresh id with a used name is refused by `product_categories_name_key`; otherwise the insert succeeds with the assigned id; column widths are not checked |
| Db.AssignedId | cmd/product/repository/db.go:32-38 | an explicit id is kept; a zero id takes the sequence's next value |
| Db.MergeProduct | cmd/product/repository/db.go:49 | the row keeps its id and category; each other column takes the update's value unless that value is zero, which keeps the row's |
| Db.UpdateProductError | cmd/product/repository/db.go:48-54 | a fault is that error; otherwise the update is refused by `fk_products_category` exactly when a row has the id and the new non-zero category does not exist; column widths are not checked |
| Db.UpdateCategoryError | cmd/product/repository/db.go:56-62 | a fault is that error; otherwise the update is refused by `product_categories_name_key` exactly when a row has the id and another category already has the new non-empty name; column widths are not checked |
| Db.FindAfterInsert | cmd/product/repository/db.go:32-37 | a lookup of the id an insert returned finds the inserted row |
| Db.FindCategoryAfterInsert | cmd/product/repository/db.go:40-45 | the same for categories |
| Db.FindAfterUpdate | cmd/product/repository/db.go:48-53 | after an update the lookup finds the merged row |
| Db.MergeIdempotent | cmd/product/repository/db.go:49 | applying the same update twice leaves what applying it once left |
| Db.MergeOfZeroFields | cmd/product/repository/db.go:49 | an update whose fields are all zero changes nothing |
| Db.FindAfterDelete | cmd/product/repository/db.go:72-77 | after a delete the id is not found |
| Db.UpdateKeepsSchema | models/product.go:9-15 | an update that passes its checks keeps unique ids and resolving categories |
| Db.UpdateCategoryKeepsSchema | models/product.go:4-5 | a category update that passes its checks keeps ids and names unique |
| Db.PlanConditionsMatch | cmd/product/repository/db.go:87-98 | the WHERE clauses added one per set parameter hold exactly when the filter does |
| Db.PlanOf | cmd/product/repository/db.go:87-98 | the plan built clause by clause accepts exactly the rows the filter accepts |
| Db.Filter | cmd/product/repository/db.go:87-98 | the rows the plan's WHERE clauses let through are exactly the matches, in the joined order |
| Db.Database.constructor | models/product.go:3-16 | the tables start empty, satisfying the schema |
| Db.Database.FindProductById | cmd/product/repository/db.go:11-18 | the lookup is the one `FindProduct` describes and counts one read |
| Db.Database.FindProductCategoryById | cmd/product/repository/db.go:20-30 | the lookup is the one `FindCategory` describes and counts one read |
| Db.Database.InsertNewProduct | cmd/product/repository/db.go:32-38 | the outcome is `ProductInsertOutcome`; on success the row (its columns, with the id) is appended; on failure the table is unchanged; the schema holds |
| Db.Database.InsertNewProductCategory | cmd/product/repository/db.go:40-46 | the same for categories |
| Db.Database.UpdateProduct | cmd/product/repository/db.go:48-54 | a refused update changes nothing; otherwise the matching rows are merged and the caller's struct is returned, even when no row matched |
| Db.Database.UpdateProductCategory | cmd/product/repository/db.go:56-62 | the same for categories |
| Db.Database.DeleteProduct | cmd/product/repository/db.go:72-78 | the rows with the id are removed; a missing id is not an error |
| Db.Database.DeleteProductCategory | cmd/product/repository/db.go:64-70 | the category and, by cascade, its products are removed; no product then names it |
| Db.Database.SearchProducts | cmd/product/repository/db.go:80-122 | the search returns `SearchOutcome` of the tables |
| Service.Served | cmd/product/service/service.go:18-42 | a cache error is returned as is; a cached product with a positive id is returned; a miss (id 0) goes to the store, whose answer is returned; a live entry that does not decode is an invalid-JSON error |
| Service.ServedHasRequestedId | cmd/product/service/service.go:18-42 | the product served always has the requested id |
| Service.BackfillServesUntilExpiry | cmd/product/service/service.go:35-41 | once the backfill is written, reads within five minutes return that product whatever the store then holds |
| Service.BackfillExpires | cmd/product/service/service.go:20-30 | after five minutes the store is read again |
| Service.ProductService.constructor | cmd/product/service/service.go:14-16 | the service starts with no pending cache writes |
| Service.ProductService.GetProductById | cmd/product/service/service.go:18-42 | a cache error or a cached id > 0 is returned with no store read and nothing queued; otherwise one store read, its result returned, and exactly that row queued on success |
| Service.ProductService.FlushBackfill | cmd/product/service/service.go:36-40 | the oldest queued product is written under its key with a fresh TTL; a failed write changes no entry; the entry is dropped either way |
| Service.ProductService.GetProductCategoryById | cmd/product/service/service.go:44-50 | the store's answer, with the cache neither read nor written |
| Service.ProductService.CreateNewProduct | cmd/product/service/service.go:52-58 | the store inserts; the product sequence advances on every fault-free insert with a zero id, even one a constraint refuses, since a sequence is not rolled back; cache and queue are untouched |
| Service.ProductService.CreateNewProductCategory | cmd/product/service/service.go:60-66 | the store inserts; the category sequence advances on every fault-free insert with a zero id, even one a constraint refuses, since a sequence is not rolled back; cache and queue are untouched |
| Service.ProductService.EditProduct | cmd/product/service/service.go:68-74 | the store row changes; a cached copy does not |
| Service.ProductService.EditProductCategory | cmd/product/service/service.go:76-82 | the store row changes; the cache does not |
| Service.ProductService.DeleteProductCategory | cmd/product/service/service.go:84-90 | the store deletes with cascade; the cache does not change |
| Service.ProductService.DeleteProduct | cmd/product/service/service.go:92-98 | the store deletes; a cached copy stays |
| Service.ProductService.SearchProducts | cmd/product/service/service.go:100-106 | the result is the store's search, with no rows and a zero count on error |
| Handler.CheckId | cmd/product/handler/handler.go:30-41 | an id is accepted iff it parses as a 64-bit integer and is positive; the two refusals carry "Invalid … id" and "… id must be positive" |
| Handler.CheckIdAcceptsPrinted | cmd/product/handler/handler.go:54-65 | every positive 64-bit id written in decimal is accepted as itself |
| Handler.CheckIdRefusesPrintedNonPositive | cmd/product/handler/handler.go:61-65 | zero and negative ids are refused as not positive |
| Handler.Reply | cmd/product/handler/handler.go:43-49 | an error of the layer below is a 500 with that error; a value is the success body |
| Handler.Coerce | cmd/product/handler/handler.go:251-273 | the page or page size is in 1..2^63-1; missing or ≤ 0 gives the default |
| Handler.CoerceKeepsPositive | cmd/product/handler/handler.go:251-261 | a positive value is kept |
| Handler.CoerceNonPositiveIsOmitted | cmd/product/handler/handler.go:259-273 | zero or a negative value behaves as if the parameter were left out |
| Handler.SearchParamsOf | cmd/product/handler/handler.go:222-273 | a 400 exactly when a price, the page or the page size does not parse, reported in that order (with valid prices, an unparsable page is "Invalid page"); otherwise the filters pass through and page and size are `Coerce` of the texts (1 and 10 by default) |
| Handler.SearchParamsKeepQuery | cmd/product/handler/handler.go:247-273 | a query with valid prices and a positive page and size written in decimal is accepted with exactly those values |
| Handler.NormalizeSearchQuery | cmd/product/handler/handler.go:223-273 | the fields overwritten one at a time give `SearchParamsOf` of the query |
| Handler.TotalPages | cmd/product/handler/handler.go:281 | the page count is never negative |
| Handler.TotalPagesIsCeiling | cmd/product/handler/handler.go:281 | the page count is the ceiling of count / page size |
| Handler.NoRowsNoPages | cmd/product/handler/handler.go:281 | no rows give zero pages |
| Handler.TotalPagesAsWrittenAgrees | cmd/product/handler/handler.go:281 | where the sum fits in 64 bits, the expression as written is the ceiling |
| Handler.TotalPagesAsWritten | cmd/product/handler/handler.go:281 | as written, a page size of 1 gives as many pages as rows |
| Handler.TotalPagesOverflow | cmd/product/handler/handler.go:281 | a page size of 2^63-1 with two rows gives -1 pages as written, 1 page corrected |
| Handler.NextPage | cmd/product/handler/handler.go:282-286 | a link exists iff page < totalPages, and carries page+1, the page size, the filters, and the order and direction as given |
| Handler.NextPageIffMoreRows | cmd/product/handler/handler.go:281-286 | the link is given exactly when rows remain after the current page |
| Handler.SearchReply | cmd/product/handler/handler.go:275-295 | an error skips paging and is a 500; otherwise the body echoes the coerced page and size and the count, with the page count and link |
| Handler.LinkLeadsToRows | cmd/product/handler/handler.go:281-286 | following the link gives a non-empty page; without a link the next page would be empty |
| Handler.ProductHandler.constructor | cmd/product/handler/handler.go:18-20 | the handler wraps a valid service |
| Handler.ProductHandler.GetProductInfo | cmd/product/handler/handler.go:28-50 | a refused id is a 400 with no store read and nothing queued; otherwise the reply is `Served`, the store is read once exactly on a cache miss, and the product read is queued exactly when the miss found it |
| Handler.ProductHandler.GetProductCategoryById | cmd/product/handler/handler.go:52-74 | a refused id is a 400 with no store read; otherwise the store's category |
| Handler.ProductHandler.CreateNewProduct | cmd/product/handler/handler.go:76-91 | an unbound body is a 400 with no table or sequence change; otherwise 201 with the caller's product carrying the assigned id and the row appended, or 500 with the table unchanged; the sequence advances as the insert says |
| Handler.ProductHandler.CreateNewProductCategory | cmd/product/handler/handler.go:93-108 | the same for categories, with the category row and the category sequence |
| Handler.ProductHandler.EditProduct | cmd/product/handler/handler.go:110-140 | id guard, then body; the path id replaces the body's id; the reply and the table are the update's |
| Handler.ProductHandler.EditProductCategory | cmd/product/handler/handler.go:142-172 | the same for categories |
| Handler.ProductHandler.DeleteProductCategory | cmd/product/handler/handler.go:174-196 | a refused id is a 400 and changes nothing; a fault is a 500 and changes nothing; otherwise the category and its products are removed and the reply is the fixed message |
| Handler.ProductHandler.DeleteProduct | cmd/product/handler/handler.go:198-220 | a refused id is a 400 and changes nothing; a fault is a 500 and changes nothing; otherwise the rows with the id are removed and the reply is the fixed message |
| Handler.ProductHandler.SearchProducts | cmd/product/handler/handler.go:222-296 | a bad parameter is its 400; otherwise the paged reply to the store's search |

## Left out

- JSON is not modelled. A payload is the product or category it encodes, or text that does not decode. Decoding one record's JSON as the other keeps only `id` and `name`. The source's price is a `float64`, and `json.Marshal` fails on NaN or an infinity. The model's integer prices cannot hold those values, so the "failed to marshal" branches of redis.go:55-57 and redis.go:64-66 are not modelled.
- Prices are integers (cents) instead of `float64`. `strconv.ParseFloat` and the `%f` formatting of the next-page link are not modelled. A price parameter is missing, unparsable, or a number. The link is a record of the parameters it carries, not a formatted URL. The request path is omitted.
- The ORDER BY text is interpolated into the SQL. The model accepts the six selected columns, bare or with `p.`. Any other text is a database error (`UnknownColumn`). Expressions, other tables and several sort keys are not modelled.
- Search.SortRows: ties under the sort key keep table order. SQL leaves their order unspecified. The model is therefore one of the permitted orders, not all of them.
- The ILIKE filter is modelled as ASCII case-insensitive substring search. `%` and `_` in the name filter are taken literally, not as wildcards.
- Search.SearchOutcome: computes the offset and the page count with unbounded integers, which is the corrected behaviour. Go's 64-bit wrap-around of db.go:114 is modelled only by `Search.OffsetAsWritten` (see Findings).
- Db.Database.SearchProducts: returns `SearchOutcome`, so it uses the same unbounded offset, not the 64-bit one of db.go:114.
- Handler.SearchReply: computes the page count with `TotalPages`, the unbounded ceiling. Go's 64-bit overflow of handler.go:281 is modelled only by `Handler.TotalPagesAsWritten` (see Findings).
- Handler.ProductHandler.SearchProducts: builds its reply with `SearchReply`, so its offset and page count are the unbounded ones, not the 64-bit ones of the source.
- Search.LexLeq and Search.KeyLeq: compare text by code point. PostgreSQL orders text by the database collation, which may differ, for example in how case and accents sort.
- Goroutines and `context.Background()` are not modelled. The backfill is a queue of writes that `FlushBackfill` carries out in order. Races between concurrent misses are not modelled.
- Logging and HTTP rendering are not modelled. A reply is its status class and body, not bytes.
- Faults are parameters. One `fault` per database call stands for every failure it can meet. The count query's own error (db.go:101) is not separated from the fetch error.
- gorm's association saving is left out. A non-zero nested `category` in a create or update body is not written to the categories table. Only the product's columns are stored.
- Constraint checks run in the order primary key, foreign key, unique name. A NOT NULL column cannot be violated, because Go values are never NULL.
- Db.ProductInsertOutcome: the `varchar(255)` name and the 32-bit `integer` stock and category_id columns (models/product.go:10-15) are not modelled. The database refuses a longer name or an out-of-range number, and the model accepts them as a successful insert.
- Db.CategoryInsertOutcome: the `varchar(255)` name column (models/product.go:5) is not modelled. The database refuses a longer name, and the model accepts it.
- Db.UpdateProductError: the same column limits are not modelled. An update that writes a longer name or an out-of-range stock or category_id is refused by the database and accepted by the model.
- Db.UpdateCategoryError: the `varchar(255)` limit is not modelled. An update to a longer name is refused by the database and accepted by the model.
- These four limits also reach the database, service and handler methods that insert or update rows. The schema has no CHECK constraint, so a negative price or stock and an empty name are stored as given, in the source as in the model.
- The usecase layer (cmd/product/usecase/usecase.go) only forwards calls. Its copy of the inserted id into the caller's struct (usecase.go:40,50) is part of the create handlers' contract.
- Routing, authentication middleware, configuration and the migration in main.go and routes/routes.go are not part of this model.
- Redis and the database are single stores with no replication. The store's lookup counter is a ghost field that exists only to state that a read did not happen.

## Findings

| source | as written | input that shows it | evidently intended | confidence | as-written member | corrected member |
|---|---|---|---|---|---|---|
| cmd/product/handler/handler.go:281 | `(totalCount + params.PageSize - 1) / params.PageSize` in 64-bit `int` overflows for large page sizes | `page_size=9223372036854775807` with two matching rows gives `totalPages = -1` | the ceiling of count / page size (1 here) | not executed | Handler.TotalPagesOverflow | Handler.TotalPagesIsCeiling |
| cmd/product/repository/db.go:114 | `(params.Page - 1) * params.PageSize` in 64-bit `int` wraps; gorm then drops the negative OFFSET | `page=3&page_size=4611686018427387904` gives offset -2^63, and the first rows are returned | an empty page past the end of the results | not executed | Search.OffsetOverflowServesFirstPage | Search.PageBounds |
