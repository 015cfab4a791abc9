/** The product search of the repository, as pure functions over the two
    tables: the inner join, the AND-composed filter, the count taken before
    paging, the ordering, and OFFSET/LIMIT. */
module Search {
  import opened Common
  import opened GoInt
  import opened Models

  /** `SerachProductParameter` as the repository receives it. Prices are in
      cents; a price of 0 means "no bound". */
  datatype Params = Params(
    name: string,
    category: string,
    minPrice: int,
    maxPrice: int,
    orderBy: string,
    sort: string,
    page: int,
    pageSize: int)

  /** One row of `products AS p JOIN product_categories AS pc`. */
  datatype Joined = Joined(p: Product, pc: Category)

  /** The joined rows of one product: one per category row carrying its
      `category_id`, as many times as that category row occurs. */
  function JoinOne(p: Product, cs: seq<Category>): (r: seq<Joined>)
    ensures forall j :: j in r <==> j.p == p && j.pc in cs && j.pc.id == p.categoryId
    ensures forall j :: multiset(r)[j] == if j.p == p && j.pc.id == p.categoryId then multiset(cs)[j.pc] else 0
  {
    if cs == [] then []
    else
      assert cs == [cs[0]] + cs[1..];
      assert forall c :: c in cs <==> c == cs[0] || c in cs[1..];
      (if cs[0].id == p.categoryId then [Joined(p, cs[0])] else []) + JoinOne(p, cs[1..])
  }

  /** `JOIN product_categories AS pc ON p.category_id = pc.id`: a product
      appears once per category carrying its `category_id`, and a product
      whose category is missing does not appear at all. */
  function Join(ps: seq<Product>, cs: seq<Category>): (r: seq<Joined>)
    ensures forall j :: j in r <==> j.p in ps && j.pc in cs && j.pc.id == j.p.categoryId
  {
    if ps == [] then []
    else
      assert forall p :: p in ps <==> p == ps[0] || p in ps[1..];
      JoinOne(ps[0], cs) + Join(ps[1..], cs)
  }

  /** A joined row occurs as often as its product row times its category row:
      the join neither drops nor merges duplicates, which is what the count of
      a search reports. */
  lemma {:induction false} JoinMultiplicity(ps: seq<Product>, cs: seq<Category>)
    ensures forall j :: (multiset(Join(ps, cs))[j] ==
      if j.pc.id == j.p.categoryId then multiset(ps)[j.p] * multiset(cs)[j.pc] else 0)
  {
    if ps == [] {
    } else {
      JoinMultiplicity(ps[1..], cs);
      JoinCount(ps, cs, JoinOne(ps[0], cs), Join(ps[1..], cs));
    }
  }

  /** The count of a joined row is the product of the counts of its two halves. */
  lemma JoinCount(ps: seq<Product>, cs: seq<Category>, head: seq<Joined>, tail: seq<Joined>)
    requires ps != []
    requires forall j :: (multiset(head)[j] ==
      if j.p == ps[0] && j.pc.id == ps[0].categoryId then multiset(cs)[j.pc] else 0)
    requires forall j :: (multiset(tail)[j] ==
      if j.pc.id == j.p.categoryId then multiset(ps[1..])[j.p] * multiset(cs)[j.pc] else 0)
    ensures forall j :: (multiset(head + tail)[j] ==
      if j.pc.id == j.p.categoryId then multiset(ps)[j.p] * multiset(cs)[j.pc] else 0)
  {
    assert ps == [ps[0]] + ps[1..];
    forall j
      ensures multiset(head + tail)[j] ==
        if j.pc.id == j.p.categoryId then multiset(ps)[j.p] * multiset(cs)[j.pc] else 0
    {
      assert multiset(head + tail)[j] == multiset(head)[j] + multiset(tail)[j];
      if j.pc.id == j.p.categoryId {
        var a := if j.p == ps[0] then 1 else 0;
        var m := multiset(ps[1..])[j.p];
        var c := multiset(cs)[j.pc];
        assert multiset(ps)[j.p] == a + m;
        assert multiset(head)[j] == a * c;
        assert multiset(tail)[j] == m * c;
        MulDistributes(a, m, c);
      }
    }
  }

  lemma MulDistributes(a: int, b: int, c: int)
    ensures (a + b) * c == a * c + b * c
  {
  }

  /** ASCII case folding, as ILIKE applies it to plain letters. */
  function Lower(c: char): char {
    if 'A' <= c <= 'Z' then (c as int + 32) as char else c
  }

  function Fold(s: string): (r: string)
    ensures |r| == |s|
    ensures forall i :: 0 <= i < |s| ==> r[i] == Lower(s[i])
  {
    seq(|s|, i requires 0 <= i < |s| => Lower(s[i]))
  }

  predicate OccursAt(needle: string, hay: string, i: int) {
    0 <= i && i + |needle| <= |hay| && hay[i..i + |needle|] == needle
  }

  /** `hay ILIKE '%' || needle || '%'`, for a needle without wildcards. */
  predicate ContainsFold(hay: string, needle: string): (b: bool)
    ensures needle == "" ==> b
    ensures b ==> |needle| <= |hay|
  {
    assert needle == "" ==> OccursAt(Fold(needle), Fold(hay), 0);
    exists i :: 0 <= i <= |hay| && OccursAt(Fold(needle), Fold(hay), i)
  }

  /** Searching for "chair" finds "Office Chair" and not "Table". */
  lemma NameFilterExample()
    ensures ContainsFold("Office Chair", "chair")
    ensures !ContainsFold("Table", "chair")
  {
    assert Fold("Office Chair")[7..12] == "chair";
    assert OccursAt(Fold("chair"), Fold("Office Chair"), 7);
    assert Fold("Table")[0] == 't';
    forall i | OccursAt(Fold("chair"), Fold("Table"), i) ensures false {
    }
  }

  /** One `WHERE` clause of the fetch plan. */
  datatype Condition =
    | NameLike(text: string)    // p.name ILIKE '%text%'
    | CategoryIs(name: string)  // pc.name = name
    | PriceAtLeast(min: int)    // p.price >= min
    | PriceAtMost(max: int)     // p.price <= max

  predicate Holds(c: Condition, j: Joined) {
    match c
    case NameLike(text) => ContainsFold(j.p.name, text)
    case CategoryIs(name) => j.pc.name == name
    case PriceAtLeast(min) => j.p.price >= min
    case PriceAtMost(max) => j.p.price <= max
  }

  /** Chained `Where` calls combine with AND. */
  predicate HoldsAll(conds: seq<Condition>, j: Joined) {
    forall c :: c in conds ==> Holds(c, j)
  }

  /** The search filter stated directly from the parameters: each filter
      applies only when its parameter is set (non-empty, or non-zero). */
  predicate Matches(params: Params, j: Joined): (b: bool)
    ensures params.name == "" && params.category == "" && params.minPrice == 0 && params.maxPrice == 0 ==> b
    ensures b && params.category != "" ==> j.pc.name == params.category
    ensures b && params.minPrice != 0 && params.maxPrice != 0 ==> params.minPrice <= j.p.price <= params.maxPrice
  {
    && (params.name != "" ==> ContainsFold(j.p.name, params.name))
    && (params.category != "" ==> j.pc.name == params.category)
    && (params.minPrice != 0 ==> j.p.price >= params.minPrice)
    && (params.maxPrice != 0 ==> j.p.price <= params.maxPrice)
  }

  function Matching(rows: seq<Joined>, params: Params): (r: seq<Joined>)
    ensures forall j :: j in r <==> j in rows && Matches(params, j)
    ensures forall j :: multiset(r)[j] == if Matches(params, j) then multiset(rows)[j] else 0
  {
    Keep(rows, (j: Joined) => Matches(params, j))
  }

  /** A joined row is in the result set exactly when its category resolves
      and every filter that is set accepts it. */
  lemma MatchingIff(ps: seq<Product>, cs: seq<Category>, params: Params, p: Product, c: Category)
    ensures Joined(p, c) in Matching(Join(ps, cs), params) <==>
      && p in ps && c in cs && c.id == p.categoryId
      && (params.name != "" ==> ContainsFold(p.name, params.name))
      && (params.category != "" ==> c.name == params.category)
      && (params.minPrice != 0 ==> p.price >= params.minPrice)
      && (params.maxPrice != 0 ==> p.price <= params.maxPrice)
  {
  }

  /** A plan whose conditions agree with the parameters on every row keeps
      the same rows as the reference filter. */
  lemma PlanFilterIsMatching(rows: seq<Joined>, conds: seq<Condition>, params: Params)
    requires forall j :: HoldsAll(conds, j) <==> Matches(params, j)
    ensures Keep(rows, (j: Joined) => HoldsAll(conds, j)) == Matching(rows, params)
  {
    KeepAgrees(rows, (j: Joined) => HoldsAll(conds, j), (j: Joined) => Matches(params, j));
  }

  /** `Select("p.id", "p.name", "p.price", "p.description", "p.stock", "p.category_id")`:
      only the product's columns come back. */
  function Select(rows: seq<Joined>): (r: seq<Product>)
    ensures |r| == |rows|
    ensures forall i :: 0 <= i < |r| ==> r[i] == Columns(rows[i].p)
  {
    seq(|rows|, i requires 0 <= i < |rows| => Columns(rows[i].p))
  }

  /** The sortable columns. The ORDER BY text is sent to the database as it
      is; the model accepts a product column, bare or qualified with `p.`. */
  datatype Column = ColId | ColName | ColPrice | ColDescription | ColStock | ColCategoryId

  datatype Direction = Asc | Desc

  /** The product columns a search may be ordered by. */
  const ColumnNames: set<string> := {"id", "name", "price", "description", "stock", "category_id"}

  /** A column name, bare or qualified with the `p.` alias of the products table. */
  function ParseColumn(orderBy: string): (r: Option<Column>)
    ensures r.Some? <==> orderBy in ColumnNames || (|orderBy| > 2 && orderBy[..2] == "p." && orderBy[2..] in ColumnNames)
    ensures |orderBy| > 2 && orderBy[..2] == "p." ==> r == ParseColumnBare(orderBy[2..])
  {
    if |orderBy| > 2 && orderBy[..2] == "p." then
      assert orderBy[1] == orderBy[..2][1] == '.';
      ParseColumnBare(orderBy[2..])
    else ParseColumnBare(orderBy)
  }

  /** The column a bare name denotes. */
  function ParseColumnBare(name: string): (r: Option<Column>)
    ensures r.Some? <==> name in ColumnNames
  {
    match name
    case "id" => Some(ColId)
    case "name" => Some(ColName)
    case "price" => Some(ColPrice)
    case "description" => Some(ColDescription)
    case "stock" => Some(ColStock)
    case "category_id" => Some(ColCategoryId)
    case _ => None
  }

  /** An empty `OrderBy` becomes `p.name`. */
  function OrderByOrDefault(orderBy: string): (r: string)
    ensures r != ""
    ensures orderBy != "" ==> r == orderBy
  {
    if orderBy == "" then "p.name" else orderBy
  }

  /** Any `Sort` other than exactly "asc" or "desc" becomes "asc". */
  function NormalizeSort(sort: string): (r: string)
    ensures r == "asc" || r == "desc"
    ensures sort == "asc" || sort == "desc" ==> r == sort
  {
    if sort != "asc" && sort != "desc" then "asc" else sort
  }

  function DirectionOf(sort: string): (d: Direction)
    ensures d == Desc <==> sort == "desc"
  {
    if sort == "desc" then Desc else Asc
  }

  /** With neither an order nor a direction given, rows come by name, ascending. */
  lemma DefaultOrder(params: Params)
    requires params.orderBy == ""
    requires params.sort != "desc"
    ensures ParseColumn(OrderByOrDefault(params.orderBy)) == Some(ColName)
    ensures DirectionOf(NormalizeSort(params.sort)) == Asc
  {
  }

  /** Code-point lexicographic order on text. */
  predicate LexLeq(a: string, b: string)
    decreases |a|
  {
    |a| == 0 || (|b| > 0 && (a[0] < b[0] || (a[0] == b[0] && LexLeq(a[1..], b[1..]))))
  }

  lemma {:induction false} LexLeqTotal(a: string, b: string)
    ensures LexLeq(a, b) || LexLeq(b, a)
    decreases |a|
  {
    if |a| > 0 && |b| > 0 && a[0] == b[0] {
      LexLeqTotal(a[1..], b[1..]);
    }
  }

  predicate KeyLeq(col: Column, x: Product, y: Product) {
    match col
    case ColId => x.id <= y.id
    case ColName => LexLeq(x.name, y.name)
    case ColPrice => x.price <= y.price
    case ColDescription => LexLeq(x.description, y.description)
    case ColStock => x.stock <= y.stock
    case ColCategoryId => x.categoryId <= y.categoryId
  }

  /** `x` may come before `y` under `ORDER BY col dir`. */
  predicate InOrder(col: Column, dir: Direction, x: Product, y: Product) {
    if dir == Asc then KeyLeq(col, x, y) else KeyLeq(col, y, x)
  }

  lemma InOrderTotal(col: Column, dir: Direction, x: Product, y: Product)
    ensures InOrder(col, dir, x, y) || InOrder(col, dir, y, x)
  {
    if col == ColName {
      LexLeqTotal(x.name, y.name);
    } else if col == ColDescription {
      LexLeqTotal(x.description, y.description);
    }
  }

  ghost predicate Ordered(rows: seq<Product>, col: Column, dir: Direction) {
    forall i :: 0 < i < |rows| ==> InOrder(col, dir, rows[i - 1], rows[i])
  }

  function InsertRow(x: Product, rows: seq<Product>, col: Column, dir: Direction): (r: seq<Product>)
    requires Ordered(rows, col, dir)
    ensures |r| == |rows| + 1
    ensures multiset(r) == multiset(rows) + multiset{x}
    ensures r[0] == x || (|rows| > 0 && r[0] == rows[0])
    ensures Ordered(r, col, dir)
  {
    if rows == [] then [x]
    else if InOrder(col, dir, x, rows[0]) then [x] + rows
    else
      InOrderTotal(col, dir, x, rows[0]);
      assert rows == [rows[0]] + rows[1..];
      [rows[0]] + InsertRow(x, rows[1..], col, dir)
  }

  /** The database's ordering. Rows that tie under the sort key keep their
      table order here; SQL leaves their order unspecified. */
  function SortRows(rows: seq<Product>, col: Column, dir: Direction): (r: seq<Product>)
    ensures |r| == |rows|
    ensures multiset(r) == multiset(rows)
    ensures Ordered(r, col, dir)
  {
    if rows == [] then []
    else
      assert rows == [rows[0]] + rows[1..];
      InsertRow(rows[0], SortRows(rows[1..], col, dir), col, dir)
  }

  /** Where the page starts: gorm renders OFFSET only when it is positive. */
  function Start(offset: int): nat {
    if offset > 0 then offset else 0
  }

  /** `Offset(offset).Limit(limit)` as gorm renders them: OFFSET only when
      positive, LIMIT only when non-negative. */
  function Window<T>(rows: seq<T>, offset: int, limit: int): (r: seq<T>)
    ensures Start(offset) >= |rows| ==> r == []
    ensures limit >= 0 ==> |r| <= limit
    ensures Start(offset) < |rows| && 0 <= limit < |rows| - Start(offset) ==> |r| == limit
    ensures Start(offset) < |rows| && !(0 <= limit < |rows| - Start(offset)) ==> |r| == |rows| - Start(offset)
    ensures forall k :: 0 <= k < |r| ==> Start(offset) + k < |rows| && r[k] == rows[Start(offset) + k]
  {
    var start := Start(offset);
    if start >= |rows| then []
    else if 0 <= limit < |rows| - start then rows[start..start + limit]
    else rows[start..]
  }

  /** `(params.Page - 1) * params.PageSize`, in unbounded arithmetic. */
  function Offset(page: int, pageSize: int): (offset: int)
    ensures page == 1 ==> offset == 0
  {
    (page - 1) * pageSize
  }

  /** The same expression in Go's 64-bit `int`, which wraps around. */
  function OffsetAsWritten(page: int, pageSize: int): (offset: int)
    ensures InInt64(offset)
  {
    Wrap(Wrap(page - 1) * pageSize)
  }

  /** Where the 64-bit product does not overflow, the two agree. */
  lemma OffsetAsWrittenAgrees(page: int, pageSize: int)
    requires InInt64(page - 1) && InInt64((page - 1) * pageSize)
    ensures OffsetAsWritten(page, pageSize) == Offset(page, pageSize)
  {
  }

  /** Page 3 of size 2^62 starts at row 2^63, past any table; in 64-bit
      arithmetic the offset wraps to -2^63, OFFSET is dropped, and the first
      rows are served instead of an empty page. */
  lemma OffsetOverflowServesFirstPage(rows: seq<Product>)
    requires 1 <= |rows| <= 0x4000_0000_0000_0000
    ensures OffsetAsWritten(3, 0x4000_0000_0000_0000) == MinInt64
    ensures Window(rows, OffsetAsWritten(3, 0x4000_0000_0000_0000), 0x4000_0000_0000_0000) == rows
    ensures Window(rows, Offset(3, 0x4000_0000_0000_0000), 0x4000_0000_0000_0000) == []
  {
    assert Wrap(3 - 1) == 2;
    assert Wrap(2 * 0x4000_0000_0000_0000) == MinInt64;
  }

  /** What the repository's search returns: the page, the count, the error. */
  datatype SearchResult = SearchResult(products: seq<Product>, totalCount: int, err: Option<Error>)

  /** The matches as the database orders them before OFFSET and LIMIT: the
      selected columns, sorted by the requested column and direction. */
  function Ranked(ps: seq<Product>, cs: seq<Category>, params: Params): (r: seq<Product>)
    requires ParseColumn(OrderByOrDefault(params.orderBy)).Some?
    ensures |r| == |Matching(Join(ps, cs), params)|
    ensures multiset(r) == multiset(Select(Matching(Join(ps, cs), params)))
    ensures Ordered(r, ParseColumn(OrderByOrDefault(params.orderBy)).value, DirectionOf(NormalizeSort(params.sort)))
  {
    SortRows(Select(Matching(Join(ps, cs), params)), ParseColumn(OrderByOrDefault(params.orderBy)).value,
             DirectionOf(NormalizeSort(params.sort)))
  }

  /** The search, stated over the tables: filter the join, count the matches,
      order them, cut out the page. `fault` is a failure of the database. */
  function SearchOutcome(ps: seq<Product>, cs: seq<Category>, params: Params, fault: Option<string>): (r: SearchResult)
    ensures r.err.Some? ==> r.totalCount == 0 && r.products == []
    ensures fault.Some? ==> r.err == Some(Infra(fault.value))
    ensures fault.None? ==> (r.err.None? <==> ParseColumn(OrderByOrDefault(params.orderBy)).Some?)
    ensures r.err.None? ==> r.totalCount == |Matching(Join(ps, cs), params)|
    ensures r.err.None? && params.pageSize >= 0 ==> |r.products| <= params.pageSize
  {
    if fault.Some? then SearchResult([], 0, Some(Infra(fault.value)))
    else
      var orderBy := OrderByOrDefault(params.orderBy);
      match ParseColumn(orderBy)
      case None => SearchResult([], 0, Some(UnknownColumn(orderBy)))
      case Some(col) =>
        SearchResult(Window(Ranked(ps, cs, params), Offset(params.page, params.pageSize), params.pageSize),
                     |Matching(Join(ps, cs), params)|, None)
  }

  /** Every product on the page is the column data of a row that passes the
      join and every filter. */
  lemma {:induction false} PageRowsMatch(ps: seq<Product>, cs: seq<Category>, params: Params, fault: Option<string>, x: Product)
    requires SearchOutcome(ps, cs, params, fault).err.None?
    requires x in SearchOutcome(ps, cs, params, fault).products
    ensures x.category == ZeroCategory
    ensures exists j :: j in Join(ps, cs) && Matches(params, j) && x == Columns(j.p)
  {
    var ordered := Ranked(ps, cs, params);
    assert SearchOutcome(ps, cs, params, fault).products == Window(ordered, Offset(params.page, params.pageSize), params.pageSize);
    var matching := Matching(Join(ps, cs), params);
    SelectedFrom(matching, ordered, x);
  }

  /** A row of the window of a permutation of `Select(rows)` is the columns of
      one of `rows`. */
  lemma SelectedFrom(rows: seq<Joined>, ordered: seq<Product>, x: Product)
    requires multiset(ordered) == multiset(Select(rows))
    requires x in ordered
    ensures x.category == ZeroCategory
    ensures exists j :: j in rows && x == Columns(j.p)
  {
    var selected := Select(rows);
    assert x in multiset(selected);
    var i :| 0 <= i < |selected| && selected[i] == x;
    assert rows[i] in rows;
  }

  /** The page is ordered by the requested column and direction, after the
      defaults have been applied. */
  lemma PageIsOrdered(ps: seq<Product>, cs: seq<Category>, params: Params, fault: Option<string>)
    requires SearchOutcome(ps, cs, params, fault).err.None?
    ensures Ordered(SearchOutcome(ps, cs, params, fault).products,
                    ParseColumn(OrderByOrDefault(params.orderBy)).value,
                    DirectionOf(NormalizeSort(params.sort)))
  {
    var col := ParseColumn(OrderByOrDefault(params.orderBy)).value;
    var dir := DirectionOf(NormalizeSort(params.sort));
    var ordered := Ranked(ps, cs, params);
    assert SearchOutcome(ps, cs, params, fault).products == Window(ordered, Offset(params.page, params.pageSize), params.pageSize);
    WindowKeepsOrder(ordered, Offset(params.page, params.pageSize), params.pageSize, col, dir);
  }

  /** A run of consecutive rows of an ordered sequence is ordered. */
  lemma WindowKeepsOrder(rows: seq<Product>, offset: int, limit: int, col: Column, dir: Direction)
    requires Ordered(rows, col, dir)
    ensures Ordered(Window(rows, offset, limit), col, dir)
  {
    var page := Window(rows, offset, limit);
    var start := Start(offset);
    forall i | 0 < i < |page| ensures InOrder(col, dir, page[i - 1], page[i]) {
      assert page[i - 1] == rows[start + i - 1] && page[i] == rows[start + i];
    }
  }

  /** The page holds the ordered matches from index `(page-1)*pageSize` on,
      at most `pageSize` of them, and is empty once that index reaches the count. */
  lemma PageBounds(ps: seq<Product>, cs: seq<Category>, params: Params, fault: Option<string>)
    requires SearchOutcome(ps, cs, params, fault).err.None?
    requires params.page >= 1 && params.pageSize >= 1
    ensures var r := SearchOutcome(ps, cs, params, fault);
      var offset := Offset(params.page, params.pageSize);
      && 0 <= offset
      && (offset >= r.totalCount ==> r.products == [])
      && (offset < r.totalCount ==>
            |r.products| == if r.totalCount - offset < params.pageSize then r.totalCount - offset else params.pageSize)
      && (forall k :: 0 <= k < |r.products| ==>
            offset + k < r.totalCount && r.products[k] == Ranked(ps, cs, params)[offset + k])
  {
    var offset := Offset(params.page, params.pageSize);
    OffsetNonNegative(params.page, params.pageSize);
    assert Start(offset) == offset;
    var ordered := Ranked(ps, cs, params);
    assert SearchOutcome(ps, cs, params, fault).products == Window(ordered, offset, params.pageSize);
  }

  lemma OffsetNonNegative(page: int, pageSize: int)
    requires page >= 1 && pageSize >= 1
    ensures Offset(page, pageSize) >= 0
  {
    assert (page - 1) * pageSize >= 0 * pageSize;
  }

  /** The count is taken before ordering and paging: it does not depend on
      the page, the page size, the order column or the direction. */
  lemma CountIgnoresPaging(ps: seq<Product>, cs: seq<Category>, a: Params, b: Params)
    requires a.name == b.name && a.category == b.category
    requires a.minPrice == b.minPrice && a.maxPrice == b.maxPrice
    requires SearchOutcome(ps, cs, a, None).err.None? && SearchOutcome(ps, cs, b, None).err.None?
    ensures SearchOutcome(ps, cs, a, None).totalCount == SearchOutcome(ps, cs, b, None).totalCount
  {
    assert forall j :: Matches(a, j) == Matches(b, j);
    KeepAgrees(Join(ps, cs), (j: Joined) => Matches(a, j), (j: Joined) => Matches(b, j));
  }

  /** A page has rows exactly when its offset falls before the last match. */
  lemma PageNonEmptyIff(ps: seq<Product>, cs: seq<Category>, params: Params)
    requires params.page >= 1 && params.pageSize >= 1
    requires SearchOutcome(ps, cs, params, None).err.None?
    ensures SearchOutcome(ps, cs, params, None).products != []
            <==> Offset(params.page, params.pageSize) < SearchOutcome(ps, cs, params, None).totalCount
  {
    PageBounds(ps, cs, params, None);
  }

  /** Another page of the same search (same filters and order, any page
      and page size) has rows exactly when its offset falls before this
      search's count of matches. */
  lemma OtherPageNonEmptyIff(ps: seq<Product>, cs: seq<Category>, a: Params, b: Params)
    requires a.name == b.name && a.category == b.category
    requires a.minPrice == b.minPrice && a.maxPrice == b.maxPrice && a.orderBy == b.orderBy
    requires b.page >= 1 && b.pageSize >= 1
    requires SearchOutcome(ps, cs, a, None).err.None?
    ensures SearchOutcome(ps, cs, b, None).products != []
            <==> Offset(b.page, b.pageSize) < SearchOutcome(ps, cs, a, None).totalCount
  {
    assert SearchOutcome(ps, cs, b, None).err.None?;
    CountIgnoresPaging(ps, cs, a, b);
    PageNonEmptyIff(ps, cs, b);
  }
}
