/**
 * The parameter handling of the `/api/contacts` endpoint: the request arguments are
 * normalised and turned, one builder call after another, into a description of the
 * table query (its filters, its order and the inclusive range of rows it returns).
 */
module ContactsQuery {
  import opened Wrappers
  import opened Text

  const TableName: string := "contacts"
  const MaxLimit: int := 50
  const DateColumn: string := "submitted_at"

  /**
   * The parameters of the request the endpoint reads, each `None` when absent;
   * `request.args.get` yields the first value given for a key.
   */
  datatype Args = Args(
    search: Option<string>,
    page: Option<string>,
    limit: Option<string>,
    startDate: Option<string>,
    endDate: Option<string>,
    sortBy: Option<string>,
    sortOrder: Option<string>)

  /** A filter of the table query: `or_` over the three text columns, `gte` and `lte`. */
  datatype Filter = MatchesAny(expression: string) | Gte(column: string, bound: string) | Lte(column: string, bound: string)

  datatype Order = Order(column: string, descending: bool)

  /** The table query, as the builder calls leave it. */
  datatype Query = Query(table: string, filters: seq<Filter>, order: Option<Order>, range: Option<(int, int)>)

  /**
   * `int()` rejected the text of `page` or `limit`. The endpoint then answers status
   * 500 with `{"error": str(e)}`, a message that quotes this text and does not name
   * the parameter.
   */
  datatype ApiError = InvalidInteger(text: string)

  /** `int(request.args.get(key, fallback))` for an integer `fallback`. */
  function IntArg(arg: Option<string>, fallback: int): (r: Result<int, ApiError>)
    ensures arg.None? ==> r == Success(fallback)
    ensures arg.Some? ==> (r.Success? <==> ParseInt(arg.value).Some?)
    ensures arg.Some? && r.Success? ==> r.value == ParseInt(arg.value).value
    ensures r.Failure? ==> r.error == InvalidInteger(arg.value)
  {
    if arg.None? then Success(fallback)
    else match ParseInt(arg.value)
      case Some(n) => Success(n)
      case None => Failure(InvalidInteger(arg.value))
  }

  /** `max(1, page)`. */
  function ClampPage(page: int): (r: int)
    ensures r >= 1
    ensures r == page || (page < 1 && r == 1)
  {
    if page < 1 then 1 else page
  }

  /** `min(50, max(1, limit))`. */
  function ClampLimit(limit: int): (r: int)
    ensures 1 <= r <= MaxLimit
    ensures 1 <= limit <= MaxLimit ==> r == limit
    ensures limit < 1 ==> r == 1
    ensures limit > MaxLimit ==> r == MaxLimit
  {
    if limit < 1 then 1 else if limit > MaxLimit then MaxLimit else limit
  }

  /** `(page - 1) * limit`: how many rows the earlier pages hold. */
  function Offset(page: int, limit: int): (r: int)
    requires page >= 1 && limit >= 1
    ensures r >= 0
  {
    MultiplyMonotone(0, page - 1, limit);
    (page - 1) * limit
  }

  /** The offset is a whole number of pages: `page - 1` of them, with nothing left over. */
  lemma OffsetIsWholePages(page: int, limit: int)
    requires page >= 1 && limit >= 1
    ensures Offset(page, limit) / limit == page - 1 && Offset(page, limit) % limit == 0
  {
    var x := Offset(page, limit);
    var q, r := x / limit, x % limit;
    assert x == q * limit + r && 0 <= r < limit;
    assert (page - 1 - q) * limit == r;
    if page - 1 - q >= 1 {
      MultiplyMonotone(1, page - 1 - q, limit);
    } else if page - 1 - q <= -1 {
      MultiplyMonotone(page - 1 - q, -1, limit);
    }
  }

  /** The inclusive row range `(offset, offset + limit - 1)` passed to `range`. */
  function RowRange(page: int, limit: int): (r: (int, int))
    requires page >= 1 && limit >= 1
    ensures r.0 == Offset(page, limit)
    ensures r.1 - r.0 + 1 == limit
  {
    var offset := Offset(page, limit);
    (offset, offset + limit - 1)
  }

  /** The range as `query.range(offset, offset + limit - 1)` writes it. */
  lemma RowRangeFromOffset(page: int, limit: int)
    requires page >= 1 && limit >= 1
    ensures RowRange(page, limit) == (Offset(page, limit), Offset(page, limit) + limit - 1)
  {
  }

  /** The page after `page` starts on the row after the last row of `page`. */
  lemma ConsecutiveRangesAdjoin(page: int, limit: int)
    requires page >= 1 && limit >= 1
    ensures RowRange(page + 1, limit).0 == RowRange(page, limit).1 + 1
  {
    assert page * limit == (page - 1) * limit + limit;
  }

  /** Row `i` belongs to exactly one page, the one numbered `i / limit + 1`. */
  lemma RowInExactlyOnePage(i: int, page: int, limit: int)
    requires i >= 0 && page >= 1 && limit >= 1
    ensures RowRange(page, limit).0 <= i <= RowRange(page, limit).1 <==> page == i / limit + 1
  {
    var q, r := i / limit, i % limit;
    assert i == q * limit + r && 0 <= r < limit;
    var lo := (page - 1) * limit;
    if page - 1 < q {
      assert lo <= (q - 1) * limit by { MultiplyMonotone(page - 1, q - 1, limit); }
      assert (q - 1) * limit == q * limit - limit;
    } else if page - 1 > q {
      assert (q + 1) * limit <= lo by { MultiplyMonotone(q + 1, page - 1, limit); }
      assert (q + 1) * limit == q * limit + limit;
    }
  }

  lemma MultiplyMonotone(a: int, b: int, c: int)
    requires a <= b && c >= 0
    ensures a * c <= b * c
  {
    assert b * c - a * c == (b - a) * c;
  }

  /** Different pages never share a row. */
  lemma PagesAreDisjoint(page1: int, page2: int, limit: int, i: int)
    requires page1 >= 1 && page2 >= 1 && limit >= 1 && i >= 0
    requires RowRange(page1, limit).0 <= i <= RowRange(page1, limit).1
    requires RowRange(page2, limit).0 <= i <= RowRange(page2, limit).1
    ensures page1 == page2
  {
    RowInExactlyOnePage(i, page1, limit);
    RowInExactlyOnePage(i, page2, limit);
  }

  /** The `or_` expression: the term as a case-insensitive substring of name, e-mail or message. */
  function SearchExpression(term: string): (r: string)
    ensures StartsWith(r, "name.ilike.%")
  {
    "name.ilike.%" + term + "%,email.ilike.%" + term + "%,message.ilike.%" + term + "%"
  }

  /** A date `d` read as the first second of its day (UTC). */
  function DayStart(d: string): (r: string)
    ensures |r| == |d| + 10 && r[..|d|] == d
  {
    d + "T00:00:00Z"
  }

  /** A date `d` read as the last second of its day (UTC). */
  function DayEnd(d: string): (r: string)
    ensures |r| == |d| + 10 && r[..|d|] == d
  {
    d + "T23:59:59Z"
  }

  /** `sort_order.lower() == "desc"`. */
  predicate Descending(sortOrder: string) {
    LowerString(sortOrder) == "desc"
  }

  /** The `or_` filter, present when the stripped search term is non-empty. */
  function SearchFilter(args: Args): (r: seq<Filter>)
    ensures |r| <= 1
  {
    var term := Trim(GetOr(args.search, ""));
    if term != "" then [MatchesAny(SearchExpression(term))] else []
  }

  /** The lower date bound, present when `start_date` is given and non-empty. */
  function StartFilter(args: Args): (r: seq<Filter>)
    ensures |r| <= 1
  {
    var d := GetOr(args.startDate, "");
    if d != "" then [Gte(DateColumn, DayStart(d))] else []
  }

  /** The upper date bound, present when `end_date` is given and non-empty. */
  function EndFilter(args: Args): (r: seq<Filter>)
    ensures |r| <= 1
  {
    var d := GetOr(args.endDate, "");
    if d != "" then [Lte(DateColumn, DayEnd(d))] else []
  }

  /** The filters the endpoint applies, in the order it applies them. */
  function FiltersFor(args: Args): seq<Filter> {
    SearchFilter(args) + StartFilter(args) + EndFilter(args)
  }

  /**
   * What `get_contacts` asks of the table for the arguments `args` when the
   * configured page size is `pageSize`, or the error it answers with.
   */
  function QueryFor(args: Args, pageSize: int): Result<Query, ApiError> {
    match IntArg(args.page, 1)
    case Failure(e) => Failure(e)
    case Success(page) =>
      match IntArg(args.limit, pageSize)
      case Failure(e) => Failure(e)
      case Success(limit) =>
        var order := Order(GetOr(args.sortBy, "submitted_at"), Descending(GetOr(args.sortOrder, "desc")));
        Success(Query(TableName, FiltersFor(args), Some(order), Some(RowRange(ClampPage(page), ClampLimit(limit)))))
  }

  /** `get_contacts`: the query built by successive builder calls. */
  method BuildQuery(args: Args, pageSize: int) returns (r: Result<Query, ApiError>)
    ensures r == QueryFor(args, pageSize)
    ensures r.Success? <==> IntArg(args.page, 1).Success? && IntArg(args.limit, pageSize).Success?
  {
    var searchQuery := Trim(GetOr(args.search, ""));
    var pageArg := IntArg(args.page, 1);
    if pageArg.Failure? {
      return Failure(pageArg.error);
    }
    var page := ClampPage(pageArg.value);
    var limitArg := IntArg(args.limit, pageSize);
    if limitArg.Failure? {
      return Failure(limitArg.error);
    }
    var limit := ClampLimit(limitArg.value);
    var offset := Offset(page, limit);
    var sortBy := GetOr(args.sortBy, "submitted_at");
    var sortOrder := GetOr(args.sortOrder, "desc");

    var startDate := args.startDate;
    var endDate := args.endDate;

    var query := Query(TableName, [], None, None);
    if searchQuery != "" {
      query := query.(filters := query.filters + [MatchesAny(SearchExpression(searchQuery))]);
    }
    assert query.filters == SearchFilter(args);
    if Truthy(startDate) {
      query := query.(filters := query.filters + [Gte(DateColumn, DayStart(startDate.value))]);
    }
    assert query.filters == SearchFilter(args) + StartFilter(args);
    if Truthy(endDate) {
      query := query.(filters := query.filters + [Lte(DateColumn, DayEnd(endDate.value))]);
    }
    assert query.filters == FiltersFor(args);
    query := query.(order := Some(Order(sortBy, Descending(sortOrder))));
    query := query.(range := Some((offset, offset + limit - 1)));
    RowRangeFromOffset(page, limit);
    assert query.range == Some(RowRange(page, limit));
    assert query.table == TableName && query.filters == FiltersFor(args);
    assert query == Query(TableName, FiltersFor(args), Some(Order(sortBy, Descending(sortOrder))), Some(RowRange(page, limit)));
    return Success(query);
  }

  /** The search filter is present exactly when the trimmed term is non-empty, and it is first. */
  lemma SearchFilterIffTerm(args: Args)
    ensures var term := Trim(GetOr(args.search, ""));
            (exists f :: f in FiltersFor(args) && f.MatchesAny?) <==> term != ""
    ensures var term := Trim(GetOr(args.search, ""));
            term != "" ==> FiltersFor(args)[0] == MatchesAny(SearchExpression(term))
  {
    var fs, a, b, c := FiltersFor(args), SearchFilter(args), StartFilter(args), EndFilter(args);
    assert forall f :: f in fs <==> f in a || f in b || f in c;
    var term := Trim(GetOr(args.search, ""));
    if term != "" {
      assert fs[0] == a[0];
    }
  }

  /** A start date `d` becomes the bound `submitted_at >= dT00:00:00Z`, and no other lower bound is set. */
  lemma StartDateBound(args: Args)
    ensures var d := GetOr(args.startDate, "");
            (Gte(DateColumn, DayStart(d)) in FiltersFor(args) <==> d != "")
            && (forall f :: f in FiltersFor(args) && f.Gte? ==> f == Gte(DateColumn, DayStart(d)))
  {
    var fs, a, b, c := FiltersFor(args), SearchFilter(args), StartFilter(args), EndFilter(args);
    assert forall f :: f in fs <==> f in a || f in b || f in c;
  }

  /** An end date `d` becomes the bound `submitted_at <= dT23:59:59Z`, and no other upper bound is set. */
  lemma EndDateBound(args: Args)
    ensures var d := GetOr(args.endDate, "");
            (Lte(DateColumn, DayEnd(d)) in FiltersFor(args) <==> d != "")
            && (forall f :: f in FiltersFor(args) && f.Lte? ==> f == Lte(DateColumn, DayEnd(d)))
  {
    var fs, a, b, c := FiltersFor(args), SearchFilter(args), StartFilter(args), EndFilter(args);
    assert forall f :: f in fs <==> f in a || f in b || f in c;
  }

  /** The order is descending exactly when the lower-cased `sort_order` is `desc`; by default the newest rows come first. */
  lemma SortOrderIsDescendingIff(args: Args, pageSize: int)
    requires QueryFor(args, pageSize).Success?
    ensures var o := QueryFor(args, pageSize).value.order;
            o.Some? && (o.value.descending <==> LowerString(GetOr(args.sortOrder, "desc")) == "desc")
    ensures args.sortBy.None? && args.sortOrder.None? ==>
              QueryFor(args, pageSize).value.order == Some(Order("submitted_at", true))
  {
  }

  /** The endpoint fails exactly when `page` or `limit` is present and not an integer, `page` being read first. */
  lemma ErrorsAreBadIntegers(args: Args, pageSize: int)
    ensures QueryFor(args, pageSize).Failure? <==>
              (args.page.Some? && ParseInt(args.page.value).None?) || (args.limit.Some? && ParseInt(args.limit.value).None?)
    ensures args.page.Some? && ParseInt(args.page.value).None? ==>
              QueryFor(args, pageSize) == Failure(InvalidInteger(args.page.value))
  {
  }

  /** The range always spans between one and fifty rows, starting at a non-negative multiple of the page size. */
  lemma RangeIsOnePage(args: Args, pageSize: int)
    requires QueryFor(args, pageSize).Success?
    ensures var r := QueryFor(args, pageSize).value.range;
            r.Some? && r.value.0 >= 0 && 1 <= r.value.1 - r.value.0 + 1 <= MaxLimit
            && r.value.0 % (r.value.1 - r.value.0 + 1) == 0
  {
    var page := ClampPage(IntArg(args.page, 1).value);
    var limit := ClampLimit(IntArg(args.limit, pageSize).value);
    OffsetIsWholePages(page, limit);
  }

  /** Well-formed `page` and `limit` values within bounds select exactly that page. */
  lemma QueryRange(args: Args, pageSize: int, page: int, limit: int)
    requires args.page.Some? && ParseInt(args.page.value) == Some(page)
    requires args.limit.Some? && ParseInt(args.limit.value) == Some(limit)
    requires page >= 1 && 1 <= limit <= MaxLimit
    ensures QueryFor(args, pageSize).Success?
    ensures QueryFor(args, pageSize).value.range == Some((Offset(page, limit), Offset(page, limit) + limit - 1))
  {
    assert IntArg(args.page, 1) == Success(page);
    assert IntArg(args.limit, pageSize) == Success(limit);
    assert ClampPage(page) == page && ClampLimit(limit) == limit;
  }
}
