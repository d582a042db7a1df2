/**
 * The infinite-scroll table of the client script: the module-level state
 * `currentPage`, `isLoading` and `hasMore`, the table body the loaded contacts are
 * appended to, and the transitions `loadContacts` and `resetAndLoad` make.
 *
 * `loadContacts` is asynchronous: it claims the loader and issues the request
 * synchronously, and finishes when the response (or the failure) arrives. The model
 * splits it there: `BeginLoad` is the part up to `fetch`, `FinishLoad` the rest,
 * `finally` included. The fetched response is an input of `FinishLoad`.
 */
module Pagination {
  import opened Wrappers
  import opened Text
  import opened HtmlEscape
  import opened Highlight
  import opened Truncate
  import opened ClientFilters
  import ContactsQuery

  /** `const limit = 10`. */
  const Limit: int := 10

  /** A contact as the server returns it; fields may be `null`. */
  datatype Contact = Contact(name: Option<string>, email: Option<string>, message: Option<string>, submittedAt: Option<string>)

  /**
   * A row of the table body: a contact with the markup of its cells, the single
   * "no contacts found" row, or the single "failed to load" row.
   */
  datatype Row =
    | ContactRow(name: string, email: string, title: string, message: string, submittedAt: Option<string>)
    | NoResultsRow
    | ErrorRow

  /**
   * What the awaited part of `loadContacts` gets: a failure (the request failed, the
   * status was not OK or the body was not JSON), or the response's `data`, `None`
   * where it is missing or `null`.
   */
  datatype FetchOutcome = Failed | Fetched(data: Option<seq<Contact>>)

  /** The parameters of the request `loadContacts` sends. */
  datatype Request = Request(page: int, limit: int, filters: Filters)

  /** A snapshot of the client state. */
  datatype View = View(currentPage: int, isLoading: bool, hasMore: bool, rows: seq<Row>)

  /** `response.data || []`. */
  function DataOf(d: Option<seq<Contact>>): (r: seq<Contact>)
    ensures d.Some? ==> r == d.value
    ensures d.None? ==> r == []
  {
    if d.Some? then d.value else []
  }

  /** The row the `forEach` callback builds for one contact, `search` being the trimmed search term. */
  function ContactRowFor(item: Contact, search: string): (r: Row)
    ensures r.ContactRow?
  {
    ContactRow(
      HighlightMatch(item.name, Some(search)),
      HighlightMatch(item.email, Some(search)),
      EscapeHtml(Some(if Truthy(item.message) then item.message.value else "")),
      HighlightMatch(Some(TruncateMessage(item.message, DefaultLength)), Some(search)),
      item.submittedAt)
  }

  /**
   * Each cell holds its field: with the highlighting marks removed, the name, the
   * e-mail and the (truncated) message cells are the escaped field values, and the
   * tooltip is the whole escaped message.
   */
  lemma RowShowsContact(item: Contact, search: string)
    ensures var r := ContactRowFor(item, search);
            && StripMarks(r.name) == EscapeHtml(item.name)
            && StripMarks(r.email) == EscapeHtml(item.email)
            && StripMarks(r.message) == EscapeHtml(Some(TruncateMessage(item.message, DefaultLength)))
            && r.title == EscapeHtml(item.message)
  {
    StripHighlight(item.name, Some(search));
    StripHighlight(item.email, Some(search));
    StripHighlight(Some(TruncateMessage(item.message, DefaultLength)), Some(search));
  }

  /** The row built with the corrected highlighter instead. */
  function CorrectedRowFor(item: Contact, search: string): (r: Row)
    ensures r.ContactRow?
  {
    ContactRow(
      HighlightMatchFixed(item.name, Some(search)),
      HighlightMatchFixed(item.email, Some(search)),
      EscapeHtml(Some(if Truthy(item.message) then item.message.value else "")),
      HighlightMatchFixed(Some(TruncateMessage(item.message, DefaultLength)), Some(search)),
      item.submittedAt)
  }

  /** The text a possibly missing field shows: nothing when it is falsy. */
  function Shown(v: Option<string>): (r: string)
    ensures Truthy(v) ==> r == v.value
    ensures !Truthy(v) ==> r == ""
  {
    if Truthy(v) then v.value else ""
  }

  /**
   * With the corrected highlighter each cell displays exactly its field: the name,
   * the e-mail and the truncated message, and with the marks removed each is the
   * escaped field, as in the row the script builds.
   */
  lemma CorrectedRowShowsContact(item: Contact, search: string)
    ensures var r := CorrectedRowFor(item, search);
            && Render(r.name) == Shown(item.name)
            && Render(r.email) == Shown(item.email)
            && Render(r.message) == TruncateMessage(item.message, DefaultLength)
            && StripMarks(r.name) == EscapeHtml(item.name)
            && StripMarks(r.email) == EscapeHtml(item.email)
            && StripMarks(r.message) == EscapeHtml(Some(TruncateMessage(item.message, DefaultLength)))
            && r.title == EscapeHtml(item.message)
  {
    HighlightFixedShowsText(item.name, Some(search));
    HighlightFixedShowsText(item.email, Some(search));
    HighlightFixedShowsText(Some(TruncateMessage(item.message, DefaultLength)), Some(search));
  }

  /** The rows for a page of contacts, one per contact and in the same order. */
  function RowsFor(data: seq<Contact>, search: string): (rs: seq<Row>)
    ensures |rs| == |data|
    ensures forall k :: 0 <= k < |data| ==> rs[k] == ContactRowFor(data[k], search)
  {
    if data == [] then [] else [ContactRowFor(data[0], search)] + RowsFor(data[1..], search)
  }

  /** The `forEach` loop filling the document fragment: one row per contact, in order. */
  method BuildRows(data: seq<Contact>, search: string) returns (fragment: seq<Row>)
    ensures fragment == RowsFor(data, search)
  {
    fragment := [];
    var i := 0;
    while i < |data|
      invariant 0 <= i <= |data|
      invariant |fragment| == i
      invariant forall k :: 0 <= k < i ==> fragment[k] == ContactRowFor(data[k], search)
    {
      fragment := fragment + [ContactRowFor(data[i], search)];
      i := i + 1;
    }
  }

  /** The state when the script is loaded. */
  function Initial(): View {
    View(1, false, true, [])
  }

  /** The guard of `loadContacts`: it does nothing while a load runs or after the last page. */
  predicate CanLoad(v: View) {
    !v.isLoading && v.hasMore
  }

  /** The request `loadContacts` sends, if it sends one. */
  function RequestFor(v: View, filters: Filters): (r: Option<Request>)
    ensures r.Some? <==> CanLoad(v)
    ensures r.Some? ==> r.value.page == v.currentPage && r.value.limit == Limit && r.value.filters == filters
  {
    if CanLoad(v) then Some(Request(v.currentPage, Limit, filters)) else None
  }

  /** The state while the request is in flight. */
  function Started(v: View): View {
    if CanLoad(v) then v.(isLoading := true) else v
  }

  /**
   * The state after the response: with a table to write to, a non-empty page is
   * appended and advances the page, an empty one ends the list (and says so on
   * the first page), a failure replaces the table by the error row; `finally`
   * clears `isLoading` in every case.
   */
  function Finished(v: View, hasTable: bool, search: string, outcome: FetchOutcome): View {
    match outcome
    case Failed =>
      v.(isLoading := false, rows := if hasTable then [ErrorRow] else v.rows)
    case Fetched(d) =>
      var data := DataOf(d);
      if !hasTable then v.(isLoading := false)
      else if data == [] then
        v.(isLoading := false, hasMore := false, rows := if v.currentPage == 1 then [NoResultsRow] else v.rows)
      else
        v.(isLoading := false, currentPage := v.currentPage + 1, hasMore := |data| == Limit,
           rows := v.rows + RowsFor(data, search))
  }

  /** The first half of `resetAndLoad`: back to the first page with the table emptied. */
  function Reset(v: View, hasTable: bool): View {
    v.(currentPage := 1, hasMore := true, rows := if hasTable then [] else v.rows)
  }

  /** The table element and the client state. */
  class ContactList {
    var currentPage: int
    var isLoading: bool
    var hasMore: bool
    var rows: seq<Row>
    /** Whether the page has the `contactList` element at all. */
    const hasTable: bool

    function Snapshot(): View
      reads this
    {
      View(currentPage, isLoading, hasMore, rows)
    }

    /** Pages are numbered from 1. */
    ghost predicate Valid()
      reads this
    {
      currentPage >= 1
    }

    constructor (hasTable: bool)
      ensures Valid() && this.hasTable == hasTable
      ensures Snapshot() == Initial()
    {
      currentPage := 1;
      isLoading := false;
      hasMore := true;
      rows := [];
      this.hasTable := hasTable;
    }

    /** `loadContacts` up to the `fetch`: the guard, then the request for the current page. */
    method BeginLoad(filters: Filters) returns (request: Option<Request>)
      requires Valid()
      modifies this
      ensures Valid()
      ensures request == RequestFor(old(Snapshot()), filters)
      ensures Snapshot() == Started(old(Snapshot()))
      ensures request.Some? ==> ContactsQuery.ClampPage(request.value.page) == request.value.page
    {
      if isLoading || !hasMore {
        return None;
      }
      isLoading := true;
      request := Some(Request(currentPage, Limit, filters));
    }

    /** `loadContacts` from the response on, for the request `request`. */
    method FinishLoad(request: Request, outcome: FetchOutcome)
      requires Valid()
      modifies this
      ensures Valid()
      ensures Snapshot() == Finished(old(Snapshot()), hasTable, request.filters.search, outcome)
    {
      var search := request.filters.search;
      match outcome {
        case Failed =>
          if hasTable {
            rows := [ErrorRow];
          }
        case Fetched(d) =>
          var data := DataOf(d);
          if hasTable {
            if |data| == 0 {
              if currentPage == 1 {
                rows := [NoResultsRow];
              }
              hasMore := false;
            } else {
              var fragment := BuildRows(data, search);
              rows := rows + fragment;
              currentPage := currentPage + 1;
              hasMore := |data| == Limit;
            }
          }
      }
      isLoading := false;
    }

    /** `resetAndLoad`: reset the cursor, empty the table, then `loadContacts`. */
    method ResetAndLoad(filters: Filters) returns (request: Option<Request>)
      requires Valid()
      modifies this
      ensures Valid()
      ensures request == RequestFor(Reset(old(Snapshot()), hasTable), filters)
      ensures Snapshot() == Started(Reset(old(Snapshot()), hasTable))
    {
      currentPage := 1;
      hasMore := true;
      if hasTable {
        rows := [];
      }
      request := BeginLoad(filters);
    }
  }

  // ---------------------------------------------------------------------------
  // The transitions.

  /** A refused load changes nothing and sends nothing; an accepted one only claims the loader. */
  lemma GuardedLoad(v: View, filters: Filters)
    ensures !CanLoad(v) ==> RequestFor(v, filters) == None && Started(v) == v
    ensures CanLoad(v) ==> Started(v) == v.(isLoading := true) && !CanLoad(Started(v))
  {
  }

  /** Whatever the outcome, the load is over afterwards. */
  lemma FinishClearsLoading(v: View, hasTable: bool, search: string, outcome: FetchOutcome)
    ensures !Finished(v, hasTable, search, outcome).isLoading
    ensures CanLoad(Finished(v, hasTable, search, outcome)) == Finished(v, hasTable, search, outcome).hasMore
  {
  }

  /** A non-empty page is appended in order, advances the page, and a short page is the last. */
  lemma NonEmptyPageAppends(v: View, search: string, data: seq<Contact>)
    requires data != []
    ensures var w := Finished(v, true, search, Fetched(Some(data)));
            w.currentPage == v.currentPage + 1 && (w.hasMore <==> |data| == Limit)
            && w.rows[..|v.rows|] == v.rows && |w.rows| == |v.rows| + |data|
            && forall k :: 0 <= k < |data| ==> w.rows[|v.rows| + k] == ContactRowFor(data[k], search)
  {
  }

  /** An empty page ends the list without moving the cursor; only on the first page does the table say so. */
  lemma EmptyPageEndsList(v: View, search: string, d: Option<seq<Contact>>)
    requires DataOf(d) == []
    ensures var w := Finished(v, true, search, Fetched(d));
            !w.hasMore && w.currentPage == v.currentPage
            && (v.currentPage == 1 ==> w.rows == [NoResultsRow])
            && (v.currentPage != 1 ==> w.rows == v.rows)
  {
  }

  /** A failure keeps the cursor, shows only the error row, and the next load retries the same page. */
  lemma FailureKeepsCursor(v: View, search: string, filters: Filters)
    ensures var w := Finished(v, true, search, Failed);
            w.currentPage == v.currentPage && w.hasMore == v.hasMore && w.rows == [ErrorRow]
            && (v.hasMore ==> RequestFor(w, filters) == Some(Request(v.currentPage, Limit, filters)))
  {
  }

  /** Without a table element a response changes nothing but the loading flag. */
  lemma NoTableKeepsCursor(v: View, search: string, outcome: FetchOutcome)
    ensures Finished(v, false, search, outcome) == v.(isLoading := false)
  {
  }

  /** After a reset the first page is requested, unless a load is still in flight. */
  lemma ResetRequestsFirstPage(v: View, filters: Filters)
    ensures var w := Reset(v, true);
            w.currentPage == 1 && w.hasMore && w.rows == []
            && RequestFor(w, filters) == (if v.isLoading then None else Some(Request(1, Limit, filters)))
  {
  }

  // ---------------------------------------------------------------------------
  // Browsing: successive loads.

  /** One scroll-triggered `loadContacts` that, if it is not refused, receives `outcome`. */
  function Step(v: View, hasTable: bool, search: string, outcome: FetchOutcome): View {
    if CanLoad(v) then Finished(Started(v), hasTable, search, outcome) else v
  }

  /** Successive loads receiving `outcomes` in turn. */
  function Run(v: View, hasTable: bool, search: string, outcomes: seq<FetchOutcome>): View
    decreases |outcomes|
  {
    if outcomes == [] then v else Run(Step(v, hasTable, search, outcomes[0]), hasTable, search, outcomes[1..])
  }

  /** Once the list has ended, no further load changes anything. */
  lemma {:induction false} EndedStaysEnded(v: View, hasTable: bool, search: string, outcomes: seq<FetchOutcome>)
    requires !v.isLoading && !v.hasMore
    ensures Run(v, hasTable, search, outcomes) == v
    decreases |outcomes|
  {
    if outcomes != [] {
      assert Step(v, hasTable, search, outcomes[0]) == v;
      EndedStaysEnded(v, hasTable, search, outcomes[1..]);
    }
  }

  /**
   * The table shows exactly the contacts loaded so far, or the "no results" row
   * when there were none; every page before the current one was full, except that
   * the last loaded page may be short once the list has ended.
   */
  ghost predicate Shows(v: View, loaded: seq<Contact>, search: string) {
    && !v.isLoading && v.currentPage >= 1
    && Limit * (v.currentPage - 2) < |loaded| <= Limit * (v.currentPage - 1)
    && (v.hasMore ==> |loaded| == Limit * (v.currentPage - 1))
    && (v.rows == RowsFor(loaded, search) || (loaded == [] && !v.hasMore && v.rows == [NoResultsRow]))
  }

  lemma InitialShowsNothing(search: string)
    ensures Shows(Initial(), [], search)
  {
  }

  lemma {:induction false} RowsForAppend(a: seq<Contact>, b: seq<Contact>, search: string)
    ensures RowsFor(a + b, search) == RowsFor(a, search) + RowsFor(b, search)
    decreases |a|
  {
    if a == [] {
      assert a + b == b;
    } else {
      assert (a + b)[0] == a[0] && (a + b)[1..] == a[1..] + b;
      RowsForAppend(a[1..], b, search);
      var x, l, r := ContactRowFor(a[0], search), RowsFor(a[1..], search), RowsFor(b, search);
      assert [x] + (l + r) == [x] + l + r;
    }
  }

  lemma ConcatAssociative(a: seq<Contact>, b: seq<Contact>, c: seq<Contact>)
    ensures a + b + c == a + (b + c)
  {
  }

  /** A successful load of at most `Limit` contacts keeps the table in step with what was loaded. */
  lemma StepKeepsShows(v: View, loaded: seq<Contact>, search: string, page: seq<Contact>)
    requires Shows(v, loaded, search) && |page| <= Limit
    ensures Shows(Step(v, true, search, Fetched(Some(page))), if CanLoad(v) then loaded + page else loaded, search)
  {
    if CanLoad(v) && page != [] {
      RowsForAppend(loaded, page, search);
    }
  }

  /** The contacts a session of successful loads accumulates. */
  function Collected(v: View, search: string, pages: seq<seq<Contact>>): seq<Contact>
    decreases |pages|
  {
    if pages == [] then []
    else (if CanLoad(v) then pages[0] else [])
         + Collected(Step(v, true, search, Fetched(Some(pages[0]))), search, pages[1..])
  }

  /** The outcomes of a session in which every load succeeds. */
  function Successes(pages: seq<seq<Contact>>): (os: seq<FetchOutcome>)
    ensures |os| == |pages|
    ensures forall k :: 0 <= k < |pages| ==> os[k] == Fetched(Some(pages[k]))
  {
    if pages == [] then [] else [Fetched(Some(pages[0]))] + Successes(pages[1..])
  }

  /** Loading page after page, the table always shows exactly what was loaded, in order. */
  lemma {:induction false} BrowsingShowsLoaded(v: View, loaded: seq<Contact>, search: string, pages: seq<seq<Contact>>)
    requires Shows(v, loaded, search)
    requires forall k :: 0 <= k < |pages| ==> |pages[k]| <= Limit
    ensures Shows(Run(v, true, search, Successes(pages)), loaded + Collected(v, search, pages), search)
    decreases |pages|
  {
    if pages != [] {
      var w := Step(v, true, search, Fetched(Some(pages[0])));
      var gained := if CanLoad(v) then pages[0] else [];
      var os := Successes(pages);
      assert os[0] == Fetched(Some(pages[0])) && os[1..] == Successes(pages[1..]);
      assert Run(v, true, search, os) == Run(w, true, search, os[1..]);
      var rest := Collected(w, search, pages[1..]);
      assert Collected(v, search, pages) == gained + rest;
      StepKeepsShows(v, loaded, search, pages[0]);
      BrowsingShowsLoaded(w, loaded + gained, search, pages[1..]);
      ConcatAssociative(loaded, gained, rest);
    }
  }

  // ---------------------------------------------------------------------------
  // The request on the wire.

  /** The query string `URLSearchParams` builds from a request: every key is sent, empty or not. */
  function RequestArgs(r: Request): ContactsQuery.Args {
    ContactsQuery.Args(
      search := Some(r.filters.search),
      page := Some(IntToString(r.page)),
      limit := Some(IntToString(r.limit)),
      startDate := Some(r.filters.startDate),
      endDate := Some(r.filters.endDate),
      sortBy := Some(r.filters.sortBy),
      sortOrder := Some(r.filters.sortOrder))
  }

  /**
   * The next request asks the server for the rows right after the ones shown:
   * the range it computes starts at the number of contacts loaded and spans one
   * page, so scrolling neither skips nor repeats a row.
   */
  lemma NextRequestContinues(v: View, loaded: seq<Contact>, filters: Filters, pageSize: int)
    requires Shows(v, loaded, filters.search) && v.hasMore
    ensures RequestFor(v, filters).Some?
    ensures var q := ContactsQuery.QueryFor(RequestArgs(RequestFor(v, filters).value), pageSize);
            q.Success? && q.value.range == Some((|loaded|, |loaded| + Limit - 1))
  {
    var r := RequestFor(v, filters).value;
    IntRoundTrip(r.page);
    IntRoundTrip(r.limit);
    ContactsQuery.QueryRange(RequestArgs(r), pageSize, r.page, r.limit);
  }

  /**
   * The server searches for the client's term unchanged: the term is already
   * trimmed, so trimming it again on the server keeps it as it is.
   */
  lemma SearchReachesServer(c: Controls, page: int)
    ensures var f := GetFilters(c);
            ContactsQuery.SearchFilter(RequestArgs(Request(page, Limit, f)))
              == (if f.search == "" then [] else [ContactsQuery.MatchesAny(ContactsQuery.SearchExpression(f.search))])
  {
    var f := GetFilters(c);
    SearchIsTrimmed(c);
    if f.search != "" {
      TrimUnpadded(f.search);
    } else {
      TrimEmpty(f.search);
    }
  }
}
