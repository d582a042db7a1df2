/**
 * `getFilters` of the client script: the values of the filter controls, with the
 * defaults used when a control is missing or empty.
 */
module ClientFilters {
  import opened Wrappers
  import opened Text

  const DefaultSortBy: string := "submitted_at"
  const DefaultSortOrder: string := "desc"

  /**
   * The `value` of each filter control; `None` where `getElementById` finds no
   * element, so that the optional chain yields `undefined`.
   */
  datatype Controls = Controls(
    searchInput: Option<string>,
    startDate: Option<string>,
    endDate: Option<string>,
    sortBy: Option<string>,
    sortOrder: Option<string>)

  datatype Filters = Filters(search: string, startDate: string, endDate: string, sortBy: string, sortOrder: string)

  /** JavaScript `v || fallback` on a string that may be `undefined`. */
  function OrElse(v: Option<string>, fallback: string): (r: string)
    ensures Truthy(v) ==> r == v.value
    ensures !Truthy(v) ==> r == fallback
  {
    if Truthy(v) then v.value else fallback
  }

  /** `getFilters()`. */
  function GetFilters(c: Controls): (f: Filters)
  {
    Filters(
      OrElse(if c.searchInput.Some? then Some(Trim(c.searchInput.value)) else None, ""),
      OrElse(c.startDate, ""),
      OrElse(c.endDate, ""),
      OrElse(c.sortBy, DefaultSortBy),
      OrElse(c.sortOrder, DefaultSortOrder))
  }

  /**
   * The search term is the trimmed box content, so it never starts or ends with a
   * space, and it is empty exactly when the box is missing or holds only spaces.
   */
  lemma SearchIsTrimmed(c: Controls)
    ensures var s := GetFilters(c).search;
            (s == "" <==> c.searchInput.None? || AllSpace(c.searchInput.value)) &&
            (s != "" ==> !IsSpace(s[0]) && !IsSpace(s[|s| - 1]))
  {
    if c.searchInput.Some? {
      TrimEmpty(c.searchInput.value);
    }
  }

  /** The sort field and direction are never empty; the date filters are the raw control values or empty. */
  lemma SortNeverEmpty(c: Controls)
    ensures GetFilters(c).sortBy != "" && GetFilters(c).sortOrder != ""
    ensures GetFilters(c).sortBy == (if Truthy(c.sortBy) then c.sortBy.value else DefaultSortBy)
    ensures GetFilters(c).sortOrder == (if Truthy(c.sortOrder) then c.sortOrder.value else DefaultSortOrder)
  {
  }

  /** A page without any filter control asks for everything, newest first. */
  lemma NoControlsDefaults()
    ensures GetFilters(Controls(None, None, None, None, None)) == Filters("", "", "", "submitted_at", "desc")
  {
  }
}
