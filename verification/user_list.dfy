/** The user list page: the filter, title and subtitle a route selects, the
    query parameters sent to the user search, and the pager. */
module UserList {
  import opened Wrappers
  import opened Text

  /** A JavaScript object property: absent, present as null, or holding a value. */
  datatype Prop<T> = Absent | Null | Has(value: T)

  /** The route's filter object. */
  datatype RouteFilter = RouteFilter(role: Prop<string>, active: Prop<bool>, accountLocked: Prop<bool>)

  datatype RouteState = RouteState(filter: RouteFilter, title: string, subtitle: string)

  const NoFilter: RouteFilter := RouteFilter(Absent, Absent, Absent)

  /** `getRouteState`: the first of teachers, students, pending, blocked the
      path contains decides; otherwise the default filter stays. */
  function GetRouteState(path: string, tab: string): (st: RouteState)
    ensures Contains(path, "/users/teachers") ==> st.filter == NoFilter.(role := Has("TEACHER"))
    ensures !Contains(path, "/users/teachers") && Contains(path, "/users/students") ==>
              st.filter == NoFilter.(role := Has("STUDENT"))
    ensures !Contains(path, "/users/teachers") && !Contains(path, "/users/students") && Contains(path, "/users/pending") ==>
              st.filter == NoFilter.(active := Has(tab == "verified")) && st.title == "Pending Approvals"
    ensures (!Contains(path, "/users/teachers") && !Contains(path, "/users/students") && !Contains(path, "/users/pending")
             && Contains(path, "/users/blocked")) ==> st.filter == NoFilter.(accountLocked := Has(true))
    ensures st.filter == RouteFilter(Has(""), Null, Absent) <==>
              !Contains(path, "/users/teachers") && !Contains(path, "/users/students")
              && !Contains(path, "/users/pending") && !Contains(path, "/users/blocked")
  {
    if Contains(path, "/users/teachers") then
      RouteState(NoFilter.(role := Has("TEACHER")), "Teachers", "Manage registered teachers")
    else if Contains(path, "/users/students") then
      RouteState(NoFilter.(role := Has("STUDENT")), "Students", "Manage registered students")
    else if Contains(path, "/users/pending") then
      if tab == "verified" then RouteState(NoFilter.(active := Has(true)), "Pending Approvals", "Verified users")
      else RouteState(NoFilter.(active := Has(false)), "Pending Approvals", "Users waiting for verification")
    else if Contains(path, "/users/blocked") then
      RouteState(NoFilter.(accountLocked := Has(true)), "Blocked Users", "Manage blocked or locked accounts")
    else if Contains(path, "/users/roles") then
      RouteState(RouteFilter(Has(""), Null, Absent), "Roles & Permissions", "Manage system roles")
    else RouteState(RouteFilter(Has(""), Null, Absent), "Users", "Manage platform access")
  }

  /** The query parameters as sent: a parameter that ends up missing is `None`. */
  datatype Params = Params(page: int, size: int, query: string,
                           role: Option<string>, active: Option<bool>, accountLocked: Option<bool>)

  const PageSize: int := 10

  function PropValue<T>(p: Prop<T>): Option<T> {
    match p case Has(v) => Some(v) case _ => None
  }

  /** `fetchUsers`' parameters: the filter spread over page, size and query,
      a falsy role deleted and a null `active` deleted. */
  function RequestParams(page: int, searchTerm: string, filter: RouteFilter): (p: Params)
    ensures p.page == page && p.size == 10 && p.query == searchTerm
    ensures p.role.Some? <==> filter.role.Has? && filter.role.value != ""
    ensures p.role.Some? ==> p.role == Some(filter.role.value)
    ensures p.active == PropValue(filter.active) && p.accountLocked == PropValue(filter.accountLocked)
  {
    var role := if filter.role.Has? && filter.role.value != "" then Some(filter.role.value) else None;
    Params(page, PageSize, searchTerm, role, PropValue(filter.active), PropValue(filter.accountLocked))
  }

  /** Every route sends at most one of the three filters. */
  lemma AtMostOneFilter(path: string, tab: string, page: int, searchTerm: string)
    ensures var p := RequestParams(page, searchTerm, GetRouteState(path, tab).filter);
            (if p.role.Some? then 1 else 0) + (if p.active.Some? then 1 else 0)
            + (if p.accountLocked.Some? then 1 else 0) <= 1
  {
  }

  /** The default routes send no filter at all. */
  lemma DefaultRouteUnfiltered(path: string, tab: string, page: int, searchTerm: string)
    requires !Contains(path, "/users/teachers") && !Contains(path, "/users/students")
    requires !Contains(path, "/users/pending") && !Contains(path, "/users/blocked")
    ensures var p := RequestParams(page, searchTerm, GetRouteState(path, tab).filter);
            p.role.None? && p.active.None? && p.accountLocked.None?
  {
  }

  /** The pager's state. */
  datatype Pager = Pager(page: int, totalPages: int)

  /** The page shown is never negative, and past the first only while pages remain. */
  predicate PagerValid(p: Pager) {
    0 <= p.page && (p.page == 0 || p.page < p.totalPages)
  }

  /** "Previous": `max(0, page - 1)`. */
  function Previous(p: Pager): (q: Pager)
    ensures q.page >= 0
    ensures p.page > 0 ==> q.page == p.page - 1
    ensures q.totalPages == p.totalPages
  {
    p.(page := if p.page - 1 > 0 then p.page - 1 else 0)
  }

  /** "Next": disabled once `page >= totalPages - 1`. */
  function Next(p: Pager): (q: Pager)
    ensures q.totalPages == p.totalPages
    ensures q.page == p.page || q.page == p.page + 1
    ensures q.page == p.page + 1 <==> p.page < p.totalPages - 1
  {
    if p.page >= p.totalPages - 1 then p else p.(page := p.page + 1)
  }

  /** A route or tab change: page 0 and the route's filter. */
  function RouteChanged(p: Pager, path: string, tab: string): (r: (Pager, RouteState))
    ensures r.0.page == 0 && r.0.totalPages == p.totalPages && r.1 == GetRouteState(path, tab)
  {
    (p.(page := 0), GetRouteState(path, tab))
  }

  /** A fetch's response replaces the page count. */
  function Loaded(p: Pager, totalPages: int): (q: Pager)
    ensures q.page == p.page && q.totalPages == totalPages
  {
    p.(totalPages := totalPages)
  }

  /** The pager buttons and route changes keep the page in range. */
  lemma PagerStaysValid(p: Pager, path: string, tab: string)
    requires PagerValid(p)
    ensures PagerValid(Previous(p)) && PagerValid(Next(p)) && PagerValid(RouteChanged(p, path, tab).0)
  {
  }

  /** A response keeps the page shown, so it leaves the pager valid exactly
      when that page is the first or still exists: when results shrink
      while a later page is shown, the page is past the last and "Previous"
      is the way back. */
  lemma LoadedMayOvershoot(p: Pager, totalPages: int)
    requires PagerValid(p)
    ensures PagerValid(Loaded(p, totalPages)) <==> p.page == 0 || p.page < totalPages
    ensures p.page > 0 && !PagerValid(Loaded(p, totalPages)) ==>
              Previous(Loaded(p, totalPages)).page == p.page - 1
  {
  }

  /** The tab effect: leaving the pending route resets the tab. */
  function TabAfterRoute(path: string, tab: string): (t: string)
    ensures !Contains(path, "/users/pending") ==> t == "unverified"
    ensures Contains(path, "/users/pending") ==> t == tab
  {
    if !Contains(path, "/users/pending") then "unverified" else tab
  }
}
