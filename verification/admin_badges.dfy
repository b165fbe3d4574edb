/**
 * The admin layout: the sidebar's pending-count badges, which stay hidden
 * once the admin has visited the page until the count grows again, the page
 * title found from the pathname, and the choice of the full-page layout.
 */
module AdminBadges {
  import opened Wrappers
  import opened Text

  datatype NavItem = NavItem(title: string, path: string)

  /** A sidebar entry with the badge number it shows, if any. */
  datatype NavBadge = NavBadge(title: string, path: string, displayCount: Option<nat>)

  const AdminPrefix: string := "/admin/"
  const DashboardPath: string := "/admin/dashboard"
  const DefaultTitle: string := "Admin Panel"

  /** The sidebar entries, in order. */
  const AdminNavItems: seq<NavItem> := [
    NavItem("Dashboard", "/admin/dashboard"),
    NavItem("Applicants", "/admin/applicants"),
    NavItem("LinkedIn Review", "/admin/linkedin-review"),
    NavItem("Skills Review", "/admin/skill-categorization"),
    NavItem("Guidelines Review", "/admin/guidelines"),
    NavItem("Interviewers", "/admin/interviewers"),
    NavItem("User Management", "/admin/user-management"),
    NavItem("Main Sheet", "/admin/main-sheet"),
    NavItem("Interviewer Bookings", "/admin/interview-bookings"),
    NavItem("Booking Slots", "/admin/booking-slots"),
    NavItem("Student Bookings", "/admin/student-bookings"),
    NavItem("Custom Email", "/admin/custom-email"),
    NavItem("Evaluation Setup", "/admin/evaluation-setup"),
    NavItem("Domain Evaluation", "/admin/domain-evaluation")
  ]

  /** The path prefixes rendered without the padded content frame. */
  const FullPagePaths: seq<string> := [
    "/admin/main-sheet",
    "/admin/user-management",
    "/admin/interview-bookings",
    "/admin/booking-slots",
    "/admin/student-bookings",
    "/admin/skill-categorization",
    "/admin/interviewers",
    "/admin/guidelines",
    "/admin/linkedin-review",
    "/admin/applicants",
    "/admin/evaluation-setup",
    "/admin/domain-evaluation",
    "/admin/custom-email"
  ]

  /** The keys of the three pages that carry a badge. */
  const LinkedInReviewKey: string := "linkedin-review"
  const SkillsReviewKey: string := "skill-categorization"
  const GuidelinesReviewKey: string := "guidelines"

  predicate IsBadgePath(path: string)
  {
    path == AdminPrefix + LinkedInReviewKey || path == AdminPrefix + SkillsReviewKey || path == AdminPrefix + GuidelinesReviewKey
  }

  /** The dashboard statistic that feeds the badge of a page; only three pages have one. */
  function CountKeyFor(path: string): (r: Option<string>)
    ensures r.Some? <==> IsBadgePath(path)
  {
    if path == AdminPrefix + LinkedInReviewKey then Some("pendingLinkedInReviews")
    else if path == AdminPrefix + SkillsReviewKey then Some("pendingSkillsReview")
    else if path == AdminPrefix + GuidelinesReviewKey then Some("pendingGuidelinesReview")
    else None
  }

  /** path.split('/admin/').pop(): the text after the last separator found from the left. */
  function PathKey(path: string): string
  {
    var pieces := SplitAt(path, AdminPrefix);
    pieces[|pieces| - 1]
  }

  /** apiCounts[key] || 0 */
  function CountOf(api: map<string, nat>, key: string): (n: nat)
    ensures key !in api ==> n == 0
    ensures key in api ==> n == api[key]
  {
    if key in api then api[key] else 0
  }

  /**
   * The acknowledgment effect for the current pathname: on a badge page whose
   * statistic is known, the statistic is recorded under the page's key;
   * every other key, and every other page, leaves the record as it was.
   */
  function Acknowledge(ack: map<string, nat>, api: map<string, nat>, pathname: string): (r: map<string, nat>)
    ensures forall k :: k != PathKey(pathname) ==> (k in r <==> k in ack)
    ensures forall k :: k != PathKey(pathname) && k in ack ==> r[k] == ack[k]
    ensures CountKeyFor(AdminPrefix + PathKey(pathname)).None? ==> r == ack
    ensures forall ck :: CountKeyFor(AdminPrefix + PathKey(pathname)) == Some(ck) ==>
      (ck in api ==> r == ack[PathKey(pathname) := api[ck]]) && (ck !in api ==> r == ack)
  {
    var pathKey := PathKey(pathname);
    match CountKeyFor(AdminPrefix + pathKey)
    case None => ack
    case Some(ck) => if ck in api then ack[pathKey := api[ck]] else ack
  }

  /**
   * The badge of one sidebar entry: a page without a statistic has none; a
   * page never acknowledged shows a positive count; an acknowledged page
   * shows the count only when it has grown past the acknowledged one.
   */
  function DisplayCount(path: string, api: map<string, nat>, ack: map<string, nat>): (r: Option<nat>)
    ensures CountKeyFor(path).None? ==> r.None?
    ensures forall ck :: CountKeyFor(path) == Some(ck) && PathKey(path) !in ack ==>
      (r.Some? <==> CountOf(api, ck) > 0)
    ensures forall ck :: CountKeyFor(path) == Some(ck) && PathKey(path) in ack ==>
      (r.Some? <==> CountOf(api, ck) > ack[PathKey(path)])
    ensures forall ck :: CountKeyFor(path) == Some(ck) && r.Some? ==> r.value == CountOf(api, ck)
  {
    match CountKeyFor(path)
    case None => None
    case Some(ck) =>
      var current := CountOf(api, ck);
      var pathKey := PathKey(path);
      if pathKey !in ack then (if current > 0 then Some(current) else None)
      else if current > ack[pathKey] then Some(current)
      else None
  }

  /** adminNavItemsWithCounts: the same entries in the same order, each with its badge. */
  function NavItemsWithCounts(items: seq<NavItem>, api: map<string, nat>, ack: map<string, nat>): (r: seq<NavBadge>)
    ensures |r| == |items|
    ensures forall i :: 0 <= i < |items| ==>
      r[i].title == items[i].title && r[i].path == items[i].path &&
      r[i].displayCount == DisplayCount(items[i].path, api, ack)
  {
    seq(|items|, i requires 0 <= i < |items| =>
      NavBadge(items[i].title, items[i].path, DisplayCount(items[i].path, api, ack)))
  }

  // ------------------------------------------------------------ page title

  /** The entry is the page itself, or a prefix of it other than the dashboard. */
  predicate TitleMatch(item: NavItem, pathname: string)
  {
    pathname == item.path || (item.path != DashboardPath && StartsWith(pathname, item.path))
  }

  /** items.find(...): the position of the first matching entry. */
  function FirstMatch(items: seq<NavItem>, pathname: string): (r: Option<nat>)
    ensures r.Some? ==> r.value < |items| && TitleMatch(items[r.value], pathname)
    ensures r.Some? ==> forall j :: 0 <= j < r.value ==> !TitleMatch(items[j], pathname)
    ensures r.None? ==> forall j :: 0 <= j < |items| ==> !TitleMatch(items[j], pathname)
    decreases |items|
  {
    if items == [] then None
    else if TitleMatch(items[0], pathname) then Some(0)
    else match FirstMatch(items[1..], pathname)
      case None => None
      case Some(i) => Some(i + 1)
  }

  /** Every sidebar entry has a title, so the "Admin Panel" fallback is reached only without a match. */
  lemma NavTitlesNonEmpty()
    ensures forall k :: 0 <= k < |AdminNavItems| ==> AdminNavItems[k].title != []
  {
  }

  /** getPageTitle: the title of the first matching entry, or "Admin Panel". */
  function PageTitle(pathname: string): (r: string)
    ensures FirstMatch(AdminNavItems, pathname).None? ==> r == DefaultTitle
    ensures forall i :: FirstMatch(AdminNavItems, pathname) == Some(i) ==> r == AdminNavItems[i].title
  {
    NavTitlesNonEmpty();
    match FirstMatch(AdminNavItems, pathname)
    case None => DefaultTitle
    case Some(i) => if AdminNavItems[i].title != [] then AdminNavItems[i].title else DefaultTitle
  }

  /** useFullPageLayout: the pathname starts with one of the full-page prefixes. */
  predicate UseFullPageLayout(pathname: string)
  {
    exists i :: 0 <= i < |FullPagePaths| && StartsWith(pathname, FullPagePaths[i])
  }

  // ---------------------------------------------------------------- state

  /** The layout's state: the fetched statistics, the acknowledged ones and the current pathname. */
  class BadgeTracker {
    var apiCounts: map<string, nat>
    var acknowledged: map<string, nat>
    var pathname: string

    /** Mounting: nothing fetched and nothing acknowledged yet. */
    constructor(pathname: string)
      ensures this.pathname == pathname && apiCounts == map[] && acknowledged == map[]
    {
      this.pathname := pathname;
      apiCounts := map[];
      acknowledged := map[];
    }

    /** The sidebar as rendered now. */
    function Badges(): seq<NavBadge>
      reads this
    {
      NavItemsWithCounts(AdminNavItems, apiCounts, acknowledged)
    }

    /** A route change: the effect runs for the new pathname. */
    method Navigate(p: string)
      modifies this
      ensures pathname == p && apiCounts == old(apiCounts)
      ensures acknowledged == Acknowledge(old(acknowledged), apiCounts, p)
    {
      pathname := p;
      acknowledged := Acknowledge(acknowledged, apiCounts, p);
    }

    /** A successful statistics fetch: the effect runs again with the new counts. */
    method ReceiveCounts(counts: map<string, nat>)
      modifies this
      ensures apiCounts == counts && pathname == old(pathname)
      ensures acknowledged == Acknowledge(old(acknowledged), counts, pathname)
    {
      apiCounts := counts;
      acknowledged := Acknowledge(acknowledged, counts, pathname);
    }
  }

  // ----------------------------------------------------------- properties

  /** The key of "/admin/" + k is k when k holds no "/admin/". */
  lemma PathKeyOfAdminPath(k: string)
    requires NoOccurrence(k, AdminPrefix)
    ensures PathKey(AdminPrefix + k) == k
  {
    SplitAtLeading(AdminPrefix, k);
  }

  /** A string without a slash holds no "/admin/". */
  lemma NoSlashNoAdminPrefix(k: string)
    requires forall i :: 0 <= i < |k| ==> k[i] != '/'
    ensures NoOccurrence(k, AdminPrefix)
  {
    forall i | 0 <= i <= |k| - |AdminPrefix|
      ensures !OccursAt(k, AdminPrefix, i)
    {
      assert k[i..i + |AdminPrefix|][0] == k[i];
    }
  }

  /** A key without a slash, placed after "/admin/", is read back as the key. */
  lemma SlashFreeKey(k: string)
    requires forall i :: 0 <= i < |k| ==> k[i] != '/'
    ensures AdminPrefix + PathKey(AdminPrefix + k) == AdminPrefix + k
  {
    NoSlashNoAdminPrefix(k);
    PathKeyOfAdminPath(k);
  }

  /** The three badge pages and their keys. */
  lemma BadgePathKeys(path: string)
    requires IsBadgePath(path)
    ensures AdminPrefix + PathKey(path) == path
  {
    if path == AdminPrefix + LinkedInReviewKey {
      SlashFreeKey(LinkedInReviewKey);
    } else if path == AdminPrefix + SkillsReviewKey {
      SlashFreeKey(SkillsReviewKey);
    } else {
      SlashFreeKey(GuidelinesReviewKey);
    }
  }

  /** After visiting a badge page its badge is hidden, whatever was acknowledged before. */
  lemma VisitHidesBadge(ack: map<string, nat>, api: map<string, nat>, path: string)
    requires IsBadgePath(path)
    ensures DisplayCount(path, api, Acknowledge(ack, api, path)).None?
  {
    BadgePathKeys(path);
  }

  /**
   * After a visit recorded the count, the badge comes back exactly when a
   * later count is strictly greater than the recorded one.
   */
  lemma BadgeReturnsOnlyOnIncrease(ack: map<string, nat>, api: map<string, nat>, later: map<string, nat>, path: string)
    requires IsBadgePath(path) && CountKeyFor(path).value in api
    ensures var seen := Acknowledge(ack, api, path);
      DisplayCount(path, later, seen).Some? <==> CountOf(later, CountKeyFor(path).value) > api[CountKeyFor(path).value]
  {
    BadgePathKeys(path);
  }

  /** A sub-route of a badge page, or any page without a statistic, acknowledges nothing. */
  lemma SubRouteAcknowledgesNothing(ack: map<string, nat>, api: map<string, nat>, k: string)
    requires NoOccurrence(k, AdminPrefix) && !IsBadgePath(AdminPrefix + k)
    ensures Acknowledge(ack, api, AdminPrefix + k) == ack
  {
    PathKeyOfAdminPath(k);
  }

  /** Navigating to a page leaves the acknowledgment of every other badge key as it was. */
  lemma OtherBadgesKept(ack: map<string, nat>, api: map<string, nat>, p: string, path: string)
    requires IsBadgePath(path) && PathKey(p) != PathKey(path)
    ensures DisplayCount(path, api, Acknowledge(ack, api, p)) == DisplayCount(path, api, ack)
  {
  }

  /**
   * An entry whose path no earlier entry's path begins is found for its own
   * path: the first match wins, and an exact path always matches.
   */
  lemma {:induction false} OwnPathFindsEntry(items: seq<NavItem>, i: nat)
    requires i < |items|
    requires forall j :: 0 <= j < i ==> items[j].path != items[i].path && !StartsWith(items[i].path, items[j].path)
    ensures FirstMatch(items, items[i].path) == Some(i)
    decreases i
  {
    var p := items[i].path;
    if i == 0 {
      assert TitleMatch(items[0], p);
    } else {
      assert !TitleMatch(items[0], p);
      var rest := items[1..];
      assert rest[i - 1] == items[i];
      OwnPathFindsEntry(rest, i - 1);
    }
  }

  /** After "/admin/", only the dashboard's path continues with "da". */
  lemma OnlyDashboardStartsWithDa()
    ensures AdminNavItems[0].path == DashboardPath
    ensures forall j :: 1 <= j < |AdminNavItems| ==>
      8 < |AdminNavItems[j].path| && (AdminNavItems[j].path[7] != 'd' || AdminNavItems[j].path[8] != 'a')
  {
  }

  /** The dashboard is titled only on its exact path; its sub-routes fall back to the default title. */
  lemma DashboardNotPrefix(suffix: string)
    requires suffix != [] && suffix[0] == '/'
    ensures PageTitle(DashboardPath) == "Dashboard"
    ensures PageTitle(DashboardPath + suffix) == DefaultTitle
  {
    var p := DashboardPath + suffix;
    assert p[7] == 'd' && p[8] == 'a' && |p| > |DashboardPath|;
    OnlyDashboardStartsWithDa();
    assert forall j :: 0 <= j < |AdminNavItems| ==> !TitleMatch(AdminNavItems[j], p);
  }

  /** For each full-page prefix, the sidebar entry with that path. */
  ghost const FullPageNavIndex: seq<int> := [7, 6, 8, 9, 10, 3, 5, 4, 2, 1, 12, 13, 11]

  /** For each sidebar entry after the dashboard, the full-page prefix equal to its path. */
  ghost const NavFullPageIndex: seq<int> := [0, 9, 8, 5, 7, 6, 1, 0, 2, 3, 4, 12, 10, 11]

  /** Each full-page prefix is the path of a sidebar entry other than the dashboard. */
  lemma FullPagePathsAreNavPaths()
    ensures |FullPageNavIndex| == |FullPagePaths|
    ensures forall i :: 0 <= i < |FullPagePaths| ==>
      1 <= FullPageNavIndex[i] < |AdminNavItems| && FullPagePaths[i] == AdminNavItems[FullPageNavIndex[i]].path
  {
  }

  /** Each sidebar entry other than the dashboard has its path among the full-page prefixes. */
  lemma NavPathsAreFullPagePaths()
    ensures |NavFullPageIndex| == |AdminNavItems|
    ensures forall j :: 1 <= j < |AdminNavItems| ==>
      0 <= NavFullPageIndex[j] < |FullPagePaths| && AdminNavItems[j].path == FullPagePaths[NavFullPageIndex[j]]
  {
  }

  /** The full-page prefixes are exactly the sidebar paths other than the dashboard. */
  lemma FullPageIsNonDashboardEntry(pathname: string)
    ensures UseFullPageLayout(pathname) <==>
      exists i :: 1 <= i < |AdminNavItems| && StartsWith(pathname, AdminNavItems[i].path)
  {
    if UseFullPageLayout(pathname) {
      var i :| 0 <= i < |FullPagePaths| && StartsWith(pathname, FullPagePaths[i]);
      FullPagePathsAreNavPaths();
      assert StartsWith(pathname, AdminNavItems[FullPageNavIndex[i]].path);
    }
    if exists j :: 1 <= j < |AdminNavItems| && StartsWith(pathname, AdminNavItems[j].path) {
      var j :| 1 <= j < |AdminNavItems| && StartsWith(pathname, AdminNavItems[j].path);
      NavPathsAreFullPagePaths();
      assert StartsWith(pathname, FullPagePaths[NavFullPageIndex[j]]);
    }
  }

  /** A page rendered full-page always has a sidebar title. */
  lemma FullPageHasTitle(pathname: string)
    requires UseFullPageLayout(pathname)
    ensures FirstMatch(AdminNavItems, pathname).Some?
  {
    FullPageIsNonDashboardEntry(pathname);
    var i :| 1 <= i < |AdminNavItems| && StartsWith(pathname, AdminNavItems[i].path);
    assert TitleMatch(AdminNavItems[i], pathname);
  }
}
