/** The admin and student dashboards (client/src/pages/admin/Dashboard.jsx,
    client/src/pages/student/Dashboard.jsx): the greeting, the status
    counts both pages compute alike, the admin's filter tabs and 15-row
    cap, and the student's four most recent requests. Their badge helpers
    are in StatusBadges. */
module Dashboards {
  import opened Prelude
  import opened Sorting
  import StatusBadges

  /** A request as the dashboards list it; the status is a string. */
  datatype ListedRequest = ListedRequest(id: string, requestType: string, status: string, createdAt: int)

  /** `getGreeting` for the local hour. */
  function Greeting(hour: int): (g: string)
    ensures g in {"Good Morning", "Good Afternoon", "Good Evening"}
  {
    if hour < 12 then "Good Morning" else if hour < 18 then "Good Afternoon" else "Good Evening"
  }

  function GreetingRank(g: string): nat {
    if g == "Good Morning" then 0 else if g == "Good Afternoon" then 1 else 2
  }

  /** The greeting only moves forward through the day, changing at noon and
      at six. */
  lemma GreetingAdvances(h1: int, h2: int)
    requires h1 <= h2
    ensures GreetingRank(Greeting(h1)) <= GreetingRank(Greeting(h2))
    ensures Greeting(11) == "Good Morning" && Greeting(12) == "Good Afternoon"
    ensures Greeting(17) == "Good Afternoon" && Greeting(18) == "Good Evening"
  {
  }

  predicate IsPendingStatus(status: string) {
    status in ["Submitted", "Under Review", "Pending Dean Approval"]
  }

  predicate IsApprovedStatus(status: string) {
    status in ["Approved", "Ready for Pickup", "Released"]
  }

  const PendingRow: ListedRequest -> bool := (r: ListedRequest) => IsPendingStatus(r.status)
  const ApprovedRow: ListedRequest -> bool := (r: ListedRequest) => IsApprovedStatus(r.status)
  const RejectedRow: ListedRequest -> bool := (r: ListedRequest) => r.status == "Rejected"

  datatype Stats = Stats(total: nat, pending: nat, approved: nat, rejected: nat)

  /** `stats`: the three buckets never overlap, so they add up to at most
      the total, and to exactly the total when no request is outside them
      (Appointment Scheduled and Completed fall in none). */
  function StatsOf(requests: seq<ListedRequest>): (st: Stats)
    ensures st.total == |requests|
    ensures st.pending + st.approved + st.rejected <= st.total
    ensures st.pending + st.approved + st.rejected == st.total <==>
            forall j :: 0 <= j < |requests| ==>
              IsPendingStatus(requests[j].status) || IsApprovedStatus(requests[j].status)
              || requests[j].status == "Rejected"
  {
    DisjointCountsBounded(requests, PendingRow, ApprovedRow, RejectedRow);
    DisjointCountsExact(requests, PendingRow, ApprovedRow, RejectedRow);
    Stats(|requests|, Count(requests, PendingRow), Count(requests, ApprovedRow), Count(requests, RejectedRow))
  }

  /** The test of a filter tab other than "all"; any unknown tab behaves as
      the rejected one. */
  function TabTest(tab: string): ListedRequest -> bool {
    if tab == "pending" then PendingRow else if tab == "approved" then ApprovedRow else RejectedRow
  }

  /** The stat a tab corresponds to. */
  function TabCount(st: Stats, tab: string): nat {
    if tab == "all" then st.total
    else if tab == "pending" then st.pending
    else if tab == "approved" then st.approved
    else st.rejected
  }

  /** `filteredRequests`: every request under "all"; under another tab
      exactly the requests its stat counts, in list order, as many as the
      stat says. */
  function FilteredRequests(requests: seq<ListedRequest>, tab: string): (r: seq<ListedRequest>)
    ensures tab == "all" ==> r == requests
    ensures tab != "all" ==> forall x :: x in r <==> x in requests && TabTest(tab)(x)
    ensures |r| == TabCount(StatsOf(requests), tab)
  {
    if tab == "all" then requests
    else
      FilterSpec(requests, TabTest(tab));
      Filter(requests, TabTest(tab))
  }

  /** The admin table: at most the first 15 filtered requests. */
  function AdminRows(requests: seq<ListedRequest>, tab: string): (r: seq<ListedRequest>)
    ensures |r| <= 15 && |r| <= |FilteredRequests(requests, tab)|
    ensures r == FilteredRequests(requests, tab)[..|r|]
    ensures |r| == 15 || r == FilteredRequests(requests, tab)
  {
    Take(FilteredRequests(requests, tab), 15)
  }

  function ListedAt(r: ListedRequest): int {
    r.createdAt
  }

  /** `recentRequests`: the first four. */
  function RecentRequests(requests: seq<ListedRequest>): (r: seq<ListedRequest>)
    ensures |r| == if |requests| < 4 then |requests| else 4
    ensures r == requests[..|r|]
  {
    Take(requests, 4)
  }

  /** The server lists a student's requests newest first, so the four shown
      are at least as new as every one left out. */
  lemma RecentAreNewest(requests: seq<ListedRequest>)
    requires SortedDesc(requests, ListedAt)
    ensures forall i, j :: 0 <= i < |RecentRequests(requests)| <= j < |requests| ==>
              RecentRequests(requests)[i].createdAt >= requests[j].createdAt
  {
    var recent := RecentRequests(requests);
    forall i, j | 0 <= i < |recent| <= j < |requests|
      ensures recent[i].createdAt >= requests[j].createdAt
    {
      assert recent[i] == requests[i];
      assert ListedAt(requests[i]) >= ListedAt(requests[j]);
    }
  }

  /** The admin dashboard's badge colours follow its tabs: a request shows
      green exactly under the approved tab, red exactly under the rejected
      one, and every pending-tab request shows neutral. */
  lemma TabsMatchBadgeClasses(r: ListedRequest)
    ensures StatusBadges.DocumentStatusClass(r.status) == "approved" <==> ApprovedRow(r)
    ensures StatusBadges.DocumentStatusClass(r.status) == "rejected" <==> RejectedRow(r)
    ensures PendingRow(r) ==> StatusBadges.DocumentStatusClass(r.status) == "pending"
  {
  }
}
