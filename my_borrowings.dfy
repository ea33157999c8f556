/** The borrower's history page: it splits the requests it is given into
    pending, active and history groups, and maps each status string to a
    badge colour and an icon. Statuses arrive as the strings the database
    stores, so the page compares spellings. */
module MyBorrowings {
  import opened Schema
  import opened Sequences
  import opened BorrowRequestModel

  /** `req.status` as the page sees it. */
  function StatusOf(r: BorrowRequest): string
  {
    RequestStatusName(r.status)
  }

  predicate InPendingGroup(r: BorrowRequest)
  {
    StatusOf(r) == "pending"
  }

  /** `status === 'approved' && actual_start_date && !actual_end_date`; a
      date arrives as a non-empty string or null. */
  predicate InActiveGroup(r: BorrowRequest)
  {
    StatusOf(r) == "approved" && r.actualStartDate.Some? && !r.actualEndDate.Some?
  }

  /** `completed || rejected || (approved && actual_end_date)`. */
  predicate InHistoryGroup(r: BorrowRequest)
  {
    StatusOf(r) == "completed" || StatusOf(r) == "rejected" ||
    (StatusOf(r) == "approved" && r.actualEndDate.Some?)
  }

  /** `pendingRequests`: exactly the pending requests, the same rows as `scopePending`. */
  function PendingGroup(rs: seq<BorrowRequest>): (g: seq<BorrowRequest>)
    ensures g == ScopePending(rs)
  {
    FilterCongruent(rs, InPendingGroup, IsPending);
    Filter(rs, InPendingGroup)
  }

  /** `activeRequests`: the same rows as `scopeActive`. */
  function ActiveGroup(rs: seq<BorrowRequest>): (g: seq<BorrowRequest>)
    ensures g == ScopeActive(rs)
  {
    FilterCongruent(rs, InActiveGroup, IsActive);
    Filter(rs, InActiveGroup)
  }

  /** `completedRequests`, shown as the history. */
  function HistoryGroup(rs: seq<BorrowRequest>): (g: seq<BorrowRequest>)
    ensures forall x :: x in g <==>
      (x in rs && (x.status == Completed || x.status == Rejected ||
                   (x.status == Approved && x.actualEndDate.Some?)))
    ensures Subsequence(g, rs)
  {
    Filter(rs, InHistoryGroup)
  }

  /** No request shows up in two groups. */
  lemma GroupsDisjoint(rs: seq<BorrowRequest>, x: BorrowRequest)
    ensures !(x in PendingGroup(rs) && x in ActiveGroup(rs))
    ensures !(x in PendingGroup(rs) && x in HistoryGroup(rs))
    ensures !(x in ActiveGroup(rs) && x in HistoryGroup(rs))
  {
  }

  predicate InPendingOrActive(r: BorrowRequest)
  {
    InPendingGroup(r) || InActiveGroup(r)
  }

  predicate InSomeGroup(r: BorrowRequest)
  {
    InPendingOrActive(r) || InHistoryGroup(r)
  }

  /** The group sizes never add up to more than the "Total Requests" card,
      and fall short of it as soon as one request is approved but not yet
      handed over: such a request is in no group. */
  lemma {:induction false} GroupsNotExhaustive(rs: seq<BorrowRequest>)
    ensures |PendingGroup(rs)| + |ActiveGroup(rs)| + |HistoryGroup(rs)| <= |rs|
    ensures (exists x :: x in rs && x.status == Approved && x.actualStartDate.None? && x.actualEndDate.None?) ==>
      |PendingGroup(rs)| + |ActiveGroup(rs)| + |HistoryGroup(rs)| < |rs|
  {
    CountSplit(rs, InPendingGroup, InActiveGroup, InPendingOrActive);
    CountSplit(rs, InPendingOrActive, InHistoryGroup, InSomeGroup);
    assert |PendingGroup(rs)| + |ActiveGroup(rs)| + |HistoryGroup(rs)| == Count(rs, InSomeGroup);
    if x :| x in rs && x.status == Approved && x.actualStartDate.None? && x.actualEndDate.None? {
      CountMissing(rs, InSomeGroup, x);
    }
  }

  const DefaultColor: string := "bg-gray-100 text-gray-800 dark:bg-gray-900 dark:text-gray-200"

  /** `getStatusColor`: one badge class per status, grey for anything else. */
  function StatusColor(status: string): (c: string)
    ensures c == DefaultColor <==> ParseRequestStatus(status).None?
  {
    match status
    case "pending" => "bg-yellow-100 text-yellow-800 dark:bg-yellow-900 dark:text-yellow-200"
    case "approved" => "bg-green-100 text-green-800 dark:bg-green-900 dark:text-green-200"
    case "rejected" => "bg-red-100 text-red-800 dark:bg-red-900 dark:text-red-200"
    case "completed" => "bg-blue-100 text-blue-800 dark:bg-blue-900 dark:text-blue-200"
    case _ => DefaultColor
  }

  /** The clipboard icon shown for an unknown status. */
  const DefaultIcon: string := "\U{1F4CB}"

  /** `getStatusIcon`: hourglass, check mark, cross, chequered flag; the
      clipboard for anything else. */
  function StatusIcon(status: string): (icon: string)
    ensures icon == DefaultIcon <==> ParseRequestStatus(status).None?
  {
    match status
    case "pending" => "\U{23F3}"
    case "approved" => "\U{2705}"
    case "rejected" => "\U{274C}"
    case "completed" => "\U{1F3C1}"
    case _ => DefaultIcon
  }

  /** The badge each status gets: its colour classes and its icon. The four
      class strings differ in length, since each spells its colour word four
      times. */
  lemma BadgeOf(s: RequestStatus)
    ensures StatusColor(RequestStatusName(s)) ==
      match s
      case Pending => "bg-yellow-100 text-yellow-800 dark:bg-yellow-900 dark:text-yellow-200"
      case Approved => "bg-green-100 text-green-800 dark:bg-green-900 dark:text-green-200"
      case Rejected => "bg-red-100 text-red-800 dark:bg-red-900 dark:text-red-200"
      case Completed => "bg-blue-100 text-blue-800 dark:bg-blue-900 dark:text-blue-200"
    ensures |StatusColor(RequestStatusName(s))| ==
      match s case Pending => 69 case Approved => 65 case Rejected => 57 case Completed => 61
    ensures StatusIcon(RequestStatusName(s)) ==
      match s
      case Pending => "\U{23F3}" case Approved => "\U{2705}"
      case Rejected => "\U{274C}" case Completed => "\U{1F3C1}"
  {
  }

  /** Each of the four statuses gets its own colour and its own icon. */
  lemma BadgesDistinct(a: RequestStatus, b: RequestStatus)
    requires a != b
    ensures StatusColor(RequestStatusName(a)) != StatusColor(RequestStatusName(b))
    ensures StatusIcon(RequestStatusName(a)) != StatusIcon(RequestStatusName(b))
  {
    BadgeOf(a);
    BadgeOf(b);
  }
}
