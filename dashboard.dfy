/** The staff dashboard: status counts over both tables for everyone, and
    the five newest requests and pending maintenance reports for the roles
    that manage assets. It only reads the tables. */
module Dashboard {
  import opened Schema
  import opened Sequences
  import opened AssetModel
  import opened BorrowRequestModel

  datatype Stats = Stats(
    totalAssets: nat,
    availableAssets: nat,
    borrowedAssets: nat,
    underRepairAssets: nat,
    pendingRequests: nat,
    activeBorrowings: nat)

  /** The props handed to the page; `None` is a key that is not set. */
  datatype DashboardData = DashboardData(
    stats: Stats,
    userRole: Role,
    recentRequests: Option<seq<BorrowRequest>>,
    pendingMaintenance: Option<seq<MaintenanceReport>>)

  /** How many rows the two lists keep (`limit(5)`). */
  const ListLimit: nat := 5

  /** `Asset::where('status', s)->count()`. */
  function AssetsWithStatus(assets: seq<Asset>, s: AssetStatus): nat
  {
    Count(assets, (a: Asset) => a.status == s)
  }

  predicate HasStarted(r: BorrowRequest)
  {
    r.actualStartDate.Some?
  }

  predicate NotReturned(r: BorrowRequest)
  {
    r.actualEndDate.None?
  }

  /** The controller's own query for active borrowings:
      `where('status', 'approved')->whereNotNull('actual_start_date')->whereNull('actual_end_date')`. */
  function ActiveQuery(rs: seq<BorrowRequest>): seq<BorrowRequest>
  {
    Filter(Filter(Filter(rs, IsApproved), HasStarted), NotReturned)
  }

  /** The controller's query selects exactly the rows `scopeActive` selects,
      in the same order. */
  lemma {:induction false} ActiveQueryIsScopeActive(rs: seq<BorrowRequest>)
    ensures ActiveQuery(rs) == ScopeActive(rs)
  {
    if rs != [] {
      ActiveQueryIsScopeActive(rs[1..]);
    }
  }

  /** Every asset has exactly one of the five statuses, so the five counts
      add up to the table size. */
  lemma {:induction false} StatusCountsPartition(assets: seq<Asset>)
    ensures AssetsWithStatus(assets, Available) + AssetsWithStatus(assets, Borrowed) +
            AssetsWithStatus(assets, UnderRepair) + AssetsWithStatus(assets, Damaged) +
            AssetsWithStatus(assets, Deleted) == |assets|
  {
    if assets != [] {
      StatusCountsPartition(assets[1..]);
    }
  }

  /** The `$stats` array. */
  function ComputeStats(t: Tables): (s: Stats)
    ensures s.totalAssets == |t.assets|
    ensures s.availableAssets == |ScopeAvailable(t.assets)|
    ensures s.borrowedAssets == AssetsWithStatus(t.assets, Borrowed)
    ensures s.underRepairAssets == AssetsWithStatus(t.assets, UnderRepair)
    ensures s.availableAssets + s.borrowedAssets + s.underRepairAssets +
            AssetsWithStatus(t.assets, Damaged) + AssetsWithStatus(t.assets, Deleted) == s.totalAssets
    ensures s.pendingRequests == |ScopePending(t.requests)|
    ensures s.activeBorrowings == |ScopeActive(t.requests)|
    ensures s.activeBorrowings <= |ScopeApproved(t.requests)|
  {
    StatusCountsPartition(t.assets);
    FilterCongruent(t.assets, (a: Asset) => a.status == Available, IsAvailable);
    FilterCongruent(t.requests, (r: BorrowRequest) => r.status == Pending, IsPending);
    ActiveQueryIsScopeActive(t.requests);
    ActiveWithinApproved(t.requests);
    Stats(
      |t.assets|,
      AssetsWithStatus(t.assets, Available),
      AssetsWithStatus(t.assets, Borrowed),
      AssetsWithStatus(t.assets, UnderRepair),
      Count(t.requests, (r: BorrowRequest) => r.status == Pending),
      |ActiveQuery(t.requests)|)
  }

  /** `recent_requests`: the five newest requests by `created_at`. */
  function RecentRequests(rs: seq<BorrowRequest>): (r: seq<BorrowRequest>)
    ensures |r| == if |rs| <= ListLimit then |rs| else ListLimit
    ensures multiset(r) <= multiset(rs)
    ensures forall x :: x in r ==> x in rs
    ensures SortedDescending(r, CreatedAt)
    ensures forall x :: x in rs && x !in r ==> forall y :: y in r ==> y.createdAt >= x.createdAt
  {
    var r := Latest(rs, CreatedAt, ListLimit);
    assert forall x :: x in r ==> x in rs by {
      forall x | x in r ensures x in rs {
        assert x in multiset(r);
      }
    }
    r
  }

  predicate IsMaintenancePending(m: MaintenanceReport)
  {
    m.status == MaintenancePending
  }

  /** `pending_maintenance`: the five newest reports whose status is pending. */
  function PendingMaintenance(ms: seq<MaintenanceReport>): (r: seq<MaintenanceReport>)
    ensures var pending := Filter(ms, IsMaintenancePending);
      |r| == if |pending| <= ListLimit then |pending| else ListLimit
    ensures multiset(r) <= multiset(Filter(ms, IsMaintenancePending))
    ensures forall m :: m in r ==> m in ms && m.status == MaintenancePending
    ensures SortedDescending(r, ReportCreatedAt)
    ensures forall m :: m in ms && m.status == MaintenancePending && m !in r ==>
      forall y :: y in r ==> y.createdAt >= m.createdAt
  {
    var pending := Filter(ms, IsMaintenancePending);
    var r := Latest(pending, ReportCreatedAt, ListLimit);
    assert forall m :: m in r ==> m in pending by {
      forall m | m in r ensures m in pending {
        assert m in multiset(r);
      }
    }
    r
  }

  /** `index`: the stats and the role for everyone; the two lists only when
      `canManageAssets` holds for the user's role. */
  function Index(t: Tables, role: Role, canManageAssets: Role -> bool): (d: DashboardData)
    ensures d.stats == ComputeStats(t) && d.userRole == role
    ensures d.recentRequests.Some? <==> canManageAssets(role)
    ensures d.pendingMaintenance.Some? <==> canManageAssets(role)
    ensures d.recentRequests.Some? ==> d.recentRequests.value == RecentRequests(t.requests)
    ensures d.pendingMaintenance.Some? ==> d.pendingMaintenance.value == PendingMaintenance(t.maintenance)
  {
    if canManageAssets(role) then
      DashboardData(ComputeStats(t), role, Some(RecentRequests(t.requests)),
                    Some(PendingMaintenance(t.maintenance)))
    else
      DashboardData(ComputeStats(t), role, None, None)
  }
}
