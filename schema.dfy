/** The `assets` and `borrow_requests` tables (and the slice of
    `maintenance_reports` that the dashboard reads): column domains, defaults,
    nullability, the unique and foreign-key constraints, and what the
    foreign keys' ON DELETE actions do to the other tables.
    Dates are day numbers and timestamps plain integers; a nullable column
    is an `Option`. */
module Schema {
  import opened Sequences

  datatype Option<T> = None | Some(value: T)

  // ----- enum columns -----

  /** `borrow_requests.status`. */
  datatype RequestStatus = Pending | Approved | Rejected | Completed

  /** The column default of `borrow_requests.status`. */
  const DefaultRequestStatus: RequestStatus := Pending

  /** The stored spelling of a request status. */
  function RequestStatusName(s: RequestStatus): string
  {
    match s
    case Pending => "pending"
    case Approved => "approved"
    case Rejected => "rejected"
    case Completed => "completed"
  }

  /** Reading a stored spelling back; anything outside the enum is refused. */
  function ParseRequestStatus(name: string): (r: Option<RequestStatus>)
    ensures r.Some? ==> RequestStatusName(r.value) == name
  {
    if name == "pending" then Some(Pending)
    else if name == "approved" then Some(Approved)
    else if name == "rejected" then Some(Rejected)
    else if name == "completed" then Some(Completed)
    else None
  }

  /** The enum's spellings are exactly the names of its four values. */
  lemma RequestStatusNames(s: RequestStatus, name: string)
    ensures ParseRequestStatus(RequestStatusName(s)) == Some(s)
    ensures ParseRequestStatus(name).None? <==>
      name !in {"pending", "approved", "rejected", "completed"}
  {
  }

  /** `assets.status`. */
  datatype AssetStatus = Available | Borrowed | UnderRepair | Damaged | Deleted

  /** The column default of `assets.status`. */
  const DefaultAssetStatus: AssetStatus := Available

  function AssetStatusName(s: AssetStatus): string
  {
    match s
    case Available => "available"
    case Borrowed => "borrowed"
    case UnderRepair => "under_repair"
    case Damaged => "damaged"
    case Deleted => "deleted"
  }

  function ParseAssetStatus(name: string): (r: Option<AssetStatus>)
    ensures r.Some? ==> AssetStatusName(r.value) == name
  {
    if name == "available" then Some(Available)
    else if name == "borrowed" then Some(Borrowed)
    else if name == "under_repair" then Some(UnderRepair)
    else if name == "damaged" then Some(Damaged)
    else if name == "deleted" then Some(Deleted)
    else None
  }

  lemma AssetStatusNames(s: AssetStatus, name: string)
    ensures ParseAssetStatus(AssetStatusName(s)) == Some(s)
    ensures AssetStatusName(DefaultAssetStatus) == "available"
    ensures ParseAssetStatus(name).None? <==>
      name !in {"available", "borrowed", "under_repair", "damaged", "deleted"}
  {
  }

  /** `maintenance_reports.status`. */
  datatype MaintenanceStatus = MaintenancePending | InProgress | MaintenanceCompleted

  /** `users.role`. */
  datatype Role = Admin | Petugas | User

  // ----- rows -----

  /** A row of `assets`. Money is in cents. */
  datatype Asset = Asset(
    id: nat,
    assetCode: string,
    name: string,
    description: Option<string>,
    photos: Option<seq<string>>,
    categoryId: nat,
    brand: Option<string>,
    serialNumber: Option<string>,
    specifications: Option<string>,
    locationId: nat,
    supplierId: Option<nat>,
    purchaseDate: Option<int>,
    purchasePrice: Option<int>,
    status: AssetStatus,
    qrCodePath: Option<string>,
    createdAt: int,
    updatedAt: int)

  /** A row of `borrow_requests`. */
  datatype BorrowRequest = BorrowRequest(
    id: nat,
    requestCode: string,
    assetId: nat,
    borrowerName: string,
    borrowerEmployeeId: string,
    borrowerPhone: string,
    borrowerEmail: Option<string>,
    borrowerDepartment: Option<string>,
    purpose: string,
    requestedStartDate: int,
    requestedEndDate: int,
    status: RequestStatus,
    notes: Option<string>,
    processedBy: Option<nat>,
    processedAt: Option<int>,
    rejectionReason: Option<string>,
    actualStartDate: Option<int>,
    actualEndDate: Option<int>,
    createdAt: int,
    updatedAt: int)

  /** The columns of `maintenance_reports` that the dashboard reads. */
  datatype MaintenanceReport = MaintenanceReport(
    id: nat,
    assetId: nat,
    status: MaintenanceStatus,
    createdAt: int)

  /** The `created_at` column of a request and of a maintenance report. */
  function CreatedAt(r: BorrowRequest): int
  {
    r.createdAt
  }

  function ReportCreatedAt(m: MaintenanceReport): int
  {
    m.createdAt
  }

  /** The three tables. */
  datatype Tables = Tables(
    assets: seq<Asset>,
    requests: seq<BorrowRequest>,
    maintenance: seq<MaintenanceReport>)

  /** Inserting a `borrow_requests` row that names only the fillable columns
      the portal fills: the status column takes its default and every
      processing and handover column is NULL. */
  function NewRequestRow(id: nat, code: string, assetId: nat, name: string,
                         employeeId: string, phone: string, email: Option<string>,
                         department: Option<string>, purpose: string,
                         start: int, end: int, notes: Option<string>, now: int): (r: BorrowRequest)
    ensures r.status == Pending
    ensures r.processedBy.None? && r.processedAt.None? && r.rejectionReason.None?
    ensures r.actualStartDate.None? && r.actualEndDate.None?
    ensures r.id == id && r.requestCode == code && r.assetId == assetId
    ensures r.borrowerName == name && r.borrowerEmployeeId == employeeId
    ensures r.borrowerPhone == phone && r.borrowerEmail == email
    ensures r.borrowerDepartment == department && r.purpose == purpose
    ensures r.requestedStartDate == start && r.requestedEndDate == end && r.notes == notes
    ensures r.createdAt == now && r.updatedAt == now
  {
    BorrowRequest(id, code, assetId, name, employeeId, phone, email, department, purpose,
                  start, end, DefaultRequestStatus, notes, None, None, None, None, None, now, now)
  }

  // ----- constraints -----

  predicate IsAssetId(assets: seq<Asset>, id: nat)
  {
    exists a :: a in assets && a.id == id
  }

  predicate DistinctAssets(a: Asset, b: Asset)
  {
    a.id != b.id && a.assetCode != b.assetCode
  }

  /** Rows of `borrow_requests` are kept in insertion order, so ids rise and
      no two rows share a `request_code`. */
  predicate DistinctRequests(a: BorrowRequest, b: BorrowRequest)
  {
    a.id < b.id && a.requestCode != b.requestCode
  }

  /** Every constraint the schema declares: primary keys, the two unique
      code columns, and the foreign keys from requests and maintenance
      reports to assets. */
  ghost predicate Consistent(t: Tables)
  {
    && Pairwise(t.assets, DistinctAssets)
    && Pairwise(t.requests, DistinctRequests)
    && (forall r :: r in t.requests ==> IsAssetId(t.assets, r.assetId))
    && (forall m :: m in t.maintenance ==> IsAssetId(t.assets, m.assetId))
  }

  /** Inserting a request with a larger id, an unused code and an existing
      asset keeps every constraint. */
  lemma InsertRequestConsistent(t: Tables, row: BorrowRequest)
    requires Consistent(t)
    requires forall r :: r in t.requests ==> r.id < row.id && r.requestCode != row.requestCode
    requires IsAssetId(t.assets, row.assetId)
    ensures Consistent(Tables(t.assets, t.requests + [row], t.maintenance))
  {
    PairwiseAppend(t.requests, row, DistinctRequests);
    forall r | r in t.requests + [row] ensures IsAssetId(t.assets, r.assetId) {
      if r != row { assert r in t.requests; }
    }
  }

  /** No two requests share a code (the unique index on `request_code`). */
  lemma RequestCodesUnique(t: Tables, i: nat, j: nat)
    requires Consistent(t)
    requires i < |t.requests| && j < |t.requests| && i != j
    ensures t.requests[i].requestCode != t.requests[j].requestCode
    ensures t.requests[i].id != t.requests[j].id
  {
    if i > j {
      assert DistinctRequests(t.requests[j], t.requests[i]);
    } else {
      assert DistinctRequests(t.requests[i], t.requests[j]);
    }
  }

  /** No two assets share a code (the unique index on `asset_code`). */
  lemma AssetCodesUnique(t: Tables, i: nat, j: nat)
    requires Consistent(t)
    requires i < |t.assets| && j < |t.assets| && i != j
    ensures t.assets[i].assetCode != t.assets[j].assetCode
    ensures t.assets[i].id != t.assets[j].id
  {
    if i > j {
      assert DistinctAssets(t.assets[j], t.assets[i]);
    } else {
      assert DistinctAssets(t.assets[i], t.assets[j]);
    }
  }

  // ----- ON DELETE actions -----

  /** Deleting the assets that satisfy `gone`: `borrow_requests.asset_id` and
      `maintenance_reports.asset_id` are ON DELETE CASCADE, so every row
      pointing at a deleted asset goes with it. */
  function DeleteAssetsWhere(t: Tables, gone: Asset -> bool): (u: Tables)
    ensures forall a :: a in u.assets <==> a in t.assets && !gone(a)
    ensures forall r :: r in u.requests <==>
      r in t.requests && !exists a :: a in t.assets && gone(a) && a.id == r.assetId
    ensures forall m :: m in u.maintenance <==>
      m in t.maintenance && !exists a :: a in t.assets && gone(a) && a.id == m.assetId
  {
    var doomed := set a | a in t.assets && gone(a) :: a.id;
    Tables(Filter(t.assets, (a: Asset) => !gone(a)),
           Filter(t.requests, (r: BorrowRequest) => r.assetId !in doomed),
           Filter(t.maintenance, (m: MaintenanceReport) => m.assetId !in doomed))
  }

  /** Deleting one asset. */
  function DeleteAsset(t: Tables, id: nat): (u: Tables)
    requires Consistent(t)
    ensures forall a :: a in u.assets <==> a in t.assets && a.id != id
    ensures forall r :: r in u.requests <==> r in t.requests && r.assetId != id
  {
    var gone := (a: Asset) => a.id == id;
    var u := DeleteAssetsWhere(t, gone);
    assert forall r :: r in t.requests && r.assetId == id ==> r !in u.requests by {
      forall r | r in t.requests && r.assetId == id ensures r !in u.requests {
        var a :| a in t.assets && a.id == r.assetId;
        assert gone(a);
      }
    }
    u
  }

  /** Deleting a category: `assets.category_id` is ON DELETE CASCADE, and
      the cascade continues to the requests and maintenance reports of the
      deleted assets. */
  function DeleteCategory(t: Tables, categoryId: nat): (u: Tables)
    ensures forall a :: a in u.assets <==> a in t.assets && a.categoryId != categoryId
    ensures forall r :: r in u.requests <==>
      r in t.requests && !exists a :: a in t.assets && a.categoryId == categoryId && a.id == r.assetId
    ensures forall m :: m in u.maintenance <==>
      m in t.maintenance && !exists a :: a in t.assets && a.categoryId == categoryId && a.id == m.assetId
    ensures Consistent(t) ==> Consistent(u)
  {
    var gone := (a: Asset) => a.categoryId == categoryId;
    assert Consistent(t) ==> Consistent(DeleteAssetsWhere(t, gone)) by {
      if Consistent(t) { DeleteAssetsConsistent(t, gone); }
    }
    DeleteAssetsWhere(t, gone)
  }

  /** Deleting a location: `assets.location_id` is ON DELETE CASCADE, and
      the cascade continues as for a category. */
  function DeleteLocation(t: Tables, locationId: nat): (u: Tables)
    ensures forall a :: a in u.assets <==> a in t.assets && a.locationId != locationId
    ensures forall r :: r in u.requests <==>
      r in t.requests && !exists a :: a in t.assets && a.locationId == locationId && a.id == r.assetId
    ensures forall m :: m in u.maintenance <==>
      m in t.maintenance && !exists a :: a in t.assets && a.locationId == locationId && a.id == m.assetId
    ensures Consistent(t) ==> Consistent(u)
  {
    var gone := (a: Asset) => a.locationId == locationId;
    assert Consistent(t) ==> Consistent(DeleteAssetsWhere(t, gone)) by {
      if Consistent(t) { DeleteAssetsConsistent(t, gone); }
    }
    DeleteAssetsWhere(t, gone)
  }

  /** Two rows of a consistent `assets` table with the same id are the same row. */
  lemma AssetIdDetermines(t: Tables, a: Asset, b: Asset)
    requires Consistent(t)
    requires a in t.assets && b in t.assets && a.id == b.id
    ensures a == b
  {
    var i :| 0 <= i < |t.assets| && t.assets[i] == a;
    var j :| 0 <= j < |t.assets| && t.assets[j] == b;
    assert forall x, y :: 0 <= x < y < |t.assets| ==> t.assets[x].id != t.assets[y].id;
  }

  /** Deleting a user: `borrow_requests.processed_by` is ON DELETE SET NULL. */
  function ClearProcessor(r: BorrowRequest, userId: nat): (c: BorrowRequest)
    ensures c.processedBy != Some(userId)
    ensures c == r.(processedBy := c.processedBy)
    ensures r.processedBy != Some(userId) ==> c == r
  {
    if r.processedBy == Some(userId) then r.(processedBy := None) else r
  }

  function DeleteUserFromRequests(rs: seq<BorrowRequest>, userId: nat): (us: seq<BorrowRequest>)
    ensures |us| == |rs|
    ensures forall i :: 0 <= i < |rs| ==> us[i] == ClearProcessor(rs[i], userId)
  {
    if rs == [] then [] else [ClearProcessor(rs[0], userId)] + DeleteUserFromRequests(rs[1..], userId)
  }

  function DeleteUser(t: Tables, userId: nat): (u: Tables)
    ensures u.assets == t.assets && u.maintenance == t.maintenance
    ensures |u.requests| == |t.requests|
    ensures forall i :: 0 <= i < |t.requests| ==> u.requests[i] == ClearProcessor(t.requests[i], userId)
    ensures forall r :: r in u.requests ==> r.processedBy != Some(userId)
  {
    Tables(t.assets, DeleteUserFromRequests(t.requests, userId), t.maintenance)
  }

  /** Deleting a supplier: `assets.supplier_id` is ON DELETE SET NULL. */
  function ClearSupplier(a: Asset, supplierId: nat): (c: Asset)
    ensures c.supplierId != Some(supplierId)
    ensures c == a.(supplierId := c.supplierId)
    ensures a.supplierId != Some(supplierId) ==> c == a
  {
    if a.supplierId == Some(supplierId) then a.(supplierId := None) else a
  }

  function DeleteSupplierFromAssets(assets: seq<Asset>, supplierId: nat): (us: seq<Asset>)
    ensures |us| == |assets|
    ensures forall i :: 0 <= i < |assets| ==> us[i] == ClearSupplier(assets[i], supplierId)
  {
    if assets == [] then []
    else [ClearSupplier(assets[0], supplierId)] + DeleteSupplierFromAssets(assets[1..], supplierId)
  }

  function DeleteSupplier(t: Tables, supplierId: nat): (u: Tables)
    ensures u.requests == t.requests && u.maintenance == t.maintenance
    ensures |u.assets| == |t.assets|
    ensures forall i :: 0 <= i < |t.assets| ==> u.assets[i] == ClearSupplier(t.assets[i], supplierId)
    ensures forall a :: a in u.assets ==> a.supplierId != Some(supplierId)
  {
    Tables(DeleteSupplierFromAssets(t.assets, supplierId), t.requests, t.maintenance)
  }

  /** The cascades leave a consistent database consistent: no request or
      maintenance report is left pointing at a deleted asset. */
  lemma DeleteAssetsConsistent(t: Tables, gone: Asset -> bool)
    requires Consistent(t)
    ensures Consistent(DeleteAssetsWhere(t, gone))
  {
    var u := DeleteAssetsWhere(t, gone);
    PairwiseSubsequence(u.assets, t.assets, DistinctAssets);
    PairwiseSubsequence(u.requests, t.requests, DistinctRequests);
    forall r | r in u.requests ensures IsAssetId(u.assets, r.assetId) {
      var a :| a in t.assets && a.id == r.assetId;
      assert !gone(a);
    }
    forall m | m in u.maintenance ensures IsAssetId(u.assets, m.assetId) {
      var a :| a in t.assets && a.id == m.assetId;
      assert !gone(a);
    }
  }

  /** SET NULL on `processed_by` changes no key, code or reference. */
  lemma DeleteUserConsistent(t: Tables, userId: nat)
    requires Consistent(t)
    ensures Consistent(DeleteUser(t, userId))
  {
    var u := DeleteUser(t, userId);
    forall i, j | 0 <= i < j < |u.requests| ensures DistinctRequests(u.requests[i], u.requests[j]) {
      assert u.requests[i] == ClearProcessor(t.requests[i], userId);
      assert u.requests[j] == ClearProcessor(t.requests[j], userId);
      assert DistinctRequests(t.requests[i], t.requests[j]);
    }
    forall r | r in u.requests ensures IsAssetId(u.assets, r.assetId) {
      var i :| 0 <= i < |u.requests| && u.requests[i] == r;
      assert r.assetId == t.requests[i].assetId;
      assert t.requests[i] in t.requests;
    }
  }

  /** SET NULL on `supplier_id` changes no key, code or reference. */
  lemma DeleteSupplierConsistent(t: Tables, supplierId: nat)
    requires Consistent(t)
    ensures Consistent(DeleteSupplier(t, supplierId))
  {
    var u := DeleteSupplier(t, supplierId);
    forall i, j | 0 <= i < j < |u.assets| ensures DistinctAssets(u.assets[i], u.assets[j]) {
      assert DistinctAssets(t.assets[i], t.assets[j]);
    }
    forall r | r in u.requests ensures IsAssetId(u.assets, r.assetId) {
      var a :| a in t.assets && a.id == r.assetId;
      var i :| 0 <= i < |t.assets| && t.assets[i] == a;
      assert u.assets[i].id == r.assetId;
    }
    forall m | m in u.maintenance ensures IsAssetId(u.assets, m.assetId) {
      var a :| a in t.assets && a.id == m.assetId;
      var i :| 0 <= i < |t.assets| && t.assets[i] == a;
      assert u.assets[i].id == m.assetId;
    }
  }
}
