/** The public portal controller: the catalog of available assets, the asset
    detail, submitting a borrow request, and looking requests up by
    employee id. */
module AssetPortal {
  import opened Schema
  import opened Sequences
  import opened AssetModel
  import opened BorrowRequestModel
  import opened StoreBorrowRequest
  import opened Storage

  // ----- index: the catalog -----

  /** The catalog's filter parameters; `None` is a parameter left out (or blank). */
  datatype CatalogQuery = CatalogQuery(
    search: Option<string>,
    category: Option<nat>,
    location: Option<nat>)

  /** The paginator's page size. */
  const PerPage: nat := 12

  /** `name LIKE %term% OR asset_code LIKE %term% OR brand LIKE %term%`;
      a NULL brand matches nothing. */
  predicate MatchesSearch(a: Asset, term: string)
  {
    Contains(a.name, term) || Contains(a.assetCode, term) ||
    (a.brand.Some? && Contains(a.brand.value, term))
  }

  /** The optional `where` clauses, each applied only when its parameter is given. */
  predicate MatchesFilters(q: CatalogQuery, a: Asset)
  {
    // `filled('search')` accepts the same values as the `required` rule
    && (Required(q.search) ==> MatchesSearch(a, q.search.value))
    && (q.category.Some? ==> a.categoryId == q.category.value)
    && (q.location.Some? ==> a.locationId == q.location.value)
  }

  /** Everything the catalog asks of an asset. */
  predicate InCatalog(q: CatalogQuery, a: Asset)
  {
    a.status == Available && MatchesFilters(q, a)
  }

  function AssetName(a: Asset): string
  {
    a.name
  }

  /** All matching assets, before pagination: `available()`, the optional
      filters, `orderBy('name')`. */
  function CatalogResults(assets: seq<Asset>, q: CatalogQuery): (r: seq<Asset>)
    ensures forall a :: multiset(r)[a] == if InCatalog(q, a) then multiset(assets)[a] else 0
    ensures forall a :: a in r ==> a in assets && InCatalog(q, a)
    ensures SortedAscending(r, AssetName)
  {
    var available := ScopeAvailable(assets);
    var filtered := Filter(available, (a: Asset) => MatchesFilters(q, a));
    assert forall a :: multiset(filtered)[a] == if InCatalog(q, a) then multiset(assets)[a] else 0 by {
      forall a ensures multiset(filtered)[a] == if InCatalog(q, a) then multiset(assets)[a] else 0 {
        assert multiset(available)[a] == if IsAvailable(a) then multiset(assets)[a] else 0;
      }
    }
    var sorted := SortAscending(filtered, AssetName);
    assert forall a :: a in sorted ==> a in assets && InCatalog(q, a) by {
      forall a | a in sorted ensures a in assets && InCatalog(q, a) {
        assert a in multiset(sorted);
      }
    }
    sorted
  }

  /** The page number the paginator uses: anything below 1 reads as page 1. */
  function CurrentPage(page: int): (p: nat)
    ensures p >= 1 && (page >= 1 ==> p == page)
    ensures page < 1 ==> p == 1
  {
    if page >= 1 then page else 1
  }

  /** Page `page` of `s`: the `page`-th slice of 12 (empty past the last page). */
  function Page<T>(s: seq<T>, page: int): (r: seq<T>)
    ensures |r| <= PerPage
    ensures var start := (CurrentPage(page) - 1) * PerPage;
      var end := if start + PerPage <= |s| then start + PerPage else |s|;
      start <= |s| ==> r == s[start..end]
    ensures (CurrentPage(page) - 1) * PerPage >= |s| ==> r == []
  {
    var start := (CurrentPage(page) - 1) * PerPage;
    if start >= |s| then []
    else
      var end := if start + PerPage <= |s| then start + PerPage else |s|;
      s[start..end]
  }

  /** What is on a page comes from the list, in the list's order. */
  lemma PageWithin<T>(s: seq<T>, page: int, key: T -> string)
    requires SortedAscending(s, key)
    ensures forall x :: x in Page(s, page) ==> x in s
    ensures SortedAscending(Page(s, page), key)
  {
    var start := (CurrentPage(page) - 1) * PerPage;
    if start < |s| {
      var end := if start + PerPage <= |s| then start + PerPage else |s|;
      SortedAscendingSlice(s, key, start, end);
    }
  }

  /** Pages cover the list: the k-th result sits at position k % 12 of
      page k / 12 + 1. */
  lemma PagePosition<T>(s: seq<T>, k: nat)
    requires k < |s|
    ensures k % PerPage < |Page(s, k / PerPage + 1)|
    ensures Page(s, k / PerPage + 1)[k % PerPage] == s[k]
  {
    var start := (k / PerPage) * PerPage;
    assert start + k % PerPage == k;
    assert start <= k;
  }

  /** `index`: page `p` of the catalog. */
  function Index(assets: seq<Asset>, q: CatalogQuery, p: int): (page: seq<Asset>)
    ensures |page| <= PerPage
    ensures forall a :: a in page ==> a in assets && a.status == Available
    ensures forall a :: a in page ==> MatchesFilters(q, a)
    ensures SortedAscending(page, AssetName)
    ensures var all := CatalogResults(assets, q);
      var start := (CurrentPage(p) - 1) * PerPage;
      var end := if start + PerPage <= |all| then start + PerPage else |all|;
      (start <= |all| ==> page == all[start..end]) && (start >= |all| ==> page == [])
  {
    var all := CatalogResults(assets, q);
    var page := Page(all, p);
    PageWithin(all, p, AssetName);
    page
  }

  /** Every asset the catalog asks for is on some page. */
  lemma IndexComplete(assets: seq<Asset>, q: CatalogQuery, a: Asset)
    requires a in assets && InCatalog(q, a)
    ensures exists p :: p >= 1 && a in Index(assets, q, p)
  {
    var all := CatalogResults(assets, q);
    assert a in multiset(all);
    var k :| 0 <= k < |all| && all[k] == a;
    var p := k / PerPage + 1;
    PagePosition(all, k);
    assert Index(assets, q, p)[k % PerPage] == a;
  }

  // ----- show: one asset -----

  /** `show`: the asset bound from the URL, whatever its status; `None` is a 404. */
  function Show(assets: seq<Asset>, id: nat): (r: Option<Asset>)
    ensures r.Some? <==> IsAssetId(assets, id)
    ensures r.Some? ==> r.value in assets && r.value.id == id
  {
    var hits := Filter(assets, (a: Asset) => a.id == id);
    if hits == [] then None
    else
      assert hits[0] in hits;
      Some(hits[0])
  }

  // ----- store: submit a borrow request -----

  /** What `POST /portal/borrow` ends in: a redirect carrying the new code,
      the validation errors, or the unique index on `request_code`
      refusing the insert. */
  datatype StoreResult =
    | Submitted(code: string)
    | Invalid(errors: set<Field>)
    | DuplicateCode(code: string)

  function AssetIdSet(assets: seq<Asset>): (ids: set<nat>)
    ensures forall id :: id in ids <==> IsAssetId(assets, id)
  {
    set a | a in assets :: a.id
  }

  /** The row `BorrowRequest::create` inserts: the submitted fields verbatim,
      everything else left to its column default. */
  function RequestFromSubmission(sub: Submission, id: nat, code: string, now: int): (r: BorrowRequest)
    requires Complete(sub)
    ensures r.status == Pending
    ensures r.processedBy.None? && r.processedAt.None? && r.rejectionReason.None?
    ensures r.actualStartDate.None? && r.actualEndDate.None?
    ensures r.id == id && r.requestCode == code && r.assetId as int == sub.assetId.value
    ensures r.borrowerName == sub.borrowerName.value
    ensures r.borrowerEmployeeId == sub.borrowerEmployeeId.value
    ensures r.borrowerPhone == sub.borrowerPhone.value
    ensures r.borrowerEmail == sub.borrowerEmail && r.borrowerDepartment == sub.borrowerDepartment
    ensures r.purpose == sub.purpose.value && r.notes == sub.notes
    ensures r.requestedStartDate == sub.requestedStartDate.value
    ensures r.requestedEndDate == sub.requestedEndDate.value
    ensures r.createdAt == now
  {
    NewRequestRow(id, code, sub.assetId.value as nat, sub.borrowerName.value,
                  sub.borrowerEmployeeId.value, sub.borrowerPhone.value, sub.borrowerEmail,
                  sub.borrowerDepartment, sub.purpose.value, sub.requestedStartDate.value,
                  sub.requestedEndDate.value, sub.notes, now)
  }

  /** What `store` leaves behind: its outcome, the `borrow_requests` rows and
      the AUTO_INCREMENT counter. */
  datatype StoreStep = StoreStep(result: StoreResult, requests: seq<BorrowRequest>, next: nat)

  /** `store` on the tables `t` with counter `next`: validate, generate the
      next code, insert one pending row. `today` is the validator's current
      day and `now` the insert's timestamp. */
  function StoreOn(t: Tables, next: nat, sub: Submission, today: int, now: int,
                   isEmail: string -> bool): (s: StoreStep)
    ensures var bad := Failures(sub, AssetIdSet(t.assets), today, isEmail);
      && (bad != {} <==> s.result.Invalid?)
      && (s.result.Invalid? ==> s.result.errors == bad)
    ensures !s.result.Submitted? ==> s.requests == t.requests && s.next == next
    ensures s.result.DuplicateCode? ==>
      s.result.code == GenerateRequestCode(t.requests) &&
      exists r :: r in t.requests && r.requestCode == s.result.code
    ensures s.result.Submitted? ==>
      && Passes(sub, AssetIdSet(t.assets), today, isEmail)
      && s.result.code == GenerateRequestCode(t.requests)
      && (forall r :: r in t.requests ==> r.requestCode != s.result.code)
      && s.requests == t.requests + [RequestFromSubmission(sub, next, s.result.code, now)]
      && s.next == next + 1
  {
    var bad := Failures(sub, AssetIdSet(t.assets), today, isEmail);
    if bad != {} then StoreStep(Invalid(bad), t.requests, next)
    else
      var code := GenerateRequestCode(t.requests);
      if exists r :: r in t.requests && r.requestCode == code then
        StoreStep(DuplicateCode(code), t.requests, next)
      else
        StoreStep(Submitted(code), t.requests + [RequestFromSubmission(sub, next, code, now)], next + 1)
  }

  /** Appending a row with the counter's id, an unused code and an existing
      asset keeps the store's invariant once the counter advances. */
  lemma AppendKeepsValid(t: Tables, next: nat, row: BorrowRequest)
    requires ValidState(t, next)
    requires row.id == next && IsAssetId(t.assets, row.assetId)
    requires forall r :: r in t.requests ==> r.requestCode != row.requestCode
    ensures ValidState(Tables(t.assets, t.requests + [row], t.maintenance), next + 1)
  {
    InsertRequestConsistent(t, row);
  }

  /** `store` keeps the store's invariant: the schema's constraints and the
      counter above every request id. */
  lemma StoreKeepsValid(t: Tables, next: nat, sub: Submission, today: int, now: int,
                        isEmail: string -> bool)
    requires ValidState(t, next)
    ensures var s := StoreOn(t, next, sub, today, now, isEmail);
      ValidState(Tables(t.assets, s.requests, t.maintenance), s.next)
  {
    var s := StoreOn(t, next, sub, today, now, isEmail);
    if s.result.Submitted? {
      var row := RequestFromSubmission(sub, next, s.result.code, now);
      assert IsAssetId(t.assets, row.assetId) by {
        assert FieldPasses(sub, AssetIdField, AssetIdSet(t.assets), today, isEmail);
      }
      AppendKeepsValid(t, next, row);
    }
  }

  /** While every code came from the generator, `store` never trips the
      unique index and the new row's code follows its id too. */
  lemma StoreKeepsCodes(t: Tables, next: nat, sub: Submission, today: int, now: int,
                        isEmail: string -> bool)
    requires ValidState(t, next) && CodesFollowIds(t.requests)
    ensures var s := StoreOn(t, next, sub, today, now, isEmail);
      !s.result.DuplicateCode? && CodesFollowIds(s.requests)
  {
    var s := StoreOn(t, next, sub, today, now, isEmail);
    GeneratedCodeFresh(t.requests);
    if s.result.Submitted? {
      CodesFollowIdsAppend(t.requests, RequestFromSubmission(sub, next, s.result.code, now));
    }
  }

  /** `store` on the database: no asset or maintenance row is touched. */
  method Store(db: Database, sub: Submission, today: int, now: int, isEmail: string -> bool)
    returns (result: StoreResult)
    requires db.Valid()
    modifies db
    ensures db.Valid()
    ensures db.assets == old(db.assets) && db.maintenance == old(db.maintenance)
    ensures var s := StoreOn(old(db.Snapshot()), old(db.nextRequestId), sub, today, now, isEmail);
      result == s.result && db.requests == s.requests && db.nextRequestId == s.next
    ensures old(CodesFollowIds(db.requests)) ==>
      !result.DuplicateCode? && CodesFollowIds(db.requests)
  {
    var s := StoreOn(db.Snapshot(), db.nextRequestId, sub, today, now, isEmail);
    StoreKeepsValid(db.Snapshot(), db.nextRequestId, sub, today, now, isEmail);
    if CodesFollowIds(db.requests) {
      StoreKeepsCodes(db.Snapshot(), db.nextRequestId, sub, today, now, isEmail);
    }
    db.requests := s.requests;
    db.nextRequestId := s.next;
    result := s.result;
  }

  // ----- create: the borrower's own requests -----

  /** What `GET /portal/my-borrowings` renders. */
  datatype TrackingView =
    | LookupPrompt
    | Borrowings(borrowRequests: seq<BorrowRequest>, employeeId: string)

  /** PHP's `!$value` on a query-string value: true for a missing value, the
      empty string and the string "0". */
  predicate PhpFalsy(v: Option<string>)
  {
    v.None? || v.value == "" || v.value == "0"
  }

  /** The requests filed under one employee id, newest first. */
  function RequestsOf(requests: seq<BorrowRequest>, employeeId: string): (r: seq<BorrowRequest>)
    ensures forall x :: multiset(r)[x] ==
                        if x.borrowerEmployeeId == employeeId then multiset(requests)[x] else 0
    ensures SortedDescending(r, CreatedAt)
  {
    SortDescending(Filter(requests, (x: BorrowRequest) => x.borrowerEmployeeId == employeeId), CreatedAt)
  }

  /** `create`, as written: the lookup prompt when `!$employeeId`, otherwise
      every request with exactly that employee id, `created_at` descending. */
  function Create(requests: seq<BorrowRequest>, employeeId: Option<string>): (view: TrackingView)
    ensures view.LookupPrompt? <==> PhpFalsy(employeeId)
    ensures view.Borrowings? ==> view.employeeId == employeeId.value
    ensures view.Borrowings? ==>
      forall x :: (multiset(view.borrowRequests)[x] ==
                   if x.borrowerEmployeeId == employeeId.value then multiset(requests)[x] else 0)
    ensures view.Borrowings? ==> SortedDescending(view.borrowRequests, CreatedAt)
  {
    if PhpFalsy(employeeId) then LookupPrompt
    else Borrowings(RequestsOf(requests, employeeId.value), employeeId.value)
  }

  /** The employee id "0" passes the `required` rule, so a request can be
      filed under it, yet `create` answers that id with the lookup prompt:
      the redirect after submitting never shows the request. */
  lemma ZeroEmployeeIdHidden(requests: seq<BorrowRequest>, r: BorrowRequest)
    requires r in requests && r.borrowerEmployeeId == "0"
    ensures RequiredMax(Some(r.borrowerEmployeeId), 255)
    ensures Create(requests, Some("0")) == LookupPrompt
    ensures CreateIntended(requests, Some("0")).Borrowings?
    ensures r in CreateIntended(requests, Some("0")).borrowRequests
  {
    var shown := CreateIntended(requests, Some("0")).borrowRequests;
    assert multiset(shown)[r] == multiset(requests)[r];
    assert r in multiset(requests);
  }

  /** `create` as evidently intended: only a missing or empty id asks for
      the lookup. */
  function CreateIntended(requests: seq<BorrowRequest>, employeeId: Option<string>): (view: TrackingView)
    ensures view.LookupPrompt? <==> !Required(employeeId)
    ensures view.Borrowings? ==> view.employeeId == employeeId.value
    ensures view.Borrowings? ==>
      forall x :: (multiset(view.borrowRequests)[x] ==
                   if x.borrowerEmployeeId == employeeId.value then multiset(requests)[x] else 0)
    ensures view.Borrowings? ==> SortedDescending(view.borrowRequests, CreatedAt)
  {
    if !Required(employeeId) then LookupPrompt
    else Borrowings(RequestsOf(requests, employeeId.value), employeeId.value)
  }

  /** After `store` appends a row, the page it redirects to lists that row:
      always with the intended `create`, and with `create` as written for
      every employee id other than "0". */
  lemma LookupFindsStoredRequest(requests: seq<BorrowRequest>, row: BorrowRequest)
    requires row.borrowerEmployeeId != ""
    ensures row in CreateIntended(requests + [row], Some(row.borrowerEmployeeId)).borrowRequests
    ensures row.borrowerEmployeeId != "0" ==>
      row in Create(requests + [row], Some(row.borrowerEmployeeId)).borrowRequests
  {
    var all := requests + [row];
    assert row in all;
    assert row in multiset(all);
    var shown := RequestsOf(all, row.borrowerEmployeeId);
    assert multiset(shown)[row] == multiset(all)[row];
    assert row in multiset(shown);
  }
}
