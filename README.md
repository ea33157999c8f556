# SIMAPRO asset borrowing — a Dafny model

SIMAPRO is a Laravel application for lending out an organisation's assets.
Anyone may browse the catalog of available assets and submit a borrow
request under their employee id. The request gets a code such as
`REQ000013`. The borrower later looks up their requests by employee id.
Staff see a dashboard of status counts, and managers also see the newest
requests and pending maintenance reports.

This project models that core:
- the two tables (`assets`, `borrow_requests`) with their enum columns, defaults, nullability, unique codes and foreign-key delete actions (`schema.dfy`);
- the in-memory store holding the tables and the request id counter (`storage.dfy`);
- the code generators of the two models and the decimal/padding arithmetic under them (`codes.dfy`, `borrow_request.dfy`, `asset.dfy`);
- the query scopes (`borrow_request.dfy`, `asset.dfy`);
- the rule table of the submission form (`store_borrow_request.dfy`);
- the portal controller's catalog, asset page, submission and lookup (`asset_portal.dfy`);
- the dashboard controller (`dashboard.dfy`);
- the grouping and status badges of the borrower's history page (`my_borrowings.dfy`);
- the generic query building blocks: `where`, `count()`, `orderBy`, `limit`, `LIKE '%term%'` (`sequences.dfy`).

Dates and timestamps are integer day numbers or instants. The current day
(`today`) and the insert time (`now`) are parameters. Form values are taken
as the validator sees them, after Laravel's input trimming and its
empty-string-to-null conversion.

Stored request codes are always unique: the unique index on
`request_code` refuses any insert that would repeat one. Whether `store`'s
insert succeeds depends on an invariant, `CodesFollowIds`: every stored
code was generated from the table as it stood when its row was inserted.
While it holds, the code `store` generates is never already taken
(`GeneratedCodeFresh`), so the insert is never refused (`StoreKeepsCodes`).
The seeding factory writes random codes, which breaks the invariant
(`FactoryCodeCollides`). The store therefore has an explicit
`DuplicateCode` outcome for the insert that the unique index refuses.

## Model

| member | source | states |
|---|---|---|
| Schema.ParseRequestStatus | database/migrations/2024_12_19_100005_create_borrow_requests_table.php:30 | a stored spelling is accepted only as the name of the status it parses to |
| Schema.RequestStatusNames | database/migrations/2024_12_19_100005_create_borrow_requests_table.php:30 | the request status enum is exactly {pending, approved, rejected, completed}, and names and parsing are inverse |
| Schema.AssetStatusNames | database/migrations/2024_12_19_100004_create_assets_table.php:28 | the asset status enum is exactly {available, borrowed, under_repair, damaged, deleted}, and names and parsing are inverse |
| Schema.NewRequestRow | database/migrations/2024_12_19_100005_create_borrow_requests_table.php:20-42 | an inserted row takes status pending by default, leaves processed_by, processed_at, rejection_reason and both actual dates NULL, and copies every given column |
| Schema.RequestCodesUnique | database/migrations/2024_12_19_100005_create_borrow_requests_table.php:15-16 | in a consistent database no two requests share an id or a request_code |
| Schema.AssetCodesUnique | database/migrations/2024_12_19_100004_create_assets_table.php:15-16 | in a consistent database no two assets share an id or an asset_code |
| Schema.AssetIdDetermines | database/migrations/2024_12_19_100004_create_assets_table.php:15 | two asset rows with the same primary key are the same row |
| Schema.InsertRequestConsistent | database/migrations/2024_12_19_100005_create_borrow_requests_table.php:15-17 | inserting a request with a larger id, an unused code and an existing asset keeps every constraint |
| Schema.DeleteAssetsWhere | database/migrations/2024_12_19_100005_create_borrow_requests_table.php:17 | deleting assets removes exactly those assets and, by cascade, exactly the requests and maintenance reports that point at them |
| Schema.DeleteAsset | database/migrations/2024_12_19_100005_create_borrow_requests_table.php:17 | deleting one asset removes it and exactly the requests for it |
| Schema.DeleteCategory | database/migrations/2024_12_19_100004_create_assets_table.php:20 | deleting a category removes exactly the assets in it and, by cascade, exactly the requests and maintenance reports of those assets; a consistent database stays consistent |
| Schema.DeleteLocation | database/migrations/2024_12_19_100004_create_assets_table.php:24 | deleting a location removes exactly the assets at it and, by cascade, exactly the requests and maintenance reports of those assets; a consistent database stays consistent |
| Schema.DeleteAssetsConsistent | database/migrations/2024_12_19_100005_create_borrow_requests_table.php:17 | the cascade leaves a consistent database consistent: no dangling asset_id |
| Schema.ClearProcessor | database/migrations/2024_12_19_100005_create_borrow_requests_table.php:34 | SET NULL clears processed_by when it names the deleted user and changes nothing else |
| Schema.DeleteUserFromRequests | database/migrations/2024_12_19_100005_create_borrow_requests_table.php:34 | deleting a user applies the SET NULL to every request, one for one |
| Schema.DeleteUser | database/migrations/2024_12_19_100005_create_borrow_requests_table.php:34 | every request survives, row for row, with processed_by cleared exactly where it named the user; after it no request names them; the other tables are unchanged |
| Schema.DeleteUserConsistent | database/migrations/2024_12_19_100005_create_borrow_requests_table.php:34 | the SET NULL on processed_by keeps a consistent database consistent |
| Schema.ClearSupplier | database/migrations/2024_12_19_100004_create_assets_table.php:25 | SET NULL clears supplier_id when it names the deleted supplier and changes nothing else |
| Schema.DeleteSupplierFromAssets | database/migrations/2024_12_19_100004_create_assets_table.php:25 | deleting a supplier applies the SET NULL to every asset, one for one |
| Schema.DeleteSupplier | database/migrations/2024_12_19_100004_create_assets_table.php:25 | every asset survives, row for row, with supplier_id cleared exactly where it named the supplier; after it no asset names it; the other tables are unchanged |
| Schema.DeleteSupplierConsistent | database/migrations/2024_12_19_100004_create_assets_table.php:25 | the SET NULL on supplier_id keeps a consistent database consistent |
| Codes.Decimal | app/Models/BorrowRequest.php:168 | `(string) $n` is one or more decimal digits with no leading zero |
| Codes.ParseDecimal | app/Models/BorrowRequest.php:168 | parsing the decimal string of n gives back n |
| Codes.DecimalLength | app/Models/BorrowRequest.php:168 | n has at most k digits exactly when n < 10^k |
| Codes.ParseLeadingZeros | app/Models/BorrowRequest.php:168 | left-padding with '0' does not change the parsed value |
| Codes.PadLeft | app/Models/BorrowRequest.php:168 | str_pad with STR_PAD_LEFT reaches the width, keeps the string as its suffix, fills with the pad and never truncates |
| Codes.Code | app/Models/BorrowRequest.php:168 | a code is the prefix followed by at least six digits |
| Codes.CodeRoundTrip | app/Models/BorrowRequest.php:168 | stripping the prefix and parsing the digits gives back the number |
| Codes.CodeInjective | app/Models/BorrowRequest.php:168 | different numbers give different codes |
| Codes.CodeLength | app/Models/BorrowRequest.php:168 | the code is prefix + 6 characters when the number is at most 999999, and longer beyond that |
| Codes.MaxOf | app/Models/BorrowRequest.php:165 | the first row of `orderBy('id', 'desc')` holds the largest id |
| Codes.NextNumber | app/Models/BorrowRequest.php:165-166 | the next number is the largest id + 1, or 1 for an empty table, and exceeds every id |
| BorrowRequestModel.ScopePending | app/Models/BorrowRequest.php:129-132 | keeps exactly the pending requests, in order |
| BorrowRequestModel.ScopeApproved | app/Models/BorrowRequest.php:140-143 | keeps exactly the approved requests, in order |
| BorrowRequestModel.ScopeActive | app/Models/BorrowRequest.php:151-156 | keeps exactly the approved requests with actual_start_date set and actual_end_date NULL, in order |
| BorrowRequestModel.ActiveWithinApproved | app/Models/BorrowRequest.php:151-156 | active is approved narrowed further, so a subsequence of it and never larger |
| BorrowRequestModel.GenerateRequestCode | app/Models/BorrowRequest.php:163-169 | the code starts with REQ and parses back to the largest id + 1 (1 when empty), which exceeds every stored id; it is exactly 9 characters (six zero-padded digits) while that number is at most 999999, and REQ followed by the number's own decimal digits beyond |
| BorrowRequestModel.FirstRequestCode | app/Models/BorrowRequest.php:165-168 | the first code of an empty table is REQ000001 |
| BorrowRequestModel.CodesFollowIdsUnique | database/migrations/2024_12_19_100005_create_borrow_requests_table.php:16 | when every code came from the generator, no two rows share a code |
| BorrowRequestModel.GeneratedCodeFresh | app/Models/BorrowRequest.php:163-169 | under that invariant the next generated code is not yet taken |
| BorrowRequestModel.CodesFollowIdsAppend | app/Models/BorrowRequest.php:163-169 | appending a row with a fresh id and the generated code keeps the invariant |
| BorrowRequestModel.CodesFollowIdsSubsequence | database/migrations/2024_12_19_100005_create_borrow_requests_table.php:17 | deleting rows keeps the invariant |
| BorrowRequestModel.FactoryCodeCollides | database/factories/BorrowRequestFactory.php:25 | a factory row with id 1 and code REQ000002 breaks the invariant and the generator hands out its code again |
| AssetModel.ScopeAvailable | app/Models/Asset.php:146-149 | keeps exactly the available assets, in order |
| AssetModel.GenerateAssetCode | app/Models/Asset.php:156-162 | the code starts with AST and parses back to the largest id + 1 (1 when empty), which exceeds every stored id; it is exactly 9 characters (six zero-padded digits) while that number is at most 999999, and AST followed by the number's own decimal digits beyond |
| AssetModel.GeneratedAssetCodeFresh | app/Models/Asset.php:156-162 | when every stored code is at most its row's id, the next generated code is not yet taken |
| StoreBorrowRequest.Authorize | app/Http/Requests/StoreBorrowRequestRequest.php:12-15 | every submission is authorised |
| StoreBorrowRequest.Failures | app/Http/Requests/StoreBorrowRequestRequest.php:22-36 | a field is reported exactly when it breaks its rules; notes never fails; when nothing fails, every column the insert needs is present |
| StoreBorrowRequest.PassesExactly | app/Http/Requests/StoreBorrowRequestRequest.php:24-35 | a submission passes exactly when the asset exists, the required fields are filled and within 255/255/20 characters, the email is valid, the department is within 255, and end > start >= today |
| StoreBorrowRequest.DateOrderRefused | app/Http/Requests/StoreBorrowRequestRequest.php:32-33 | a start before today and an end not after the start are each reported |
| StoreBorrowRequest.OptionalFieldsMayBeAbsent | app/Http/Requests/StoreBorrowRequestRequest.php:29-34 | leaving out email, department and notes fails none of them |
| StoreBorrowRequest.BorrowedAssetAccepted | app/Http/Requests/StoreBorrowRequestRequest.php:25 | the asset's status is not checked: a request for a borrowed asset passes |
| Storage.Database.constructor | database/migrations/2024_12_19_100005_create_borrow_requests_table.php:14-49 | a store opened on consistent tables and a counter above every id is valid |
| AssetPortal.CatalogResults | app/Http/Controllers/AssetPortalController.php:21-42 | the results are exactly the available assets matching every given filter, each with its multiplicity, sorted by name |
| AssetPortal.CurrentPage | app/Http/Controllers/AssetPortalController.php:44 | a page number below 1 reads as page 1, and any other page number is kept |
| AssetPortal.Page | app/Http/Controllers/AssetPortalController.php:44 | page p is the p-th slice of 12, and empty past the end |
| AssetPortal.PageWithin | app/Http/Controllers/AssetPortalController.php:44 | a page holds only rows of the list and keeps its order |
| AssetPortal.PagePosition | app/Http/Controllers/AssetPortalController.php:44 | the k-th result is at position k mod 12 of page k div 12 + 1 |
| AssetPortal.Index | app/Http/Controllers/AssetPortalController.php:19-55 | page p is exactly the p-th slice of 12 of the name-sorted catalog results, and empty past the end; so it holds at most 12 assets, each available, stored and matching every filter, sorted by name |
| AssetPortal.IndexComplete | app/Http/Controllers/AssetPortalController.php:19-44 | every available asset that matches the filters is on some page |
| AssetPortal.Show | app/Http/Controllers/AssetPortalController.php:60-67 | the asset with the given id whatever its status, or not found exactly when no such id exists |
| AssetPortal.AssetIdSet | app/Http/Requests/StoreBorrowRequestRequest.php:25 | the ids that `exists:assets,id` accepts are exactly the stored asset ids |
| AssetPortal.RequestFromSubmission | app/Http/Controllers/AssetPortalController.php:74-86 | the inserted row copies the submitted fields verbatim, carries the generated code and the counter's id, and leaves status pending and every processing and actual field NULL |
| AssetPortal.StoreOn | app/Http/Controllers/AssetPortalController.php:72-90 | invalid input reports exactly the failing fields and changes nothing; a generated code already taken is refused and changes nothing; otherwise the input passes every rule, the generated code is not yet taken, exactly one row with that code and the counter's id is appended and the counter advances |
| AssetPortal.StoreKeepsValid | app/Http/Controllers/AssetPortalController.php:74-86 | every outcome keeps the schema's constraints and keeps every request id below the counter |
| AssetPortal.StoreKeepsCodes | app/Http/Controllers/AssetPortalController.php:74-86 | while every code came from the generator, the insert is never refused and the new row keeps `CodesFollowIds` |
| AssetPortal.Store | app/Http/Controllers/AssetPortalController.php:72-90 | the outcome, the new request rows and the new counter are those of `StoreOn` on the old tables; assets and maintenance reports never change; the store stays valid; while every code came from the generator the insert is never refused |
| AssetPortal.RequestsOf | app/Http/Controllers/AssetPortalController.php:103-106 | exactly the requests with that employee id, each with its multiplicity, created_at descending |
| AssetPortal.Create | app/Http/Controllers/AssetPortalController.php:95-112 | as written: the lookup prompt exactly when the id is missing, "" or "0", and otherwise that employee's requests, newest first |
| AssetPortal.ZeroEmployeeIdHidden | app/Http/Controllers/AssetPortalController.php:97-101 | the employee id "0" passes validation, yet `create` answers it with the lookup prompt while the intended lookup lists the request |
| AssetPortal.CreateIntended | app/Http/Controllers/AssetPortalController.php:95-112 | the lookup prompt exactly when the id is missing or empty, and otherwise that employee's requests, newest first |
| AssetPortal.LookupFindsStoredRequest | app/Http/Controllers/AssetPortalController.php:88-106 | after a row is appended, the lookup under its employee id lists it |
| Dashboard.ActiveQueryIsScopeActive | app/Http/Controllers/DashboardController.php:28-31 | the dashboard's inline active query selects exactly the rows `scopeActive` selects |
| Dashboard.StatusCountsPartition | app/Http/Controllers/DashboardController.php:23-26 | the five asset status counts add up to the number of assets |
| Dashboard.ComputeStats | app/Http/Controllers/DashboardController.php:22-32 | total counts every asset; available, borrowed and under_repair are the counts of assets with that status, and with damaged and deleted they add up to the total; pending and active equal the sizes of their scopes; active is at most the approved count |
| Dashboard.RecentRequests | app/Http/Controllers/DashboardController.php:42-45 | exactly min(5, total) requests, each taken from the table at most as often as it occurs, newest first, and no request left out is newer than one shown |
| Dashboard.PendingMaintenance | app/Http/Controllers/DashboardController.php:47-51 | exactly min(5, pending) reports, all pending and taken from the table at most as often as they occur, newest first, and no pending report left out is newer than one shown |
| Dashboard.Index | app/Http/Controllers/DashboardController.php:17-55 | everyone gets the stats and the role; the two lists are present exactly when the role may manage assets; the function only reads the tables |
| MyBorrowings.PendingGroup | resources/js/pages/asset-portal/my-borrowings.tsx:84 | the pending group is exactly `scopePending` |
| MyBorrowings.ActiveGroup | resources/js/pages/asset-portal/my-borrowings.tsx:85 | the active group is exactly `scopeActive` |
| MyBorrowings.HistoryGroup | resources/js/pages/asset-portal/my-borrowings.tsx:86 | the history group is exactly the completed, the rejected, and the approved with an actual end date |
| MyBorrowings.GroupsDisjoint | resources/js/pages/asset-portal/my-borrowings.tsx:84-86 | no request is in two groups |
| MyBorrowings.GroupsNotExhaustive | resources/js/pages/asset-portal/my-borrowings.tsx:84-86 | the group sizes add up to at most the total, and to less when an approved request has no actual dates |
| MyBorrowings.StatusColor | resources/js/pages/asset-portal/my-borrowings.tsx:46-59 | the grey default exactly for strings outside the four statuses |
| MyBorrowings.StatusIcon | resources/js/pages/asset-portal/my-borrowings.tsx:61-74 | the clipboard default exactly for strings outside the four statuses |
| MyBorrowings.BadgeOf | resources/js/pages/asset-portal/my-borrowings.tsx:46-74 | the exact colour class string and icon each of the four statuses gets: yellow and ⏳ for pending, green and ✅ for approved, red and ❌ for rejected, blue and 🏁 for completed |
| MyBorrowings.BadgesDistinct | resources/js/pages/asset-portal/my-borrowings.tsx:46-74 | two different statuses get different colours and different icons |

## Left out

- Ordering and equality on strings follow code points. `orderBy('name')` (app/Http/Controllers/AssetPortalController.php:23) and `where('borrower_employee_id', …)` (app/Http/Controllers/AssetPortalController.php:104) follow the column's collation in the database; MySQL's default `_ci` collations fold case, so the database may order and match differently.
- Failures: when the start date is missing or does not parse, the end date is checked only for being present. This follows Laravel's `after:` rule, which passes when the field it compares with has no date value; that rule's code is Laravel's, not this repository's.
- Search is exact substring containment. SQL `LIKE`'s collation-dependent case folding and the unescaped `%`/`_` wildcards in the term are not modelled.
- Pagination keeps only "page p is the p-th slice of 12". The paginator's metadata, links and query string are not modelled.
- Ties in `orderBy('name')` and `orderBy('created_at', 'desc')` are resolved by a fixed stable insertion order. The database leaves their order unspecified.
- Eager loading (`with`, `load`) and the related category, location, supplier and user rows are not modelled. Neither are the Inertia page rendering, the redirect and its flash message, or the category and location lists the catalog page also loads.
- `User::canManageAssets` is not part of this model. Its source is absent, so it is a parameter on the role.
- The `email` rule is a parameter `isEmail`, since Laravel's address validator is not part of this model.
- The `date` rule's parsing is not modelled. A date that does not parse is an absent date. The custom messages of `messages()` are not modelled.
- Decimal money columns and time zones are not modelled. Dates and timestamps are integers, and `today` and `now` are parameters. The JSON `photos` column is an optional list of strings.
- Timestamps (`created_at`) are non-null integers. The nullable `timestamps()` columns are always set by Eloquent on insert.
- The maintenance report has only the columns the dashboard reads, and the users table has only the role.
- Approve, reject, handover and return transitions are left out. No code for them exists, so no operation changes a request's status.
- The race between two simultaneous submissions reading the same highest id is left out. The model is sequential.
- Store: the AUTO_INCREMENT counter is not advanced when the insert is refused by the unique index. The database may consume an id in that case.
- The other pages (catalog, asset detail, lookup form, dashboard, welcome), the routes, the factories and the seeder are left out. The one exception is the factory's random request codes, used in `FactoryCodeCollides`.

## Findings

| source | as written | input that shows it | evidently intended | confidence | as-written member | corrected member |
|---|---|---|---|---|---|---|
| app/Http/Controllers/AssetPortalController.php:99 | `if (!$employeeId)` treats the string "0" as missing, though `required` accepts "0" as an employee id | a request submitted with borrower_employee_id "0"; `store` redirects to `create` with employee_id=0, which shows the lookup prompt instead of the request | only a missing or empty id asks for the lookup | not executed | AssetPortal.Create, AssetPortal.ZeroEmployeeIdHidden | AssetPortal.CreateIntended, AssetPortal.LookupFindsStoredRequest |
