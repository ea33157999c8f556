/** The BorrowRequest model: its three query scopes and its code generator. */
module BorrowRequestModel {
  import opened Schema
  import opened Sequences
  import Codes

  const RequestPrefix: string := "REQ"

  predicate IsPending(r: BorrowRequest)
  {
    r.status == Pending
  }

  predicate IsApproved(r: BorrowRequest)
  {
    r.status == Approved
  }

  /** An active borrowing: approved, handed over, not yet returned. */
  predicate IsActive(r: BorrowRequest)
  {
    r.status == Approved && r.actualStartDate.Some? && r.actualEndDate.None?
  }

  /** `scopePending`: `where('status', 'pending')`. */
  function ScopePending(rs: seq<BorrowRequest>): (r: seq<BorrowRequest>)
    ensures forall x :: x in r <==> x in rs && x.status == Pending
    ensures Subsequence(r, rs)
  {
    Filter(rs, IsPending)
  }

  /** `scopeApproved`: `where('status', 'approved')`. */
  function ScopeApproved(rs: seq<BorrowRequest>): (r: seq<BorrowRequest>)
    ensures forall x :: x in r <==> x in rs && x.status == Approved
    ensures Subsequence(r, rs)
  {
    Filter(rs, IsApproved)
  }

  /** `scopeActive`: approved, `actual_start_date` not null, `actual_end_date` null. */
  function ScopeActive(rs: seq<BorrowRequest>): (r: seq<BorrowRequest>)
    ensures forall x :: x in r <==>
      x in rs && x.status == Approved && x.actualStartDate.Some? && x.actualEndDate.None?
    ensures Subsequence(r, rs)
  {
    Filter(rs, IsActive)
  }

  /** The active scope is the approved scope narrowed further, so it is a
      subsequence of it and never larger. */
  lemma {:induction false} ActiveWithinApproved(rs: seq<BorrowRequest>)
    ensures ScopeActive(rs) == Filter(ScopeApproved(rs), IsActive)
    ensures Subsequence(ScopeActive(rs), ScopeApproved(rs))
    ensures |ScopeActive(rs)| <= |ScopeApproved(rs)|
  {
    if rs != [] {
      ActiveWithinApproved(rs[1..]);
    }
  }

  function RequestId(r: BorrowRequest): nat
  {
    r.id
  }

  /** `generateRequestCode`: "REQ" and the highest id + 1 (1 for an empty
      table), padded to six digits. */
  function GenerateRequestCode(rs: seq<BorrowRequest>): (code: string)
    ensures |code| >= 9 && code[..3] == "REQ"
    ensures Codes.ParseCode(RequestPrefix, code) == Some(Codes.NextNumber(Ids(rs, RequestId)))
    ensures var n := Codes.NextNumber(Ids(rs, RequestId));
      && (n <= 999999 ==> |code| == 9)
      && (n > 999999 ==> |code| == 3 + |Codes.Decimal(n)|)
    ensures forall r :: r in rs ==> Codes.ParseCode(RequestPrefix, code).value > r.id
  {
    var n := Codes.NextNumber(Ids(rs, RequestId));
    Codes.CodeRoundTrip(RequestPrefix, n);
    Codes.CodeLength(RequestPrefix, n);
    assert forall r :: r in rs ==> r.id in Ids(rs, RequestId) by {
      forall r | r in rs ensures r.id in Ids(rs, RequestId) {
        var i :| 0 <= i < |rs| && rs[i] == r;
        assert Ids(rs, RequestId)[i] == r.id;
      }
    }
    Codes.Code(RequestPrefix, n)
  }

  /** The first code of an empty table. */
  lemma FirstRequestCode()
    ensures GenerateRequestCode([]) == "REQ000001"
  {
    assert Codes.Decimal(1) == "1";
    assert Codes.PadLeft("1", 6, '0') == "000001";
  }

  // ----- where code uniqueness comes from -----

  /** The number in a request's code is at most its own row id. */
  predicate CodeAtMostId(r: BorrowRequest)
  {
    var n := Codes.ParseCode(RequestPrefix, r.requestCode);
    n.Some? && n.value <= r.id
  }

  /** A later row's code number is above an earlier row's id. */
  predicate CodeAfter(earlier: BorrowRequest, later: BorrowRequest)
  {
    var n := Codes.ParseCode(RequestPrefix, later.requestCode);
    n.Some? && n.value > earlier.id
  }

  /** What holds when every stored code came from `generateRequestCode` at
      the moment its row was inserted (with ids from an AUTO_INCREMENT
      counter). Rows written by other means, such as the seeding factory's
      random codes, need not satisfy it. */
  ghost predicate CodesFollowIds(rs: seq<BorrowRequest>)
  {
    (forall r :: r in rs ==> CodeAtMostId(r)) && Pairwise(rs, CodeAfter)
  }

  predicate CodesDiffer(a: BorrowRequest, b: BorrowRequest)
  {
    a.requestCode != b.requestCode
  }

  /** Under that invariant no two rows share a code. */
  lemma CodesFollowIdsUnique(rs: seq<BorrowRequest>)
    requires CodesFollowIds(rs)
    ensures Pairwise(rs, CodesDiffer)
  {
    forall i, j | 0 <= i < j < |rs| ensures CodesDiffer(rs[i], rs[j]) {
      assert CodeAfter(rs[i], rs[j]);
      assert CodeAtMostId(rs[i]);
    }
  }

  /** Under that invariant the next generated code is not yet taken, so the
      insert never trips the unique index. */
  lemma GeneratedCodeFresh(rs: seq<BorrowRequest>)
    requires CodesFollowIds(rs)
    ensures forall r :: r in rs ==> r.requestCode != GenerateRequestCode(rs)
  {
    forall r | r in rs ensures r.requestCode != GenerateRequestCode(rs) {
      assert CodeAtMostId(r);
    }
  }

  /** Appending a row with a fresh id and the generated code keeps the invariant. */
  lemma CodesFollowIdsAppend(rs: seq<BorrowRequest>, r: BorrowRequest)
    requires CodesFollowIds(rs)
    requires r.id >= 1 && forall x :: x in rs ==> x.id < r.id
    requires r.requestCode == GenerateRequestCode(rs)
    ensures CodesFollowIds(rs + [r])
  {
    var ids := Ids(rs, RequestId);
    if rs != [] {
      var k :| 0 <= k < |ids| && ids[k] == Codes.NextNumber(ids) - 1;
      assert rs[k] in rs;
    }
    var all := rs + [r];
    forall i, j | 0 <= i < j < |all| ensures CodeAfter(all[i], all[j]) {
      if j < |rs| {
        assert all[i] == rs[i] && all[j] == rs[j];
      } else {
        assert all[i] in rs;
      }
    }
  }

  /** Deleting rows (the ON DELETE CASCADE from assets) keeps the invariant. */
  lemma CodesFollowIdsSubsequence(sub: seq<BorrowRequest>, rs: seq<BorrowRequest>)
    requires CodesFollowIds(rs)
    requires Subsequence(sub, rs)
    ensures CodesFollowIds(sub)
  {
    SubsequenceMembers(sub, rs);
    PairwiseSubsequence(sub, rs, CodeAfter);
  }

  /** Without that invariant the generated code can already be taken: a
      factory row with id 1 and code REQ000002 makes the next generated code
      collide with it. */
  lemma FactoryCodeCollides(row: BorrowRequest)
    requires row.id == 1 && row.requestCode == "REQ000002"
    ensures GenerateRequestCode([row]) == row.requestCode
    ensures !CodesFollowIds([row])
  {
    var ids := Ids([row], RequestId);
    assert ids == [1];
    assert Codes.NextNumber(ids) == 2;
    assert Codes.Decimal(2) == "2";
    assert Codes.PadLeft("2", 6, '0') == "000002";
    assert GenerateRequestCode([row]) == "REQ000002";
    assert !CodeAtMostId(row);
  }
}
