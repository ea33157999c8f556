/** The application's database as one in-memory store: the rows of each
    table in insertion order, and the AUTO_INCREMENT counter of
    `borrow_requests.id`. */
module Storage {
  import opened Schema

  /** The tables satisfy the schema and `next` is above every request id. */
  ghost predicate ValidState(t: Tables, next: nat)
  {
    && Consistent(t)
    && next >= 1
    && forall r :: r in t.requests ==> r.id < next
  }

  class Database {
    var assets: seq<Asset>
    var requests: seq<BorrowRequest>
    var maintenance: seq<MaintenanceReport>
    /** The id the next inserted `borrow_requests` row receives; never reused. */
    var nextRequestId: nat

    function Snapshot(): (t: Tables)
      reads this
      ensures t.assets == assets && t.requests == requests && t.maintenance == maintenance
    {
      Tables(assets, requests, maintenance)
    }

    /** The schema's constraints hold and every request id was handed out
        by the counter. */
    ghost predicate Valid()
      reads this
    {
      ValidState(Snapshot(), nextRequestId)
    }

    constructor (assets: seq<Asset>, requests: seq<BorrowRequest>,
                 maintenance: seq<MaintenanceReport>, nextRequestId: nat)
      requires Consistent(Tables(assets, requests, maintenance))
      requires nextRequestId >= 1 && forall r :: r in requests ==> r.id < nextRequestId
      ensures Valid()
      ensures this.assets == assets && this.requests == requests
      ensures this.maintenance == maintenance && this.nextRequestId == nextRequestId
    {
      this.assets := assets;
      this.requests := requests;
      this.maintenance := maintenance;
      this.nextRequestId := nextRequestId;
    }
  }
}
