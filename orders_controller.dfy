/** `api/orders` (Controllers/OrdersController.cs): creating, replacing and deleting bookings,
    the availability check, the booked ranges of an item, the orders of a month, and the month
    keys the (disabled) cache invalidation walks. */
module OrdersController {
  import opened Dates
  import opened Seqs
  import opened Model
  import Retry

  // ================= CREATE =================

  /** The order `CreateOrder` inserts: the request copied field for field, `Remaining` derived,
      the store's next identity and the clock's `UtcNow`. */
  function NewOrder(request: CreateOrderRequest, orderId: int, now: DateTime): (o: Order)
    ensures RequestOf(o) == request
    ensures o.orderId == orderId && o.createdDate == now
    ensures o.remaining == o.rent - o.advance
  {
    Order(orderId, request.itemId, request.clientName, request.village, request.fromDate, request.toDate,
      request.rent, request.advanceTakenBy, request.advance, request.rent - request.advance,
      request.remainingTakenBy, request.remainingAmount, request.remark, request.mobileNumber, now)
  }

  /** The orders the context holds, still unsaved, after `n` attempts: every attempt added its
      own copy of the request, stamped with the time that attempt read. */
  function Pending(request: CreateOrderRequest, clock: nat -> DateTime, n: nat): (p: seq<Order>)
    ensures |p| == n
    ensures forall j :: 0 <= j < n ==> p[j] == NewOrder(request, 0, clock(j))
  {
    if n == 0 then [] else Pending(request, clock, n - 1) + [NewOrder(request, 0, clock(n - 1))]
  }

  /** The identities the database assigns to a batch of pending orders. */
  function Numbered(pending: seq<Order>, firstId: int): (s: seq<Order>)
    ensures |s| == |pending|
    ensures forall j :: 0 <= j < |s| ==> s[j] == pending[j].(orderId := firstId + j)
  {
    seq(|pending|, j requires 0 <= j < |pending| => pending[j].(orderId := firstId + j))
  }

  /** The orders one successful save inserts after `n` attempts: the `n` copies, numbered from
      `firstId`. */
  function SavedOrders(request: CreateOrderRequest, firstId: int, clock: nat -> DateTime, n: nat): (s: seq<Order>)
    ensures |s| == n
    ensures forall j :: 0 <= j < n ==> s[j] == NewOrder(request, firstId + j, clock(j))
    ensures forall j :: 0 <= j < n ==>
      s[j].orderId == firstId + j && RequestOf(s[j]) == request && s[j].createdDate == clock(j) &&
      s[j].remaining == s[j].rent - s[j].advance
  {
    var s := Numbered(Pending(request, clock, n), firstId);
    forall j | 0 <= j < n
      ensures s[j] == NewOrder(request, firstId + j, clock(j))
    {
      NumberedNewOrder(request, firstId + j, clock(j));
    }
    s
  }

  /** Numbering an added order is creating it with that identity. */
  lemma NumberedNewOrder(request: CreateOrderRequest, orderId: int, now: DateTime)
    ensures NewOrder(request, 0, now).(orderId := orderId) == NewOrder(request, orderId, now)
  {
  }

  /** `POST api/orders` as written. No date-order and no overlap check: the request is inserted
      whatever its dates. A failed `SaveChangesAsync` leaves the added order tracked, so the next
      attempt's save inserts it together with the new copy: the attempt `k` (from 0) that
      succeeds inserts `k + 1` copies and answers the last. `clock(k)` is the `UtcNow` read by
      attempt `k`. */
  method CreateOrder(db: Database, request: CreateOrderRequest, clock: nat -> DateTime, faults: seq<bool>)
    returns (r: ActionResult<Order>)
    requires db.Valid()
    modifies db
    ensures db.Valid()
    ensures r.Ok? <==> !Retry.Exhausted(faults, false)
    ensures r.Ok? ==>
      r.value == NewOrder(request, old(db.nextOrderId) + Retry.FirstSuccess(faults), clock(Retry.FirstSuccess(faults)))
    ensures r.Ok? ==>
      db.orders == old(db.orders) + SavedOrders(request, old(db.nextOrderId), clock, Retry.FirstSuccess(faults) + 1)
    ensures r.Ok? ==> db.nextOrderId == old(db.nextOrderId) + Retry.FirstSuccess(faults) + 1
    ensures !r.Ok? ==> r == ServerError(Retry.TimeoutMessage) && db.orders == old(db.orders)
    ensures !r.Ok? ==> db.nextOrderId == old(db.nextOrderId)
    ensures db.items == old(db.items) && db.nextItemId == old(db.nextItemId)
  {
    var pending, succeeded := Attempts(request, clock, faults);
    if !succeeded {
      return ServerError(Retry.TimeoutMessage);
    }
    var saved := SaveOrders(db, pending);
    return Ok(saved[|saved| - 1]);
  }

  /** The retry loop of `CreateOrder`: each attempt adds a new copy of the order to the context,
      which still tracks the copies of the failed attempts; the loop stops at the first attempt
      whose save succeeds, or answers the timeout after the third failure. */
  method Attempts(request: CreateOrderRequest, clock: nat -> DateTime, faults: seq<bool>)
    returns (pending: seq<Order>, succeeded: bool)
    ensures succeeded <==> !Retry.Exhausted(faults, false)
    ensures succeeded ==> pending == Pending(request, clock, Retry.FirstSuccess(faults) + 1)
  {
    var retryCount: nat := 0;
    var maxRetries := Retry.MaxRetries;
    pending := [];
    Retry.ExhaustedIffLateSuccess(faults);
    while retryCount < maxRetries
      invariant 0 <= retryCount < maxRetries
      invariant forall k :: 0 <= k < retryCount ==> Retry.Faults(faults, k)
      invariant pending == Pending(request, clock, retryCount)
    {
      // _db.Orders.Add(order)
      pending := pending + [NewOrder(request, 0, clock(retryCount))];
      if !Retry.Faults(faults, retryCount) {
        // this attempt's SaveChangesAsync succeeds
        return pending, true;
      }
      retryCount := retryCount + 1;
      if retryCount >= maxRetries {
        return pending, false;
      }
    }
    // the guard never fails: the third failure returns inside the loop
    assert false;
    return pending, false;
  }

  /** `SaveChangesAsync` with `pending` orders in the Added state: they are inserted, numbered
      from the next identity. */
  method SaveOrders(db: Database, pending: seq<Order>) returns (saved: seq<Order>)
    requires db.Valid()
    requires forall j :: 0 <= j < |pending| ==> pending[j].remaining == pending[j].rent - pending[j].advance
    modifies db
    ensures db.Valid()
    ensures saved == Numbered(pending, old(db.nextOrderId))
    ensures db.orders == old(db.orders) + saved && db.nextOrderId == old(db.nextOrderId) + |saved|
    ensures db.items == old(db.items) && db.nextItemId == old(db.nextItemId)
  {
    saved := Numbered(pending, db.nextOrderId);
    SaveKeepsKeys(db.orders, db.nextOrderId, pending);
    db.orders := db.orders + saved;
    db.nextOrderId := db.nextOrderId + |saved|;
  }

  /** Saving a batch numbered from the next identity keeps the keys of the orders table. */
  lemma SaveKeepsKeys(orders: seq<Order>, nextOrderId: int, pending: seq<Order>)
    requires 0 < nextOrderId && DistinctOrderIds(orders)
    requires forall i :: 0 <= i < |orders| ==>
      0 < orders[i].orderId < nextOrderId && orders[i].remaining == orders[i].rent - orders[i].advance
    requires forall j :: 0 <= j < |pending| ==> pending[j].remaining == pending[j].rent - pending[j].advance
    ensures var all := orders + Numbered(pending, nextOrderId);
      DistinctOrderIds(all) &&
      forall i :: 0 <= i < |all| ==>
        0 < all[i].orderId < nextOrderId + |pending| && all[i].remaining == all[i].rent - all[i].advance
  {
    var saved := Numbered(pending, nextOrderId);
    var all := orders + saved;
    forall i | 0 <= i < |all|
      ensures 0 < all[i].orderId < nextOrderId + |pending| && all[i].remaining == all[i].rent - all[i].advance
    {
      if i >= |orders| {
        assert all[i] == saved[i - |orders|];
      }
    }
    forall i, j | 0 <= i < j < |all|
      ensures all[i].orderId != all[j].orderId
    {
      if j >= |orders| {
        assert all[j] == saved[j - |orders|];
        if i >= |orders| {
          assert all[i] == saved[i - |orders|];
        }
      }
    }
  }

  /** A save after one failed attempt stores the booking twice: two orders with the same
      request, different ids, each blocking the other's dates in the availability check. */
  lemma RetriedCreateDuplicates(request: CreateOrderRequest, firstId: int, clock: nat -> DateTime)
    requires Le(request.fromDate, request.toDate)
    ensures var s := SavedOrders(request, firstId, clock, 2);
      RequestOf(s[0]) == RequestOf(s[1]) && s[0].orderId != s[1].orderId &&
      Conflicts(s[0], request.itemId, s[1].fromDate, s[1].toDate, s[1].orderId)
  {
    var s := SavedOrders(request, firstId, clock, 2);
    assert RequestOf(s[0]) == request == RequestOf(s[1]);
    LeIsTotalOrder(request.fromDate, request.toDate, request.toDate);
  }

  /** The create with one order added whatever the number of attempts: a failed save leaves
      nothing behind, and the request is inserted once. */
  method CreateOrderCorrected(db: Database, request: CreateOrderRequest, now: DateTime, faults: seq<bool>)
    returns (r: ActionResult<Order>)
    requires db.Valid()
    modifies db
    ensures db.Valid()
    ensures r.Ok? <==> !Retry.Exhausted(faults, false)
    ensures r.Ok? ==> r.value == NewOrder(request, old(db.nextOrderId), now) && db.orders == old(db.orders) + [r.value]
    ensures !r.Ok? ==> r == ServerError(Retry.TimeoutMessage) && db.orders == old(db.orders)
    ensures db.items == old(db.items) && db.nextItemId == old(db.nextItemId)
  {
    var exit, _ := Retry.RetryLoop(faults, false);
    match exit
    case Completed =>
      var order := NewOrder(request, db.nextOrderId, now);
      db.orders := db.orders + [order];
      db.nextOrderId := db.nextOrderId + 1;
      r := Ok(order);
    case TimedOut =>
      r := ServerError(Retry.TimeoutMessage);
    case FellThrough =>
      assert false;
      r := ServerError(Retry.UnexpectedMessage);
  }

  // ================= UPDATE =================

  /** The tracked order after the assignments of `UpdateOrder`: every request field but `ItemId`
      replaces the old one, `Remaining` is recomputed, and `OrderId`, `ItemId`, `CreatedDate` stay. */
  function ApplyUpdate(existing: Order, request: CreateOrderRequest): (o: Order)
    ensures RequestOf(o) == request.(itemId := existing.itemId)
    ensures o.orderId == existing.orderId && o.itemId == existing.itemId && o.createdDate == existing.createdDate
    ensures o.remaining == o.rent - o.advance
  {
    existing.(
      clientName := request.clientName,
      village := request.village,
      fromDate := request.fromDate,
      toDate := request.toDate,
      rent := request.rent,
      advance := request.advance,
      remaining := request.rent - request.advance,
      remark := request.remark,
      advanceTakenBy := request.advanceTakenBy,
      remainingTakenBy := request.remainingTakenBy,
      remainingAmount := request.remainingAmount,
      mobileNumber := request.mobileNumber)
  }

  /** Replacing twice with the same request is replacing once. */
  lemma ApplyUpdateIdempotent(existing: Order, request: CreateOrderRequest)
    ensures ApplyUpdate(ApplyUpdate(existing, request), request) == ApplyUpdate(existing, request)
  {
  }

  /** `UpdateOrder` as written. The context's default `QueryTrackingBehavior.NoTracking`
      (Program.cs:20) applies to the query behind `FindAsync`, so the order it gives is not
      tracked: the assignments change only the object in memory, `SaveChangesAsync` has nothing
      to write, and the action answers the updated order while the store keeps the old row. */
  method UpdateOrder(db: Database, orderId: int, request: CreateOrderRequest, faults: seq<bool>)
    returns (r: ActionResult<Order>)
    ensures r.ServerError? <==> Retry.Exhausted(faults, false)
    ensures r.ServerError? ==> r.message == Retry.TimeoutMessage
    ensures r.NotFound? <==> !Retry.Exhausted(faults, false) && OrderIndex(db.orders, orderId) < 0
    ensures r.NotFound? ==> r.message == "Order not found"
    ensures !r.BadRequest?
    ensures r.Ok? ==>
      var i := OrderIndex(db.orders, orderId);
      0 <= i && r.value == ApplyUpdate(db.orders[i], request)
  {
    var exit, _ := Retry.RetryLoop(faults, false);
    match exit
    case Completed =>
      var i := OrderIndex(db.orders, orderId);
      if i < 0 {
        r := NotFound("Order not found");
      } else {
        // a detached copy: nothing the change tracker sees is modified
        var existingOrder := ApplyUpdate(db.orders[i], request);
        r := Ok(existingOrder);
      }
    case TimedOut =>
      r := ServerError(Retry.TimeoutMessage);
    case FellThrough =>
      assert false;
      r := ServerError(Retry.UnexpectedMessage);
  }

  /** As written, an update that changes anything answers an order the store does not hold. */
  lemma UpdateAnswerNotStored(orders: seq<Order>, orderId: int, request: CreateOrderRequest)
    requires DistinctOrderIds(orders)
    requires OrderIndex(orders, orderId) >= 0
    requires ApplyUpdate(orders[OrderIndex(orders, orderId)], request) != orders[OrderIndex(orders, orderId)]
    ensures ApplyUpdate(orders[OrderIndex(orders, orderId)], request) !in orders
  {
  }

  /** `UpdateOrder` with the order tracked for update (`AsTracking()` on the lookup, or
      `Update(existingOrder)` before saving): the store holds the updated order. */
  method UpdateOrderCorrected(db: Database, orderId: int, request: CreateOrderRequest, faults: seq<bool>)
    returns (r: ActionResult<Order>)
    requires db.Valid()
    modifies db
    ensures db.Valid()
    ensures r.ServerError? <==> Retry.Exhausted(faults, false)
    ensures r.ServerError? ==> r.message == Retry.TimeoutMessage
    ensures r.NotFound? <==> !Retry.Exhausted(faults, false) && OrderIndex(old(db.orders), orderId) < 0
    ensures r.NotFound? ==> r.message == "Order not found"
    ensures !r.BadRequest?
    ensures r.Ok? ==>
      var i := OrderIndex(old(db.orders), orderId);
      0 <= i && r.value == ApplyUpdate(old(db.orders)[i], request) && db.orders == old(db.orders)[i := r.value]
    ensures !r.Ok? ==> db.orders == old(db.orders)
    ensures db.items == old(db.items) && db.nextOrderId == old(db.nextOrderId) && db.nextItemId == old(db.nextItemId)
  {
    var exit, _ := Retry.RetryLoop(faults, false);
    match exit
    case Completed =>
      var i := OrderIndex(db.orders, orderId);
      if i < 0 {
        r := NotFound("Order not found");
      } else {
        var existingOrder := db.orders[i];
        existingOrder := existingOrder.(clientName := request.clientName);
        existingOrder := existingOrder.(village := request.village);
        existingOrder := existingOrder.(fromDate := request.fromDate);
        existingOrder := existingOrder.(toDate := request.toDate);
        existingOrder := existingOrder.(rent := request.rent);
        existingOrder := existingOrder.(advance := request.advance);
        existingOrder := existingOrder.(remaining := request.rent - request.advance);
        existingOrder := existingOrder.(remark := request.remark);
        existingOrder := existingOrder.(advanceTakenBy := request.advanceTakenBy);
        existingOrder := existingOrder.(remainingTakenBy := request.remainingTakenBy);
        existingOrder := existingOrder.(remainingAmount := request.remainingAmount);
        existingOrder := existingOrder.(mobileNumber := request.mobileNumber);
        // SaveChangesAsync writes the tracked order back
        db.orders := db.orders[i := existingOrder];
        r := Ok(existingOrder);
      }
    case TimedOut =>
      r := ServerError(Retry.TimeoutMessage);
    case FellThrough =>
      assert false;
      r := ServerError(Retry.UnexpectedMessage);
  }

  // ================= DELETE =================

  method DeleteOrder(db: Database, orderId: int, faults: seq<bool>) returns (r: ActionResult<string>)
    requires db.Valid()
    modifies db
    ensures db.Valid()
    ensures r.ServerError? <==> Retry.Exhausted(faults, false)
    ensures r.ServerError? ==> r.message == Retry.TimeoutMessage
    ensures r.NotFound? <==> !Retry.Exhausted(faults, false) && OrderIndex(old(db.orders), orderId) < 0
    ensures !r.BadRequest?
    ensures r.Ok? ==>
      var i := OrderIndex(old(db.orders), orderId);
      0 <= i && r.value == "Order deleted" && db.orders == old(db.orders)[..i] + old(db.orders)[i + 1..]
    ensures !r.Ok? ==> db.orders == old(db.orders)
    ensures db.items == old(db.items) && db.nextOrderId == old(db.nextOrderId) && db.nextItemId == old(db.nextItemId)
  {
    var exit, _ := Retry.RetryLoop(faults, false);
    match exit
    case Completed =>
      var i := OrderIndex(db.orders, orderId);
      if i < 0 {
        r := NotFound("");
      } else {
        RemovedKeepsRows(db.orders, i, db.nextOrderId);
        db.orders := db.orders[..i] + db.orders[i + 1..];
        r := Ok("Order deleted");
      }
    case TimedOut =>
      r := ServerError(Retry.TimeoutMessage);
    case FellThrough =>
      assert false;
      r := ServerError(Retry.UnexpectedMessage);
  }

  /** Removing the order found by key removes exactly the order with that id and keeps every other. */
  lemma DeleteKeepsOthers(orders: seq<Order>, orderId: int)
    requires DistinctOrderIds(orders) && 0 <= OrderIndex(orders, orderId)
    ensures var i := OrderIndex(orders, orderId);
      var rest := orders[..i] + orders[i + 1..];
      |rest| == |orders| - 1 && DistinctOrderIds(rest) &&
      (forall k :: 0 <= k < |rest| ==> rest[k] == orders[if k < i then k else k + 1]) &&
      (forall o :: o in rest <==> o in orders && o.orderId != orderId)
  {
    var i := OrderIndex(orders, orderId);
    RemovedAt(orders, i);
    RemovedAtMembers(orders, i);
  }

  /** Removing one row keeps the per-row invariants of the store and the uniqueness of keys. */
  lemma RemovedKeepsRows(orders: seq<Order>, i: int, nextOrderId: int)
    requires DistinctOrderIds(orders) && 0 <= i < |orders|
    requires forall k :: 0 <= k < |orders| ==>
      0 < orders[k].orderId < nextOrderId && orders[k].remaining == orders[k].rent - orders[k].advance
    ensures DistinctOrderIds(orders[..i] + orders[i + 1..])
    ensures var rest := orders[..i] + orders[i + 1..];
      forall k :: 0 <= k < |rest| ==>
        0 < rest[k].orderId < nextOrderId && rest[k].remaining == rest[k].rent - rest[k].advance
  {
    RemovedAt(orders, i);
  }

  lemma RemovedAt(orders: seq<Order>, i: int)
    requires DistinctOrderIds(orders) && 0 <= i < |orders|
    ensures var rest := orders[..i] + orders[i + 1..];
      forall k :: 0 <= k < |rest| ==> rest[k] == orders[if k < i then k else k + 1]
    ensures DistinctOrderIds(orders[..i] + orders[i + 1..])
  {
    var rest := orders[..i] + orders[i + 1..];
    forall k, l | 0 <= k < l < |rest|
      ensures rest[k].orderId != rest[l].orderId
    {
      var k' := if k < i then k else k + 1;
      var l' := if l < i then l else l + 1;
      assert rest[k] == orders[k'];
      assert rest[l] == orders[l'];
    }
  }

  lemma RemovedAtMembers(orders: seq<Order>, i: int)
    requires DistinctOrderIds(orders) && 0 <= i < |orders|
    ensures forall o :: o in orders[..i] + orders[i + 1..] <==> o in orders && o.orderId != orders[i].orderId
  {
    var rest := orders[..i] + orders[i + 1..];
    forall o | o in rest
      ensures o in orders && o.orderId != orders[i].orderId
    {
      var k :| 0 <= k < |rest| && rest[k] == o;
      var k' := if k < i then k else k + 1;
      assert o == orders[k'];
    }
    forall o | o in orders && o.orderId != orders[i].orderId
      ensures o in rest
    {
      var k :| 0 <= k < |orders| && orders[k] == o;
      assert rest[if k < i then k else k - 1] == o;
    }
  }

  // ================= ALL ORDERS =================

  /** `GET api/orders`: every stored order, in store order. */
  method GetOrders(db: Database, faults: seq<bool>) returns (r: ActionResult<seq<Order>>)
    ensures r.Ok? <==> !Retry.Exhausted(faults, false)
    ensures r.Ok? ==> r.value == db.orders
    ensures !r.Ok? ==> r == ServerError(Retry.TimeoutMessage)
  {
    var exit, _ := Retry.RetryLoop(faults, false);
    match exit
    case Completed =>
      r := Ok(db.orders);
    case TimedOut =>
      r := ServerError(Retry.TimeoutMessage);
    case FellThrough =>
      assert false;
      r := ServerError(Retry.UnexpectedMessage);
  }

  // ================= MONTH ORDERS =================

  predicate StartsIn(o: Order, year: int, month: int) {
    o.fromDate.year == year && o.fromDate.month == month
  }

  function InMonth(year: int, month: int): Order -> bool {
    (o: Order) => StartsIn(o, year, month)
  }

  /** `itemId == 0 || y.ItemId == itemId`. */
  function ForItem(itemId: int): Order -> bool {
    (o: Order) => itemId == 0 || o.itemId == itemId
  }

  function EarlierFirst(a: Order, b: Order): bool {
    Le(a.fromDate, b.fromDate)
  }

  lemma EarlierFirstIsPreorder()
    ensures TotalPreorder(EarlierFirst)
  {
    forall a: Order, b: Order, c: Order
      ensures EarlierFirst(a, b) || EarlierFirst(b, a)
      ensures EarlierFirst(a, b) && EarlierFirst(b, c) ==> EarlierFirst(a, c)
    {
      LeIsTotalOrder(a.fromDate, b.fromDate, c.fromDate);
    }
  }

  /** The orders starting in `month` of `year`, earliest first, then narrowed to one item unless
      `itemId` is 0: each such order with its multiplicity, and no other. */
  function MonthOrders(orders: seq<Order>, year: int, month: int, itemId: int): (r: seq<Order>)
    ensures Sorted(r, EarlierFirst)
    ensures forall o :: multiset(r)[o] == (if StartsIn(o, year, month) && (itemId == 0 || o.itemId == itemId) then multiset(orders)[o] else 0)
  {
    EarlierFirstIsPreorder();
    var inMonth := SortBy(Filter(orders, InMonth(year, month)), EarlierFirst);
    FilterKeepsOrder(inMonth, ForItem(itemId), EarlierFirst);
    Filter(inMonth, ForItem(itemId))
  }

  method GetMonthOrders(db: Database, year: int, month: int, itemId: int, faults: seq<bool>)
    returns (r: ActionResult<seq<Order>>)
    ensures r.Ok? <==> !Retry.Exhausted(faults, false)
    ensures r.Ok? ==> r.value == MonthOrders(db.orders, year, month, itemId)
    ensures !r.Ok? ==> r == ServerError(Retry.TimeoutMessage)
  {
    var exit, _ := Retry.RetryLoop(faults, false);
    match exit
    case Completed =>
      r := Ok(MonthOrders(db.orders, year, month, itemId));
    case TimedOut =>
      r := ServerError(Retry.TimeoutMessage);
    case FellThrough =>
      assert false;
      r := ServerError(Retry.UnexpectedMessage);
  }

  // ================= AVAILABILITY =================

  /** The closed ranges [aFrom, aTo] and [bFrom, bTo] share an instant; touching ends overlap. */
  predicate Overlaps(aFrom: DateTime, aTo: DateTime, bFrom: DateTime, bTo: DateTime) {
    Le(aFrom, bTo) && Le(bFrom, aTo)
  }

  lemma OverlapsSymmetric(aFrom: DateTime, aTo: DateTime, bFrom: DateTime, bTo: DateTime)
    ensures Overlaps(aFrom, aTo, bFrom, bTo) == Overlaps(bFrom, bTo, aFrom, aTo)
  {
  }

  lemma OverlapsReflexive(from: DateTime, to: DateTime)
    requires Le(from, to)
    ensures Overlaps(from, to, from, to)
  {
    LeIsTotalOrder(from, to, to);
  }

  /** The condition of the `AnyAsync` query: an order of the item, other than `orderId` when that
      is not 0, whose range overlaps [fromDate, toDate]. */
  predicate Conflicts(o: Order, itemId: int, fromDate: DateTime, toDate: DateTime, orderId: int) {
    o.itemId == itemId && (orderId == 0 || o.orderId != orderId) && Overlaps(o.fromDate, o.toDate, fromDate, toDate)
  }

  /** `available = !isBooked`. */
  function IsAvailable(orders: seq<Order>, itemId: int, fromDate: DateTime, toDate: DateTime, orderId: int): (available: bool)
    ensures available <==> forall i :: 0 <= i < |orders| ==> !Conflicts(orders[i], itemId, fromDate, toDate, orderId)
  {
    if orders == [] then true
    else
      assert forall i :: 0 < i < |orders| ==> orders[i] == orders[1..][i - 1];
      !Conflicts(orders[0], itemId, fromDate, toDate, orderId) && IsAvailable(orders[1..], itemId, fromDate, toDate, orderId)
  }

  lemma AvailableIffNoConflictingOrder(orders: seq<Order>, itemId: int, fromDate: DateTime, toDate: DateTime, orderId: int)
    ensures IsAvailable(orders, itemId, fromDate, toDate, orderId) <==>
      forall o :: o in orders ==> !Conflicts(o, itemId, fromDate, toDate, orderId)
  {
  }

  /** A booking that ends on the first requested day, or starts on the last, blocks the request. */
  lemma TouchingBoundariesConflict(orders: seq<Order>, k: int, fromDate: DateTime, toDate: DateTime, orderId: int)
    requires 0 <= k < |orders| && (orderId == 0 || orders[k].orderId != orderId)
    requires Le(orders[k].fromDate, orders[k].toDate) && Le(fromDate, toDate)
    requires orders[k].toDate == fromDate || orders[k].fromDate == toDate
    ensures !IsAvailable(orders, orders[k].itemId, fromDate, toDate, orderId)
  {
    LeIsTotalOrder(orders[k].fromDate, fromDate, toDate);
    LeIsTotalOrder(fromDate, toDate, orders[k].toDate);
  }

  /** A booking entirely after the requested range, even by one tick, does not block it. */
  lemma LaterBookingDoesNotConflict(o: Order, itemId: int, fromDate: DateTime, toDate: DateTime, orderId: int)
    requires Le(toDate, o.fromDate) && toDate != o.fromDate
    ensures !Conflicts(o, itemId, fromDate, toDate, orderId)
  {
    LeIsTotalOrder(o.fromDate, toDate, o.fromDate);
  }

  function OfItem(itemId: int): Order -> bool {
    (o: Order) => o.itemId == itemId
  }

  /** Orders of other items never matter: the answer is the same over the item's orders alone. */
  lemma {:induction false} OtherItemsNeverConflict(orders: seq<Order>, itemId: int, fromDate: DateTime, toDate: DateTime, orderId: int)
    ensures IsAvailable(orders, itemId, fromDate, toDate, orderId) ==
            IsAvailable(Filter(orders, OfItem(itemId)), itemId, fromDate, toDate, orderId)
  {
    var mine := Filter(orders, OfItem(itemId));
    AvailableIffNoConflictingOrder(orders, itemId, fromDate, toDate, orderId);
    AvailableIffNoConflictingOrder(mine, itemId, fromDate, toDate, orderId);
    assert forall o :: o in mine <==> o in orders && o.itemId == itemId by {
      forall o ensures o in mine <==> o in orders && o.itemId == itemId {
        assert o in mine <==> o in multiset(mine);
        assert o in orders <==> o in multiset(orders);
      }
    }
  }

  function NotOrder(orderId: int): Order -> bool {
    (o: Order) => o.orderId != orderId
  }

  /** Passing a non-zero `orderId` answers as if that order were not in the store, so an order
      being edited never blocks itself. */
  lemma {:induction false} ExcludedOrderIgnored(orders: seq<Order>, itemId: int, fromDate: DateTime, toDate: DateTime, orderId: int)
    requires orderId != 0
    ensures IsAvailable(orders, itemId, fromDate, toDate, orderId) ==
            IsAvailable(Filter(orders, NotOrder(orderId)), itemId, fromDate, toDate, 0)
  {
    var others := Filter(orders, NotOrder(orderId));
    AvailableIffNoConflictingOrder(orders, itemId, fromDate, toDate, orderId);
    AvailableIffNoConflictingOrder(others, itemId, fromDate, toDate, 0);
    assert forall o :: o in others <==> o in orders && o.orderId != orderId by {
      forall o ensures o in others <==> o in orders && o.orderId != orderId {
        assert o in others <==> o in multiset(others);
        assert o in orders <==> o in multiset(orders);
      }
    }
  }

  function CountFaults(observed: seq<bool>): nat {
    if observed == [] then 0 else CountFaults(observed[..|observed| - 1]) + if observed[|observed| - 1] then 1 else 0
  }

  lemma {:induction false} CountFaultsPrefix(observed: seq<bool>, k: nat)
    requires k <= |observed|
    ensures CountFaults(observed[..k]) <= CountFaults(observed)
    decreases |observed| - k
  {
    if k < |observed| {
      CountFaultsPrefix(observed, k + 1);
      assert observed[..k + 1][..k] == observed[..k];
    } else {
      assert observed[..k] == observed;
    }
  }

  lemma CountFaultsStep(observed: seq<bool>, k: nat)
    requires k < |observed|
    ensures CountFaults(observed[..k + 1]) == CountFaults(observed[..k]) + if observed[k] then 1 else 0
    ensures false in observed[..k + 1] <==> false in observed[..k] || !observed[k]
  {
    assert observed[..k + 1][..k] == observed[..k];
    assert observed[..k + 1] == observed[..k] + [observed[k]];
  }

  /** Where `CheckAvailability` stands after the database attempts in `observed` (true: the query
      threw): it has returned, or it is still looping with its local `available`. */
  datatype AvailabilityRun = Returned(result: ActionResult<bool>) | StillRunning(available: bool)

  /** `GET api/orders/check-availability` as written: a successful query sets `available` but does
      not leave the loop, so the action keeps querying until the third failure answers 500; the
      `Ok(new { available })` after the loop is never reached. */
  method CheckAvailability(db: Database, itemId: int, fromDate: DateTime, toDate: DateTime, orderId: int, observed: seq<bool>)
    returns (run: AvailabilityRun)
    ensures run.Returned? <==> CountFaults(observed) >= Retry.MaxRetries
    ensures run.Returned? ==> run.result == ServerError(Retry.TimeoutMessage)
    ensures run.StillRunning? ==>
      run.available == (false in observed && IsAvailable(db.orders, itemId, fromDate, toDate, orderId))
  {
    var available := false;
    var retryCount: nat := 0;
    var maxRetries := Retry.MaxRetries;
    var attempt := 0;
    while retryCount < maxRetries && attempt < |observed|
      invariant 0 <= attempt <= |observed|
      invariant retryCount == CountFaults(observed[..attempt]) < maxRetries
      invariant available == (false in observed[..attempt] && IsAvailable(db.orders, itemId, fromDate, toDate, orderId))
      decreases |observed| - attempt
    {
      CountFaultsStep(observed, attempt);
      if !observed[attempt] {
        available := IsAvailable(db.orders, itemId, fromDate, toDate, orderId);
      } else {
        retryCount := retryCount + 1;
        if retryCount >= maxRetries {
          CountFaultsPrefix(observed, attempt + 1);
          return Returned(ServerError(Retry.TimeoutMessage));
        }
      }
      attempt := attempt + 1;
    }
    assert observed[..attempt] == observed;
    return StillRunning(available);
  }

  /** The check with the missing `return Ok(new { available })` inside the try block. */
  method CheckAvailabilityCorrected(db: Database, itemId: int, fromDate: DateTime, toDate: DateTime, orderId: int, faults: seq<bool>)
    returns (r: ActionResult<bool>)
    ensures r.Ok? <==> !Retry.Exhausted(faults, false)
    ensures r.Ok? ==> r.value == IsAvailable(db.orders, itemId, fromDate, toDate, orderId)
    ensures !r.Ok? ==> r == ServerError(Retry.TimeoutMessage)
  {
    var exit, _ := Retry.RetryLoop(faults, false);
    match exit
    case Completed =>
      r := Ok(IsAvailable(db.orders, itemId, fromDate, toDate, orderId));
    case TimedOut =>
      r := ServerError(Retry.TimeoutMessage);
    case FellThrough =>
      assert false;
      r := ServerError(Retry.UnexpectedMessage);
  }

  // ================= UNAVAILABLE DATES =================

  /** `BookingDateDto`. */
  datatype BookingDate = BookingDate(fromDate: DateTime, toDate: DateTime)

  function RangeOf(o: Order): BookingDate {
    BookingDate(o.fromDate, o.toDate)
  }

  /** `Where(o => o.ItemId == itemId).Select(o => new BookingDateDto { ... })`. */
  function BookedRanges(orders: seq<Order>, itemId: int): (r: seq<BookingDate>)
    ensures |r| == |Filter(orders, OfItem(itemId))|
  {
    var booked := Filter(orders, OfItem(itemId));
    seq(|booked|, i requires 0 <= i < |booked| => RangeOf(booked[i]))
  }

  /** The ranges are those of the item's orders, past or future, and of no other order. */
  lemma BookedRangesExact(orders: seq<Order>, itemId: int)
    ensures forall b :: b in BookedRanges(orders, itemId) <==>
      exists o :: o in orders && o.itemId == itemId && RangeOf(o) == b
    ensures |BookedRanges(orders, itemId)| <= |orders|
  {
    var booked := Filter(orders, OfItem(itemId));
    var r := BookedRanges(orders, itemId);
    forall b | b in r
      ensures exists o :: o in orders && o.itemId == itemId && RangeOf(o) == b
    {
      var i :| 0 <= i < |r| && r[i] == b;
      assert booked[i] in multiset(booked);
    }
    forall o | o in orders && o.itemId == itemId
      ensures RangeOf(o) in r
    {
      assert o in multiset(orders);
      assert o in multiset(booked);
      var i :| 0 <= i < |booked| && booked[i] == o;
      assert r[i] == RangeOf(o);
    }
  }

  /** Availability with nothing excluded is "no booked range of the item overlaps the request". */
  lemma AvailableIffNoBookedRangeOverlaps(orders: seq<Order>, itemId: int, fromDate: DateTime, toDate: DateTime)
    ensures IsAvailable(orders, itemId, fromDate, toDate, 0) <==>
      forall b :: b in BookedRanges(orders, itemId) ==> !Overlaps(b.fromDate, b.toDate, fromDate, toDate)
  {
    BookedRangesExact(orders, itemId);
    AvailableIffNoConflictingOrder(orders, itemId, fromDate, toDate, 0);
    var r := BookedRanges(orders, itemId);
    if IsAvailable(orders, itemId, fromDate, toDate, 0) {
      forall b | b in r
        ensures !Overlaps(b.fromDate, b.toDate, fromDate, toDate)
      {
        var o :| o in orders && o.itemId == itemId && RangeOf(o) == b;
        assert !Conflicts(o, itemId, fromDate, toDate, 0);
      }
    } else {
      var o :| o in orders && Conflicts(o, itemId, fromDate, toDate, 0);
      assert RangeOf(o) in r;
    }
  }

  method GetUnavailableDates(db: Database, itemId: int, faults: seq<bool>) returns (r: ActionResult<seq<BookingDate>>)
    ensures r.BadRequest? <==> itemId <= 0
    ensures r.BadRequest? ==> r.message == "Invalid itemId"
    ensures r.ServerError? <==> 0 < itemId && Retry.Exhausted(faults, false)
    ensures r.ServerError? ==> r.message == Retry.TimeoutMessage
    ensures r.Ok? ==> r.value == BookedRanges(db.orders, itemId)
    ensures !r.NotFound?
  {
    // The itemId check opens the try block and precedes every database call, so the first
    // attempt returns it.
    if itemId <= 0 {
      return BadRequest("Invalid itemId");
    }
    var exit, _ := Retry.RetryLoop(faults, false);
    match exit
    case Completed =>
      r := Ok(BookedRanges(db.orders, itemId));
    case TimedOut =>
      r := ServerError(Retry.TimeoutMessage);
    case FellThrough =>
      assert false;
      r := ServerError(Retry.UnexpectedMessage);
  }

  // ================= CACHE HELPER =================

  /** `ClearMonthlyCache`: the month keys it removes, from `fromDate`'s month to `toDate`'s. */
  method ClearMonthlyCache(fromDate: DateTime, toDate: DateTime) returns (removed: seq<YearMonth>)
    ensures removed == MonthRange(MonthOf(fromDate), MonthOf(toDate))
  {
    var first := MonthIndex(MonthOf(fromDate));
    var last := MonthIndex(MonthOf(toDate));
    var current := MonthStart(MonthOf(fromDate));
    var end := MonthStart(MonthOf(toDate));
    MonthAtIndex(MonthOf(fromDate));
    MonthAtIndex(MonthOf(toDate));
    removed := [];
    while Le(current, end)
      invariant |removed| <= if last < first then 0 else last - first + 1
      invariant forall i :: 0 <= i < |removed| ==> removed[i] == MonthAt(first + i)
      invariant current == MonthStart(MonthAt(first + |removed|))
      decreases last - first - |removed| + 1
    {
      MonthStartOrder(MonthOf(current), MonthOf(toDate));
      removed := removed + [MonthOf(current)];
      MonthIndexInjective(NextMonth(MonthOf(current)), MonthAt(first + |removed|));
      current := MonthStart(NextMonth(MonthOf(current)));
    }
    MonthStartOrder(MonthOf(current), MonthOf(toDate));
  }
}
