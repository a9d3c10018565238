/** `api/items` (Controllers/ItemsController.cs): the active-item listing, creation, soft
    deletion, the guard against deleting booked items, the code check and the suggested next
    item code. */
module ItemsController {
  import opened Wrappers
  import opened Dates
  import opened Seqs
  import opened DotNetText
  import opened Model
  import OrdersController
  import Retry

  // ================= LISTING =================

  /** The projection of `GetAll`: a blank photo becomes the placeholder image, the code is
      left-padded with zeros to three characters, and the fields the projection does not set
      keep the defaults of a new `Item` (active, created now). */
  function ListedItem(x: Item, baseUrl: string, now: DateTime): (y: Item)
    ensures y.itemId == x.itemId && y.itemName == x.itemName
    ensures !IsNullOrWhiteSpace(y.photoUrl)
    ensures IsNullOrWhiteSpace(x.photoUrl) ==> y.photoUrl == Some(PlaceholderPhoto(baseUrl))
    ensures !IsNullOrWhiteSpace(x.photoUrl) ==> y.photoUrl == x.photoUrl
    ensures |y.itemCode| == if |x.itemCode| < 3 then 3 else |x.itemCode|
    ensures y.itemCode[|y.itemCode| - |x.itemCode|..] == x.itemCode
    ensures forall i :: 0 <= i < |y.itemCode| - |x.itemCode| ==> y.itemCode[i] == '0'
    ensures |x.itemCode| >= 3 ==> y.itemCode == x.itemCode
    ensures y.isActive && y.createdDate == now
  {
    var photo := if IsNullOrWhiteSpace(x.photoUrl) then Some(PlaceholderPhoto(baseUrl)) else x.photoUrl;
    Item(x.itemId, PadLeft(x.itemCode, 3, '0'), x.itemName, photo, true, now)
  }

  /** The list `GetAll` answers: the active items, newest first, projected. */
  function Listing(items: seq<Item>, baseUrl: string, now: DateTime): (r: seq<Item>)
    ensures |r| == |ActiveByNewest(items)|
    ensures forall i :: 0 <= i < |r| ==> r[i].itemId == ActiveByNewest(items)[i].itemId
  {
    var active := ActiveByNewest(items);
    seq(|active|, i requires 0 <= i < |active| => ListedItem(active[i], baseUrl, now))
  }

  /** The listing shows every active item and nothing else. */
  lemma ListingExact(items: seq<Item>, baseUrl: string, now: DateTime)
    ensures forall y :: y in Listing(items, baseUrl, now) <==>
      exists x :: x in items && x.isActive && y == ListedItem(x, baseUrl, now)
  {
    forall y | y in Listing(items, baseUrl, now)
      ensures exists x :: x in items && x.isActive && y == ListedItem(x, baseUrl, now)
    {
      ListedRowIsActive(items, baseUrl, now, y);
    }
    forall x | x in items && x.isActive
      ensures ListedItem(x, baseUrl, now) in Listing(items, baseUrl, now)
    {
      ActiveItemIsListed(items, baseUrl, now, x);
    }
  }

  lemma ListedRowIsActive(items: seq<Item>, baseUrl: string, now: DateTime, y: Item)
    requires y in Listing(items, baseUrl, now)
    ensures exists x :: x in items && x.isActive && y == ListedItem(x, baseUrl, now)
  {
    var active := ActiveByNewest(items);
    var r := Listing(items, baseUrl, now);
    ActiveByNewestMembers(items);
    var i :| 0 <= i < |r| && r[i] == y;
    assert active[i] in active;
  }

  lemma ActiveItemIsListed(items: seq<Item>, baseUrl: string, now: DateTime, x: Item)
    requires x in items && x.isActive
    ensures ListedItem(x, baseUrl, now) in Listing(items, baseUrl, now)
  {
    var active := ActiveByNewest(items);
    var r := Listing(items, baseUrl, now);
    ActiveByNewestMembers(items);
    var i :| 0 <= i < |active| && active[i] == x;
    assert r[i] == ListedItem(x, baseUrl, now);
  }

  method GetAll(db: Database, baseUrl: string, now: DateTime, faults: seq<bool>) returns (r: ActionResult<seq<Item>>)
    ensures r.Ok? <==> !Retry.Exhausted(faults, false)
    ensures r.Ok? ==> r.value == Listing(db.items, baseUrl, now)
    ensures !r.Ok? ==> r == ServerError(Retry.TimeoutMessage)
  {
    var exit, _ := Retry.RetryLoop(faults, false);
    match exit
    case Completed =>
      r := Ok(Listing(db.items, baseUrl, now));
    case TimedOut =>
      r := ServerError(Retry.TimeoutMessage);
    case FellThrough =>
      assert false;
      r := ServerError(Retry.UnexpectedMessage);
  }

  // ================= CREATE =================

  /** The entity `Create` adds: the body's fields, active, stamped `now`; the key is the store's. */
  function NewItem(dto: ItemCreateDto, itemId: int, now: DateTime): Item {
    Item(itemId, dto.itemCode, dto.itemName, dto.photoUrl, true, now)
  }

  predicate CodeInUse(items: seq<Item>, code: string) {
    exists i :: 0 <= i < |items| && items[i].itemCode == code
  }

  /** The unique index on `itemcode`. */
  predicate DistinctCodes(items: seq<Item>) {
    forall i, j :: 0 <= i < j < |items| ==> items[i].itemCode != items[j].itemCode
  }

  /** The identities the database assigns to a batch of added items. */
  function NumberedItems(pending: seq<Item>, firstId: int): (s: seq<Item>)
    ensures |s| == |pending|
    ensures forall j :: 0 <= j < |s| ==> s[j] == pending[j].(itemId := firstId + j)
  {
    seq(|pending|, j requires 0 <= j < |pending| => pending[j].(itemId := firstId + j))
  }

  /** One new item can be stored exactly when its code is free. */
  lemma SingleInsertUnique(items: seq<Item>, x: Item)
    requires DistinctCodes(items)
    ensures DistinctCodes(items + [x]) <==> !CodeInUse(items, x.itemCode)
  {
    if CodeInUse(items, x.itemCode) {
      var i :| 0 <= i < |items| && items[i].itemCode == x.itemCode;
      assert (items + [x])[i].itemCode == (items + [x])[|items|].itemCode;
    }
  }

  /** A batch holding two copies of one code can never be stored. */
  lemma DuplicateBatchRejected(items: seq<Item>, batch: seq<Item>)
    requires 2 <= |batch| && batch[0].itemCode == batch[1].itemCode
    ensures !DistinctCodes(items + batch)
  {
    assert (items + batch)[|items|] == batch[0] && (items + batch)[|items| + 1] == batch[1];
  }

  /** `POST api/items` as written. Only a first attempt can succeed: the item added by a failed
      attempt stays tracked, so every later save inserts two items with the same code and breaks
      the unique index, and a code already in use fails every attempt. Both failures end in the
      500 timeout answer, since the inner `catch (Exception)` also takes the `DbUpdateException`
      meant for the 400 "Item code already exists". `clock(k)` is the `UtcNow` of attempt `k`. */
  method Create(db: Database, dto: ItemCreateDto, clock: nat -> DateTime, faults: seq<bool>) returns (r: ActionResult<Item>)
    requires db.Valid()
    modifies db
    ensures db.Valid()
    ensures !r.BadRequest? && !r.NotFound?
    ensures r.Ok? <==> !Retry.Faults(faults, 0) && !CodeInUse(old(db.items), dto.itemCode)
    ensures r.Ok? ==> r.value == NewItem(dto, old(db.nextItemId), clock(0)) && db.items == old(db.items) + [r.value]
    ensures r.Ok? ==> db.nextItemId == old(db.nextItemId) + 1
    ensures !r.Ok? ==> r == ServerError(Retry.TimeoutMessage) && db.items == old(db.items)
    ensures !r.Ok? ==> db.nextItemId == old(db.nextItemId)
    ensures db.orders == old(db.orders) && db.nextOrderId == old(db.nextOrderId)
  {
    assert DistinctCodes(db.items);
    var retryCount: nat := 0;
    var maxRetries := Retry.MaxRetries;
    var pending: seq<Item> := [];
    while retryCount < maxRetries
      invariant 0 <= retryCount < maxRetries
      invariant |pending| == retryCount
      invariant forall j :: 0 <= j < retryCount ==> pending[j].itemCode == dto.itemCode
      invariant 0 < retryCount ==> Retry.Faults(faults, 0) || CodeInUse(old(db.items), dto.itemCode)
      invariant db.items == old(db.items) && db.nextItemId == old(db.nextItemId)
      invariant db.orders == old(db.orders) && db.nextOrderId == old(db.nextOrderId)
    {
      // _db.Items.Add(item)
      pending := pending + [NewItem(dto, 0, clock(retryCount))];
      var batch := NumberedItems(pending, db.nextItemId);
      if 0 < retryCount {
        DuplicateBatchRejected(db.items, batch);
      } else {
        assert batch == [NewItem(dto, db.nextItemId, clock(0))];
        SingleInsertUnique(db.items, batch[0]);
      }
      if !Retry.Faults(faults, retryCount) && DistinctCodes(db.items + batch) {
        // SaveChangesAsync inserts every item still in the Added state
        var item := batch[0];
        db.items := db.items + [item];
        db.nextItemId := db.nextItemId + 1;
        return Ok(item);
      }
      retryCount := retryCount + 1;
      if retryCount >= maxRetries {
        return ServerError(Retry.TimeoutMessage);
      }
    }
    assert false;
    return ServerError(Retry.UnexpectedMessage);
  }

  /** The create the handlers were written for: transient faults are retried, and a taken code
      answers 400 "Item code already exists" with nothing stored. */
  method CreateCorrected(db: Database, dto: ItemCreateDto, now: DateTime, faults: seq<bool>) returns (r: ActionResult<Item>)
    requires db.Valid()
    modifies db
    ensures db.Valid()
    ensures r.BadRequest? <==> !Retry.Exhausted(faults, false) && CodeInUse(old(db.items), dto.itemCode)
    ensures r.BadRequest? ==> r.message == "Item code already exists"
    ensures r.Ok? <==> !Retry.Exhausted(faults, false) && !CodeInUse(old(db.items), dto.itemCode)
    ensures r.Ok? ==> r.value == NewItem(dto, old(db.nextItemId), now) && db.items == old(db.items) + [r.value]
    ensures !r.Ok? ==> db.items == old(db.items)
    ensures r.ServerError? ==> r.message == Retry.TimeoutMessage
    ensures !r.NotFound?
    ensures db.orders == old(db.orders) && db.nextOrderId == old(db.nextOrderId)
  {
    var exit, _ := Retry.RetryLoop(faults, false);
    match exit
    case Completed =>
      assert DistinctCodes(db.items);
      var item := NewItem(dto, db.nextItemId, now);
      SingleInsertUnique(db.items, item);
      if DistinctCodes(db.items + [item]) {
        db.items := db.items + [item];
        db.nextItemId := db.nextItemId + 1;
        r := Ok(item);
      } else {
        r := BadRequest("Item code already exists");
      }
    case TimedOut =>
      r := ServerError(Retry.TimeoutMessage);
    case FellThrough =>
      assert false;
      r := ServerError(Retry.UnexpectedMessage);
  }

  // ================= ORDER CHECK AND SOFT DELETE =================

  /** `_db.Orders.AnyAsync(o => o.ItemId == id)`. */
  predicate HasOrders(orders: seq<Order>, itemId: int) {
    exists i :: 0 <= i < |orders| && orders[i].itemId == itemId
  }

  /** An item has orders exactly when its unavailable-dates list is not empty. */
  lemma HasOrdersIffBooked(orders: seq<Order>, itemId: int)
    ensures HasOrders(orders, itemId) <==> OrdersController.BookedRanges(orders, itemId) != []
  {
    OrdersController.BookedRangesExact(orders, itemId);
    if HasOrders(orders, itemId) {
      var i :| 0 <= i < |orders| && orders[i].itemId == itemId;
      assert OrdersController.RangeOf(orders[i]) in OrdersController.BookedRanges(orders, itemId);
    }
  }

  /** `POST api/items/order-exists/{id}`: 400 while the item has orders, otherwise `Ok(false)`. */
  method OrderExists(db: Database, itemId: int, faults: seq<bool>) returns (r: ActionResult<bool>)
    ensures r.ServerError? <==> Retry.Exhausted(faults, false)
    ensures r.ServerError? ==> r.message == Retry.TimeoutMessage
    ensures r.BadRequest? <==> !Retry.Exhausted(faults, false) && HasOrders(db.orders, itemId)
    ensures r.BadRequest? ==> r.message == "This item can't be deleted because orders exist."
    ensures r.Ok? ==> !r.value
    ensures !r.NotFound?
  {
    var exit, _ := Retry.RetryLoop(faults, false);
    match exit
    case Completed =>
      var hasOrders := HasOrders(db.orders, itemId);
      if hasOrders {
        r := BadRequest("This item can't be deleted because orders exist.");
      } else {
        r := Ok(hasOrders);
      }
    case TimedOut =>
      r := ServerError(Retry.TimeoutMessage);
    case FellThrough =>
      assert false;
      r := ServerError(Retry.UnexpectedMessage);
  }

  /** `ExecuteUpdateAsync(IsActive = false)` on the rows with that key: the flag is the only
      column that changes, and an item ends active only if it was and has another key. */
  function Deactivate(items: seq<Item>, itemId: int): (r: seq<Item>)
    ensures |r| == |items|
    ensures forall i :: 0 <= i < |r| ==>
      r[i] == items[i].(isActive := r[i].isActive) &&
      (r[i].isActive <==> items[i].isActive && items[i].itemId != itemId)
  {
    seq(|items|, i requires 0 <= i < |items| => if items[i].itemId == itemId then items[i].(isActive := false) else items[i])
  }

  lemma DeactivateIdempotent(items: seq<Item>, itemId: int)
    ensures Deactivate(Deactivate(items, itemId), itemId) == Deactivate(items, itemId)
  {
    var once := Deactivate(items, itemId);
    var twice := Deactivate(once, itemId);
    assert forall i :: 0 <= i < |items| ==> twice[i] == once[i];
  }

  /** A key no item has leaves the table as it was (and the action still answers 200). */
  lemma DeactivateMissingKey(items: seq<Item>, itemId: int)
    requires forall i :: 0 <= i < |items| ==> items[i].itemId != itemId
    ensures Deactivate(items, itemId) == items
  {
    var r := Deactivate(items, itemId);
    assert forall i :: 0 <= i < |items| ==> r[i] == items[i];
  }

  /** After a soft delete the item drops out of the listing... */
  lemma DeletedItemNotListed(items: seq<Item>, itemId: int, baseUrl: string, now: DateTime)
    ensures forall y :: y in Listing(Deactivate(items, itemId), baseUrl, now) ==> y.itemId != itemId
  {
    var d := Deactivate(items, itemId);
    ListingExact(d, baseUrl, now);
    forall y | y in Listing(d, baseUrl, now)
      ensures y.itemId != itemId
    {
      var x :| x in d && x.isActive && y == ListedItem(x, baseUrl, now);
      var i :| 0 <= i < |d| && d[i] == x;
    }
  }

  /** ...and every other active item stays listed. */
  lemma OtherItemsStillListed(items: seq<Item>, itemId: int, baseUrl: string, now: DateTime)
    ensures forall x :: x in items && x.isActive && x.itemId != itemId ==>
      ListedItem(x, baseUrl, now) in Listing(Deactivate(items, itemId), baseUrl, now)
  {
    var d := Deactivate(items, itemId);
    ListingExact(d, baseUrl, now);
    forall x | x in items && x.isActive && x.itemId != itemId
      ensures x in d
    {
      var i :| 0 <= i < |items| && items[i] == x;
      assert d[i] == x;
    }
  }

  /** `DELETE api/items/{id}`: a soft delete that answers 200 whether or not the key exists;
      orders of the item are kept. */
  method Delete(db: Database, itemId: int, faults: seq<bool>) returns (r: ActionResult<string>)
    requires db.Valid()
    modifies db
    ensures db.Valid()
    ensures r.Ok? <==> !Retry.Exhausted(faults, false)
    ensures r.Ok? ==> r.value == "Item deactivated" && db.items == Deactivate(old(db.items), itemId)
    ensures !r.Ok? ==> r == ServerError(Retry.TimeoutMessage) && db.items == old(db.items)
    ensures db.orders == old(db.orders) && db.nextOrderId == old(db.nextOrderId) && db.nextItemId == old(db.nextItemId)
  {
    var exit, _ := Retry.RetryLoop(faults, false);
    match exit
    case Completed =>
      db.items := Deactivate(db.items, itemId);
      r := Ok("Item deactivated");
    case TimedOut =>
      r := ServerError(Retry.TimeoutMessage);
    case FellThrough =>
      assert false;
      r := ServerError(Retry.UnexpectedMessage);
  }

  // ================= CODE CHECK =================

  /** The `AnyAsync` of `CodeValidate`: an active item, other than `itemId` when that is not 0,
      stores exactly the text `itemCode`. */
  predicate CodeTaken(items: seq<Item>, itemCode: string, itemId: int) {
    exists i :: 0 <= i < |items| && items[i].isActive && items[i].itemCode == itemCode && (itemId == 0 || items[i].itemId != itemId)
  }

  /** `GET api/items/code-exists?code=&itemId=`: the number is formatted with `ToString("D3")`
      and compared as text. */
  method CodeValidate(db: Database, code: Int32, itemId: Int32, faults: seq<bool>) returns (r: ActionResult<bool>)
    ensures r.Ok? <==> !Retry.Exhausted(faults, false)
    ensures r.Ok? ==> r.value == CodeTaken(db.items, FormatD(code, 3), itemId)
    ensures !r.Ok? ==> r == ServerError(Retry.TimeoutMessage)
  {
    var exit, _ := Retry.RetryLoop(faults, false);
    match exit
    case Completed =>
      var itemCode := FormatD(code, 3);
      r := Ok(CodeTaken(db.items, itemCode, itemId));
    case TimedOut =>
      r := ServerError(Retry.TimeoutMessage);
    case FellThrough =>
      assert false;
      r := ServerError(Retry.UnexpectedMessage);
  }

  /** A reported code belongs to an active item whose stored text reads back as that number;
      stored codes shorter than three characters ("7") are never reported. */
  lemma CodeTakenMeaning(items: seq<Item>, code: Int32, itemId: int)
    requires CodeTaken(items, FormatD(code, 3), itemId)
    ensures exists i :: (0 <= i < |items| && items[i].isActive && |items[i].itemCode| >= 3 &&
      ParseInt32(items[i].itemCode) == Some(code))
  {
    var i :| 0 <= i < |items| && items[i].isActive && items[i].itemCode == FormatD(code, 3) && (itemId == 0 || items[i].itemId != itemId);
    FormatDReadsBack(code, 3);
  }

  // ================= NEXT ITEM CODE =================

  /** Every stored code reads as an `int` (`CAST(itemcode AS integer)` in the query, then
      `Convert.ToInt32` on the row). */
  predicate Parsable(items: seq<Item>) {
    forall i :: 0 <= i < |items| ==> ParseInt32(items[i].itemCode).Some?
  }

  /** The attempt throws on the present data: no row (a null dereference) or a code that is not
      an `int`. */
  predicate NextCodeFails(items: seq<Item>) {
    items == [] || !Parsable(items)
  }

  /** The `int` value of every stored code, in store order. */
  function CodeValues(items: seq<Item>): (v: seq<Int32>)
    requires Parsable(items)
    ensures |v| == |items|
    ensures forall i :: 0 <= i < |items| ==> v[i] == ParseInt32(items[i].itemCode).value
  {
    if items == [] then []
    else
      var init := items[..|items| - 1];
      assert Parsable(init) by {
        forall i | 0 <= i < |init| ensures ParseInt32(init[i].itemCode).Some? {
          assert init[i] == items[i];
        }
      }
      CodeValues(init) + [ParseInt32(items[|items| - 1].itemCode).value]
  }

  /** The largest value of a non-empty sequence. */
  function MaxOf(v: seq<Int32>): (m: Int32)
    requires v != []
    ensures forall i :: 0 <= i < |v| ==> v[i] <= m
    ensures exists i :: 0 <= i < |v| && v[i] == m
  {
    if |v| == 1 then v[0]
    else
      var rest := MaxOf(v[1..]);
      assert forall i :: 1 <= i < |v| ==> v[i] == v[1..][i - 1];
      if v[0] < rest then rest else v[0]
  }

  /** The numeric value of the first row of `OrderByDescending(y => Convert.ToInt32(y.ItemCode))`,
      active or not. */
  function MaxCode(items: seq<Item>): (m: Int32)
    requires items != [] && Parsable(items)
    ensures forall i :: 0 <= i < |items| ==> ParseInt32(items[i].itemCode).value <= m
    ensures exists i :: 0 <= i < |items| && ParseInt32(items[i].itemCode).value == m
  {
    var v := CodeValues(items);
    var m := MaxOf(v);
    var i :| 0 <= i < |v| && v[i] == m;
    m
  }

  /** `(Convert.ToInt32(item.ItemCode) + 1).ToString("D3")`, the addition wrapping in 32 bits. */
  function NextItemCodeText(items: seq<Item>): (code: string)
    requires !NextCodeFails(items)
    ensures |code| >= 3
    ensures ParseInt32(code) == Some(Wrap32(MaxCode(items) + 1))
  {
    FormatDReadsBack(Wrap32(MaxCode(items) + 1), 3);
    FormatD(Wrap32(MaxCode(items) + 1), 3)
  }

  /** `GET api/items/next-itemcode` as written: with no item in the store every attempt
      dereferences null and the answer is the 500 timeout. */
  method GetNextItemCode(db: Database, faults: seq<bool>) returns (r: ActionResult<string>)
    ensures r.ServerError? <==> Retry.Exhausted(faults, NextCodeFails(db.items))
    ensures r.Ok? ==> !NextCodeFails(db.items) && r.value == NextItemCodeText(db.items)
    ensures !r.Ok? ==> r == ServerError(Retry.TimeoutMessage)
  {
    var exit, _ := Retry.RetryLoop(faults, NextCodeFails(db.items));
    match exit
    case Completed =>
      r := Ok(NextItemCodeText(db.items));
    case TimedOut =>
      r := ServerError(Retry.TimeoutMessage);
    case FellThrough =>
      assert false;
      r := ServerError(Retry.UnexpectedMessage);
  }

  /** Below the `int` limit the suggested code reads back as one more than the largest stored
      code, so no stored code, active or not, has its value or its text, and the code check
      does not report it. */
  lemma NextItemCodeFresh(items: seq<Item>, itemId: int)
    requires !NextCodeFails(items) && MaxCode(items) < Int32Max
    ensures ParseInt32(NextItemCodeText(items)) == Some(MaxCode(items) + 1)
    ensures forall i :: 0 <= i < |items| ==> ParseInt32(items[i].itemCode).value < MaxCode(items) + 1
    ensures forall i :: 0 <= i < |items| ==> items[i].itemCode != NextItemCodeText(items)
    ensures !CodeTaken(items, NextItemCodeText(items), itemId)
  {
    FormatDReadsBack(MaxCode(items) + 1, 3);
  }

  /** At the `int` limit the increment wraps and the suggestion is the most negative `int`. */
  lemma NextItemCodeWraps(items: seq<Item>)
    requires !NextCodeFails(items) && MaxCode(items) == Int32Max
    ensures NextItemCodeText(items) == FormatD(Int32Min, 3)
    ensures ParseInt32(NextItemCodeText(items)) == Some(Int32Min)
  {
    assert Wrap32(MaxCode(items) + 1) == Int32Min;
    FormatDReadsBack(Int32Min, 3);
  }

  /** The next code with an empty store starting the numbering at "001"; a stored code that
      does not read as an `int` is still an error. */
  function NextItemCodeCorrected(items: seq<Item>): (r: Option<string>)
    ensures r.None? <==> !Parsable(items)
    ensures items == [] ==> r == Some(FormatD(1, 3))
    ensures items != [] && Parsable(items) ==> r == Some(NextItemCodeText(items))
  {
    if !Parsable(items) then None
    else if items == [] then Some(FormatD(1, 3))
    else Some(NextItemCodeText(items))
  }

  /** With no items the written action has no answer but the 500, the corrected one "001". */
  lemma EmptyStoreNextCode()
    ensures NextCodeFails([])
    ensures Retry.Exhausted([], NextCodeFails([]))
    ensures NextItemCodeCorrected([]) == Some("001")
  {
    assert Digits(1) == "1";
    assert PadLeft("1", 3, '0') == "001";
  }
}
