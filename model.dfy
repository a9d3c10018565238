/** The records of RentalHub (Model/Order.cs, Model/Item.cs, DTO/CreateOrderRequest.cs), the
    results controller actions return, and the database the controllers read and write. */
module Model {
  import opened Wrappers
  import opened Dates
  import opened Seqs
  import opened DotNetText

  /** A `decimal` amount in hundredths: `numeric(10,2)` amounts subtract exactly. */
  type Money = int

  datatype Order = Order(
    orderId: int,
    itemId: int,
    clientName: string,
    village: string,
    fromDate: DateTime,
    toDate: DateTime,
    rent: Money,
    advanceTakenBy: Option<int>,
    advance: Money,
    remaining: Money,
    remainingTakenBy: Option<int>,
    remainingAmount: Option<Money>,
    remark: Option<string>,
    mobileNumber: string,
    createdDate: DateTime)

  datatype CreateOrderRequest = CreateOrderRequest(
    itemId: int,
    clientName: string,
    village: string,
    fromDate: DateTime,
    toDate: DateTime,
    rent: Money,
    advanceTakenBy: Option<int>,
    advance: Money,
    remainingTakenBy: Option<int>,
    remainingAmount: Option<Money>,
    remark: Option<string>,
    mobileNumber: string)

  /** The request fields an order carries. */
  function RequestOf(o: Order): CreateOrderRequest {
    CreateOrderRequest(o.itemId, o.clientName, o.village, o.fromDate, o.toDate, o.rent,
      o.advanceTakenBy, o.advance, o.remainingTakenBy, o.remainingAmount, o.remark, o.mobileNumber)
  }

  datatype Item = Item(
    itemId: int,
    itemCode: string,
    itemName: string,
    photoUrl: Option<string>,
    isActive: bool,
    createdDate: DateTime)

  /** The body of `POST api/items`. */
  datatype ItemCreateDto = ItemCreateDto(itemCode: string, itemName: string, photoUrl: Option<string>)

  /** An `IActionResult`: 200, 404, 400 or 500 with its payload. */
  datatype ActionResult<T> = Ok(value: T) | NotFound(message: string) | BadRequest(message: string) | ServerError(message: string)

  /** The `orders` and `items` tables with their identity sequences. */
  class Database {
    var orders: seq<Order>
    var items: seq<Item>
    var nextOrderId: int
    var nextItemId: int

    /** Identity keys are positive and unique, the unique index on `itemcode` holds, and
        every stored order's `Remaining` is its `Rent - Advance`. */
    ghost predicate Valid()
      reads this
    {
      0 < nextOrderId && 0 < nextItemId &&
      (forall i :: 0 <= i < |orders| ==>
         0 < orders[i].orderId < nextOrderId && orders[i].remaining == orders[i].rent - orders[i].advance) &&
      DistinctOrderIds(orders) &&
      (forall i :: 0 <= i < |items| ==> 0 < items[i].itemId < nextItemId) &&
      (forall i, j :: 0 <= i < j < |items| ==>
         items[i].itemId != items[j].itemId && items[i].itemCode != items[j].itemCode)
    }

    constructor ()
      ensures Valid() && orders == [] && items == []
    {
      orders, items := [], [];
      nextOrderId, nextItemId := 1, 1;
    }
  }

  /** `orderid` is the primary key of the orders table. */
  ghost predicate DistinctOrderIds(orders: seq<Order>) {
    forall i, j :: 0 <= i < j < |orders| ==> orders[i].orderId != orders[j].orderId
  }

  /** `FindAsync(orderId)`: the position of the order with that key, or -1. */
  function OrderIndex(orders: seq<Order>, orderId: int): (i: int)
    ensures -1 <= i < |orders|
    ensures 0 <= i ==> orders[i].orderId == orderId
    ensures i < 0 <==> forall j :: 0 <= j < |orders| ==> orders[j].orderId != orderId
  {
    if orders == [] then -1
    else if orders[|orders| - 1].orderId == orderId then |orders| - 1
    else OrderIndex(orders[..|orders| - 1], orderId)
  }

  // ---------------------------------------------------------------- the active-item listing

  /** `_baseUrl + "item-images/no-image.svg"`, shown for items without a photo. */
  function PlaceholderPhoto(baseUrl: string): (url: string)
    ensures !IsNullOrWhiteSpace(Some(url))
  {
    assert (baseUrl + "item-images/no-image.svg")[|baseUrl|] == 'i';
    baseUrl + "item-images/no-image.svg"
  }

  function IsActiveItem(x: Item): bool {
    x.isActive
  }

  function NewerFirst(a: Item, b: Item): bool {
    Le(b.createdDate, a.createdDate)
  }

  lemma NewerFirstIsPreorder()
    ensures TotalPreorder(NewerFirst)
  {
    forall a: Item, b: Item, c: Item
      ensures NewerFirst(a, b) || NewerFirst(b, a)
      ensures NewerFirst(a, b) && NewerFirst(b, c) ==> NewerFirst(a, c)
    {
      LeIsTotalOrder(c.createdDate, b.createdDate, a.createdDate);
    }
  }

  /** `Where(x => x.IsActive).OrderByDescending(x => x.CreatedDate)`: every active item, with its
      multiplicity, and nothing else, newest first. */
  function ActiveByNewest(items: seq<Item>): (r: seq<Item>)
    ensures Sorted(r, NewerFirst)
    ensures forall x :: multiset(r)[x] == if x.isActive then multiset(items)[x] else 0
  {
    NewerFirstIsPreorder();
    SortBy(Filter(items, IsActiveItem), NewerFirst)
  }

  /** The listing query keeps exactly the active items. */
  lemma ActiveByNewestMembers(items: seq<Item>)
    ensures forall x :: x in ActiveByNewest(items) <==> x in items && x.isActive
  {
    var r := ActiveByNewest(items);
    forall x
      ensures x in r <==> x in items && x.isActive
    {
      assert x in r <==> x in multiset(r);
      assert x in items <==> x in multiset(items);
    }
  }
}
