/** Services/ItemQueryService.cs: the active-item read over Dapper behind a three-attempt retry,
    and the in-place substitution of the placeholder photo. */
module ItemQueryService {
  import opened Wrappers
  import opened Dates
  import opened DotNetText
  import opened Model
  import ItemsController

  /** What one call of an action gives: its value, or the exception it threw. */
  datatype Outcome<T> = Value(value: T) | Thrown(error: string)

  /** `ExecuteWithRetry`: `action(k)` is what the `k`-th call (from 1) gives. A failure on the
      first or second call is caught and retried; the `when (attempt < 3)` filter lets the third
      failure escape unchanged, so the closing `throw` is never reached. */
  method ExecuteWithRetry<T>(action: nat -> Outcome<T>) returns (r: Outcome<T>, calls: nat)
    ensures 1 <= calls <= 3
    ensures r == action(calls)
    ensures forall k :: 1 <= k < calls ==> action(k).Thrown?
    ensures r.Thrown? ==> calls == 3
    ensures r.Thrown? <==> forall k :: 1 <= k <= 3 ==> action(k).Thrown?
  {
    var attempt: nat := 1;
    while attempt <= 3
      invariant 1 <= attempt <= 3
      invariant forall k :: 1 <= k < attempt ==> action(k).Thrown?
    {
      var outcome := action(attempt);
      if outcome.Value? {
        return outcome, attempt;
      }
      if !(attempt < 3) {
        return outcome, attempt;
      }
      // await Task.Delay(1000): waiting has no effect on the model
      attempt := attempt + 1;
    }
    assert false;
    return Thrown("DB operation failed after retries"), attempt;
  }

  /** One row of the query read into an `Item`: `COALESCE(photourl, '')`, `LPAD(itemcode, 3, '0')`;
      the columns the query does not select keep the defaults of a new `Item`. */
  function QueryRow(x: Item, now: DateTime): (y: Item)
    ensures y.itemId == x.itemId && y.itemName == x.itemName
    ensures x.photoUrl.Some? ==> y.photoUrl == x.photoUrl
    ensures x.photoUrl.None? ==> y.photoUrl == Some("")
    ensures |y.itemCode| == 3
    ensures |x.itemCode| >= 3 ==> y.itemCode == x.itemCode[..3]
    ensures |x.itemCode| < 3 ==> y.itemCode[3 - |x.itemCode|..] == x.itemCode
    ensures forall i :: 0 <= i < 3 - |x.itemCode| ==> y.itemCode[i] == '0'
    ensures y.isActive && y.createdDate == now
  {
    var photo := if x.photoUrl.Some? then x.photoUrl.value else "";
    Item(x.itemId, Lpad(x.itemCode, 3, '0'), x.itemName, Some(photo), true, now)
  }

  /** The rows of the query: active items, newest first. */
  function ActiveItemsQuery(items: seq<Item>, now: DateTime): (r: seq<Item>)
    ensures |r| == |ActiveByNewest(items)|
    ensures forall i :: 0 <= i < |r| ==> r[i] == QueryRow(ActiveByNewest(items)[i], now)
    ensures forall i :: 0 <= i < |r| ==> r[i].photoUrl.Some? && |r[i].itemCode| == 3
  {
    var active := ActiveByNewest(items);
    seq(|active|, i requires 0 <= i < |active| => QueryRow(active[i], now))
  }

  /** The body of the `ForEach`: a blank photo becomes the placeholder, nothing else changes. */
  function FillPhoto(x: Item, baseUrl: string): (y: Item)
    ensures y.(photoUrl := x.photoUrl) == x
    ensures !IsNullOrWhiteSpace(y.photoUrl)
    ensures IsNullOrWhiteSpace(x.photoUrl) ==> y.photoUrl == Some(PlaceholderPhoto(baseUrl))
    ensures !IsNullOrWhiteSpace(x.photoUrl) ==> y == x
  {
    if IsNullOrWhiteSpace(x.photoUrl) then x.(photoUrl := Some(PlaceholderPhoto(baseUrl))) else x
  }

  lemma FillPhotoIdempotent(x: Item, baseUrl: string)
    ensures FillPhoto(FillPhoto(x, baseUrl), baseUrl) == FillPhoto(x, baseUrl)
  {
  }

  /** `items.ForEach(...)` over the materialised list: each element is filled in place; the
      length and the order stay. */
  method FillPlaceholders(a: array<Item>, baseUrl: string)
    modifies a
    ensures forall i :: 0 <= i < a.Length ==> a[i] == FillPhoto(old(a[i]), baseUrl)
  {
    for i := 0 to a.Length
      invariant forall j :: 0 <= j < i ==> a[j] == FillPhoto(old(a[j]), baseUrl)
      invariant forall j :: i <= j < a.Length ==> a[j] == old(a[j])
    {
      if IsNullOrWhiteSpace(a[i].photoUrl) {
        a[i] := a[i].(photoUrl := Some(PlaceholderPhoto(baseUrl)));
      }
    }
  }

  /** The list after the `ForEach`. */
  function FillAll(rows: seq<Item>, baseUrl: string): seq<Item> {
    seq(|rows|, i requires 0 <= i < |rows| => FillPhoto(rows[i], baseUrl))
  }

  /** What `GetActiveItemsAsync` returns: the query rows with their photos filled. */
  function ServiceListing(items: seq<Item>, baseUrl: string, now: DateTime): (r: seq<Item>)
    ensures |r| == |ActiveByNewest(items)|
    ensures forall i :: 0 <= i < |r| ==> r[i] == FillPhoto(QueryRow(ActiveByNewest(items)[i], now), baseUrl)
    ensures forall i :: 0 <= i < |r| ==> !IsNullOrWhiteSpace(r[i].photoUrl) && |r[i].itemCode| == 3
  {
    FillAll(ActiveItemsQuery(items, now), baseUrl)
  }

  /** The materialised `List<Item>` and its in-place post-processing. */
  method PostProcess(rows: seq<Item>, baseUrl: string) returns (filled: seq<Item>)
    ensures filled == FillAll(rows, baseUrl)
  {
    var a := new Item[|rows|](i requires 0 <= i < |rows| => rows[i]);
    assert a[..] == rows;
    FillPlaceholders(a, baseUrl);
    filled := a[..];
  }

  /** `GetActiveItemsAsync`: `failures(k)` is the exception the `k`-th query attempt throws, if
      any. The first good attempt's rows are post-processed; three failures propagate the third. */
  method GetActiveItemsAsync(db: Database, baseUrl: string, now: DateTime, failures: nat -> Option<string>)
    returns (r: Outcome<seq<Item>>)
    ensures r.Value? <==> exists k :: 1 <= k <= 3 && failures(k).None?
    ensures r.Value? ==> r.value == ServiceListing(db.items, baseUrl, now)
    ensures r.Thrown? ==> failures(3) == Some(r.error)
  {
    var rows := ActiveItemsQuery(db.items, now);
    var action := (k: nat) => if failures(k).Some? then Thrown(failures(k).value) else Value(rows);
    var outcome, calls := ExecuteWithRetry(action);
    if outcome.Thrown? {
      assert forall k :: 1 <= k <= 3 ==> action(k).Thrown? ==> failures(k).Some?;
      return outcome;
    }
    assert failures(calls).None? && outcome.value == rows;
    var filled := PostProcess(outcome.value, baseUrl);
    r := Value(filled);
  }

  /** The service and `GET api/items` list the same items exactly when no active item's code is
      longer than three characters: LPAD truncates where `PadLeft` does not. */
  lemma ListingsAgree(items: seq<Item>, baseUrl: string, now: DateTime)
    ensures ServiceListing(items, baseUrl, now) == ItemsController.Listing(items, baseUrl, now) <==>
      forall x :: x in items && x.isActive ==> |x.itemCode| <= 3
  {
    if forall x :: x in items && x.isActive ==> |x.itemCode| <= 3 {
      ShortCodesAgree(items, baseUrl, now);
    } else {
      var x :| x in items && x.isActive && |x.itemCode| > 3;
      LongCodeDiffers(items, baseUrl, now, x);
    }
  }

  lemma ShortCodesAgree(items: seq<Item>, baseUrl: string, now: DateTime)
    requires forall x :: x in items && x.isActive ==> |x.itemCode| <= 3
    ensures ServiceListing(items, baseUrl, now) == ItemsController.Listing(items, baseUrl, now)
  {
    var active := ActiveByNewest(items);
    var service := ServiceListing(items, baseUrl, now);
    var controller := ItemsController.Listing(items, baseUrl, now);
    ActiveByNewestMembers(items);
    forall i | 0 <= i < |active|
      ensures service[i] == controller[i]
    {
      assert active[i] in active;
      RowsAgree(active[i], baseUrl, now);
    }
  }

  lemma LongCodeDiffers(items: seq<Item>, baseUrl: string, now: DateTime, x: Item)
    requires x in items && x.isActive && |x.itemCode| > 3
    ensures ServiceListing(items, baseUrl, now) != ItemsController.Listing(items, baseUrl, now)
  {
    var active := ActiveByNewest(items);
    var service := ServiceListing(items, baseUrl, now);
    var controller := ItemsController.Listing(items, baseUrl, now);
    ActiveByNewestMembers(items);
    var i :| 0 <= i < |active| && active[i] == x;
    assert |service[i].itemCode| == 3 < |controller[i].itemCode|;
  }

  lemma RowsAgree(x: Item, baseUrl: string, now: DateTime)
    requires |x.itemCode| <= 3
    ensures FillPhoto(QueryRow(x, now), baseUrl) == ItemsController.ListedItem(x, baseUrl, now)
  {
    var q := QueryRow(x, now);
    assert IsNullOrWhiteSpace(q.photoUrl) <==> IsNullOrWhiteSpace(x.photoUrl);
  }

  /** Under LPAD the codes "1000" and "100" are listed alike. */
  lemma LpadCodesCollide()
    ensures Lpad("1000", 3, '0') == Lpad("100", 3, '0') == "100"
  {
  }
}
