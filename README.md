# RentalHub booking and catalogue rules in Dafny

RentalHub is an ASP.NET Core back end for a rental shop. It has rental orders (a client books
one item from one date to another) and a catalogue of items, each with a short numeric item
code. This project models the rules the controllers and services apply to those two tables,
and proves what the code promises about them.

The modelled rules are:

- **Orders** (`Controllers/OrdersController.cs`):
  - creating, replacing and deleting an order;
  - listing every order and an item's orders for a month;
  - the availability check, an inclusive overlap of closed date ranges;
  - an item's booked ranges;
  - the month enumeration of `ClearMonthlyCache`.
- **Items** (`Controllers/ItemsController.cs`):
  - the active-item listing, with its placeholder photo and `PadLeft(3, '0')` codes;
  - creation and soft deletion;
  - the guard "orders exist", the code-exists check and the suggested next item code.
- **Dapper read path** (`Services/ItemQueryService.cs`): the three-attempt `ExecuteWithRetry`,
  the SQL listing (`COALESCE`, `LPAD`) and the in-place placeholder substitution.
- **Storage** (`Services/SupabaseStorageService.cs`): the object path taken from a public image
  URL, and the delete URL built from it.

How the model is built:

- **Store.** `Model.Database` is a class holding both tables as sequences, with their identity
  counters. Its `Valid()` states the store's invariants:
  - keys are positive, unique and below the next identity;
  - item codes are unique (the unique index of `Data/RentalHubDbContext.cs:46-47`);
  - every stored order has `Remaining = Rent - Advance`.
- **Retry loop.** The modelled actions of both controllers run their work inside a
  `retryCount`/`maxRetries = 3` loop. (`RemoveImages`, `AuthController` and `UploadController`
  have none; they are not modelled.) The database is an oracle `faults: seq<bool>`: attempt
  `k` meets a transient fault exactly when `faults[k]` holds, and past the end of the sequence
  the database answers. `Retry.FirstSuccess` names the first attempt that succeeds.
  - `Retry.RetryLoop` models the loop once, for the actions whose attempt has no effect that
    outlives a failure: `GetAll`, `Delete`, `OrderExists`, `CodeValidate`, `GetNextItemCode`,
    `GetOrders`, `UpdateOrder`, `DeleteOrder`, `GetMonthOrders` and `GetUnavailableDates`, and
    for the corrected versions in "Findings".
  - `CreateOrder` (through `OrdersController.Attempts`) and `ItemsController.Create` write the
    loop out, because each attempt adds an entity that stays tracked after a failed save.
  - `CheckAvailability` writes it out too, because its loop is not the same: a successful
    query does not leave it (see "Findings").
- **Change tracker.** Where an action adds an entity and saves it (`CreateOrder`, `Create`),
  the EF Core change tracker is modelled. A failed `SaveChangesAsync` leaves the added entity in
  the Added state, so the next attempt's save inserts it again.
- **Clock and delays.** `DateTime.UtcNow` is a parameter, a per-attempt `clock` where each
  attempt reads it. `Task.Delay` has no effect in the model.
- **Values.**
  - Dates are values of `Dates.DateTime`, ordered chronologically.
  - Money is an integer number of hundredths.
  - Strings are sequences of Dafny `char`, which are Unicode scalar values. .NET strings are
    UTF-16 code units, so the two differ only outside the Basic Multilingual Plane.
  - `int` arithmetic that can overflow is wrapped explicitly (`DotNetText.Wrap32`).

The listing of `GET api/items` and the listing of the Dapper service pad item codes
differently, read as written: C# `PadLeft` never shortens a string, while PostgreSQL
`LPAD(code, 3, '0')` cuts longer codes to three characters. `ItemQueryService.ListingsAgree`
proves that the two listings are equal exactly when no active item has a code longer than
three characters. Both listings are ordered by the same sort in the model, so items created at
the same time are listed in the same order on both sides. The model reads the projection of
`GET api/items` as C# code; see "Left out" for what changes if the database provider
translates it to SQL.
`ItemQueryService.LpadCodesCollide` shows that, under `LPAD`, "1000" and "100" are listed
alike.

## Model

| member | source | states |
|---|---|---|
| Dates.LeIsTotalOrder | Controllers/OrdersController.cs:313-314 | `<=` on DateTime is reflexive, total, antisymmetric and transitive, which the overlap test and the date sorts rely on |
| Dates.MonthStartOrder | Controllers/OrdersController.cs:386-389 | comparing the first days of two months compares the months |
| Dates.NextMonth | Controllers/OrdersController.cs:392 | `AddMonths(1)` on the first day of a month gives the first day of the following month, December rolling into January |
| Dates.MonthRange | Controllers/OrdersController.cs:384-394 | the months the cache-clearing loop visits, from the first day of `fromDate`'s month up to `toDate`'s; its meaning is proved in `Dates.MonthRangeExact` |
| Dates.MonthRangeExact | Controllers/OrdersController.cs:384-394 | the month range holds exactly the months from the first to the last, each once, in increasing order, and none when the last precedes the first |
| Seqs.Filter | Controllers/OrdersController.cs:262 | `Where` keeps each element with its multiplicity exactly when the predicate holds of it, and nothing else |
| Seqs.FilterKeepsOrder | Controllers/OrdersController.cs:272 | filtering an ordered list leaves it ordered |
| Seqs.InsertKeepsOrder | Controllers/OrdersController.cs:263 | inserting into a sorted list under a total preorder keeps it sorted |
| Seqs.SortBy | Controllers/OrdersController.cs:263 | `OrderBy` gives a sorted permutation of its input |
| Model.Database.constructor | Data/RentalHubDbContext.cs:46-47 | the empty store satisfies the key, unique-code and `Remaining` invariants |
| Model.OrderIndex | Controllers/OrdersController.cs:104 | `FindAsync(orderId)` gives the position of the order with that key, or -1 exactly when no order has it |
| Model.PlaceholderPhoto | Controllers/ItemsController.cs:58-59 | the placeholder photo URL is never blank |
| Model.NewerFirstIsPreorder | Controllers/ItemsController.cs:53 | "created no earlier than" is a total preorder on items |
| Model.ActiveByNewest | Controllers/ItemsController.cs:50-53 | the listing query gives every active item, with its multiplicity and no other item, newest first |
| Model.ActiveByNewestMembers | Controllers/ItemsController.cs:52 | an item is in the listing query exactly when it is stored and active |
| Retry.FirstSuccess | Controllers/OrdersController.cs:47-87 | the first attempt whose database call succeeds; every earlier attempt faulted |
| Retry.ExhaustedIffLateSuccess | Controllers/OrdersController.cs:81-84 | the loop times out exactly when the first successful attempt would be the fourth or later |
| Retry.RetryLoop | Controllers/OrdersController.cs:43-89 | the body runs at most 3 times; the loop times out exactly when all three attempts throw, and then after exactly 3; otherwise it completes at the first attempt that does not throw; the trailing "Unexpected error" is never reached |
| OrdersController.NewOrder | Controllers/OrdersController.cs:51-67 | the new order carries every request field verbatim, `Remaining = Rent - Advance`, the given key and the attempt's `UtcNow` |
| OrdersController.SavedOrders | Controllers/OrdersController.cs:69-70 | the orders one save inserts after `n` attempts: `n` copies of the request, numbered from the next identity, each with the time its attempt read |
| OrdersController.Attempts | Controllers/OrdersController.cs:43-88 | the loop adds one copy per attempt and stops at the first attempt whose save succeeds, holding that many copies, or fails exactly when all three attempts fault |
| OrdersController.SaveOrders | Controllers/OrdersController.cs:70 | saving appends the tracked orders numbered from the next identity and keeps the store invariants |
| OrdersController.CreateOrder | Controllers/OrdersController.cs:28-90 | with no date or overlap check, the action answers the order created by the first successful attempt, numbered after the copies tracked from failed attempts, which are stored too; the identity counter moves past every stored copy; it answers the 500 timeout, with nothing stored and the counter unchanged, exactly when three attempts fault |
| OrdersController.RetriedCreateDuplicates | Controllers/OrdersController.cs:69-84 | a save after one failed attempt stores the same booking twice under two keys, and each copy blocks the other's dates |
| OrdersController.CreateOrderCorrected | Controllers/OrdersController.cs:51-77 | the create that stores exactly one new order per successful call |
| OrdersController.ApplyUpdate | Controllers/OrdersController.cs:124-135 | every request field but `ItemId` replaces the stored one; `Remaining` is recomputed; `OrderId`, `ItemId` and `CreatedDate` keep their old values |
| OrdersController.ApplyUpdateIdempotent | Controllers/OrdersController.cs:124-135 | applying the same update twice is applying it once |
| OrdersController.UpdateOrder | Controllers/OrdersController.cs:94-163 | as written, under the context's `NoTracking` default: a missing key answers NotFound "Order not found"; otherwise the action answers the stored order with the update applied, while the store keeps the old row (the method changes nothing); three faults give the 500 timeout |
| OrdersController.UpdateAnswerNotStored | Controllers/OrdersController.cs:104-150 | when the update changes anything, the order the action answers is held nowhere in the store |
| OrdersController.UpdateOrderCorrected | Controllers/OrdersController.cs:124-150 | the update with the order tracked: NotFound "Order not found" with nothing changed, or only that order replaced by its updated value; three faults give the 500 timeout |
| OrdersController.DeleteOrder | Controllers/OrdersController.cs:167-202 | a missing key answers NotFound with nothing changed; otherwise exactly that order is removed and "Order deleted" answered |
| OrdersController.DeleteKeepsOthers | Controllers/OrdersController.cs:177-182 | after removal the other orders remain in order, keys stay unique, and an order remains exactly when it was stored under another key |
| OrdersController.GetOrders | Controllers/OrdersController.cs:206-237 | every stored order, or the 500 timeout after three faults |
| OrdersController.EarlierFirstIsPreorder | Controllers/OrdersController.cs:263 | "starts no later than" is a total preorder on orders |
| OrdersController.MonthOrders | Controllers/OrdersController.cs:259-272 | exactly the orders starting in that year and month, narrowed to the item unless it is 0, with multiplicity, sorted by start |
| OrdersController.GetMonthOrders | Controllers/OrdersController.cs:241-285 | the month orders, or the 500 timeout after three faults |
| OrdersController.Overlaps | Controllers/OrdersController.cs:313-314 | two closed date ranges overlap when each starts no later than the other ends |
| OrdersController.Conflicts | Controllers/OrdersController.cs:310-315 | an order blocks a request when it is for the item, is not the excluded order (when `orderId` is not 0), and its range overlaps the request's |
| OrdersController.OverlapsSymmetric | Controllers/OrdersController.cs:313-314 | range overlap does not depend on which range is the request |
| OrdersController.OverlapsReflexive | Controllers/OrdersController.cs:313-314 | a well-formed range overlaps itself |
| OrdersController.IsAvailable | Controllers/OrdersController.cs:308-317 | available exactly when no order of the item, other than the excluded one, overlaps the closed range |
| OrdersController.AvailableIffNoConflictingOrder | Controllers/OrdersController.cs:308-317 | the same, stated over membership in the store |
| OrdersController.TouchingBoundariesConflict | Controllers/OrdersController.cs:313-314 | a booking ending on the requested first day, or starting on the last, makes the item unavailable |
| OrdersController.LaterBookingDoesNotConflict | Controllers/OrdersController.cs:313 | a booking starting strictly after the requested range never conflicts |
| OrdersController.OtherItemsNeverConflict | Controllers/OrdersController.cs:311 | the answer is the same over the item's own orders alone |
| OrdersController.ExcludedOrderIgnored | Controllers/OrdersController.cs:312 | a non-zero `orderId` answers as if that order were not stored |
| OrdersController.CheckAvailability | Controllers/OrdersController.cs:289-334 | the action returns only the 500 timeout, after the third fault; after any finite run without three faults it is still looping, with `available` set by the last successful query |
| OrdersController.CheckAvailabilityCorrected | Controllers/OrdersController.cs:304-333 | the check that answers `available` after the first successful query |
| OrdersController.BookedRanges | Controllers/OrdersController.cs:355-363 | the `(FromDate, ToDate)` pairs of the item's orders, one pair for each of the item's orders (`Seqs.Filter` keeps them with their multiplicity); what they hold is proved in `BookedRangesExact` |
| OrdersController.BookedRangesExact | Controllers/OrdersController.cs:355-363 | the ranges are those of the item's orders, past or future, and of no other order |
| OrdersController.AvailableIffNoBookedRangeOverlaps | Controllers/OrdersController.cs:308-315 | with nothing excluded, availability is "no booked range of the item overlaps the request" |
| OrdersController.GetUnavailableDates | Controllers/OrdersController.cs:338-381 | `itemId <= 0` answers BadRequest "Invalid itemId" on the first attempt; otherwise the item's booked ranges, or the 500 timeout |
| OrdersController.ClearMonthlyCache | Controllers/OrdersController.cs:384-394 | the keys the loop removes are exactly the month range from `fromDate`'s month to `toDate`'s |
| ItemsController.ListedItem | Controllers/ItemsController.cs:54-62 | key and name kept; a null or blank photo becomes exactly the placeholder URL and a non-blank one is kept; the code is padded with '0' characters to at least 3, never shortened, and ends with the stored code |
| ItemsController.Listing | Controllers/ItemsController.cs:50-63 | one row per active item, in the query's newest-first order: row `i` carries the key of the `i`-th item of that order |
| ItemsController.ListingExact | Controllers/ItemsController.cs:50-63 | the listing shows the projection of every active item and of nothing else |
| ItemsController.GetAll | Controllers/ItemsController.cs:35-86 | the listing, or the 500 timeout after three faults |
| ItemsController.SingleInsertUnique | Data/RentalHubDbContext.cs:46-47 | one new item keeps codes unique exactly when its code is free |
| ItemsController.DuplicateBatchRejected | Data/RentalHubDbContext.cs:46-47 | a save holding two items with one code breaks the unique index |
| ItemsController.Create | Controllers/ItemsController.cs:91-134 | the item is stored (active, with the dto's fields) exactly when the first attempt succeeds and its code is free; the identity counter then moves by one; every other case, a taken code included, ends in the 500 timeout with nothing stored and the counter unchanged, never the 400 |
| ItemsController.CreateCorrected | Controllers/ItemsController.cs:130-133 | the create answering 400 "Item code already exists" exactly when the code is taken |
| ItemsController.HasOrders | Controllers/ItemsController.cs:185-187 | some stored order is for the item |
| ItemsController.HasOrdersIffBooked | Controllers/ItemsController.cs:185-187 | an item has orders exactly when its unavailable-dates list is not empty |
| ItemsController.OrderExists | Controllers/ItemsController.cs:175-205 | BadRequest exactly when some order has that item, otherwise `Ok(false)`, or the 500 timeout |
| ItemsController.Deactivate | Controllers/ItemsController.cs:220-224 | only `IsActive` changes; an item ends active exactly when it was and has another key |
| ItemsController.DeactivateIdempotent | Controllers/ItemsController.cs:220-224 | deleting twice is deleting once |
| ItemsController.DeactivateMissingKey | Controllers/ItemsController.cs:220-227 | a key no item has leaves the table unchanged |
| ItemsController.DeletedItemNotListed | Controllers/ItemsController.cs:220-224 | a deleted item drops out of the listing |
| ItemsController.OtherItemsStillListed | Controllers/ItemsController.cs:220-224 | every other active item stays listed |
| ItemsController.Delete | Controllers/ItemsController.cs:209-241 | "Item deactivated" with the table soft-deleted whether or not the key exists, orders untouched; or the 500 timeout |
| ItemsController.CodeTaken | Controllers/ItemsController.cs:255-260 | some active item stores that code text and is not the item `itemId` names, when that is not 0 |
| ItemsController.CodeValidate | Controllers/ItemsController.cs:245-277 | true exactly when an active item, other than `itemId` when that is not 0, stores `code.ToString("D3")` |
| ItemsController.CodeTakenMeaning | Controllers/ItemsController.cs:255-260 | a reported code is stored on an active item as text of at least 3 characters that reads back as that number |
| ItemsController.MaxCode | Controllers/ItemsController.cs:290 | the first row of the descending order: no stored code reads higher, and some code reads as it |
| ItemsController.NextItemCodeText | Controllers/ItemsController.cs:290-299 | the suggestion has at least 3 characters and `Convert.ToInt32` reads it as the wrapped `max + 1` |
| ItemsController.GetNextItemCode | Controllers/ItemsController.cs:280-314 | `(max + 1).ToString("D3")`; the 500 timeout exactly when three attempts throw, which every attempt does when the store is empty or a code is not an `int` |
| ItemsController.NextItemCodeFresh | Controllers/ItemsController.cs:290-299 | below the `int` limit the suggestion reads back as max + 1, so no stored code equals it and the code check does not report it |
| ItemsController.NextItemCodeWraps | Controllers/ItemsController.cs:291 | at the `int` limit the unchecked increment wraps and the suggestion reads as the most negative `int` |
| ItemsController.NextItemCodeCorrected | Controllers/ItemsController.cs:290-299 | the next code with an empty store giving "001"; no answer exactly when a stored code is not an `int` |
| ItemsController.EmptyStoreNextCode | Controllers/ItemsController.cs:290-291 | with no items every attempt throws and the action answers 500, while the corrected rule gives "001" |
| DotNetText.IsWhiteSpace | Controllers/ItemsController.cs:58 | the characters `Char.IsWhiteSpace` accepts: U+0009 to U+000D, U+0085, and the Unicode space, line and paragraph separators |
| DotNetText.IsNullOrWhiteSpace | Controllers/ItemsController.cs:58 | a null string, or one made of white space only (the empty string included) |
| DotNetText.ParseInt32 | Controllers/ItemsController.cs:290-291 | `Convert.ToInt32`: an optional sign and at least one digit, whose value fits an `int`; otherwise no value, where .NET throws |
| DotNetText.Wrap32 | Controllers/ItemsController.cs:291 | unchecked `int` arithmetic: in-range values unchanged, otherwise wrapped modulo 2^32 |
| DotNetText.PadLeft | Controllers/ItemsController.cs:61 | the result is as wide as the width or the string, whichever is longer, ends with the string and starts with padding only |
| DotNetText.Lpad | Services/ItemQueryService.cs:30 | PostgreSQL `LPAD`: exactly `length` characters, a prefix of the string when it is longer, left padding otherwise |
| DotNetText.LpadAgreesWithPadLeft | Services/ItemQueryService.cs:30 | `LPAD` and `PadLeft` agree exactly on strings no longer than the width |
| DotNetText.Digits | Controllers/ItemsController.cs:299 | the shortest decimal digits of a natural number, reading back as it |
| DotNetText.FormatD | Controllers/ItemsController.cs:255 | `ToString("D" + n)`: a leading minus exactly for negative numbers, then only digits, as many as the larger of `n` and the magnitude's own digit count; the text reads back as the number |
| DotNetText.FormatDPadsShort | Controllers/ItemsController.cs:255 | with three digits, 6 formats as "006" and -7 as "-007" |
| DotNetText.FormatDKeepsLong | Controllers/ItemsController.cs:299 | with three digits, 1000 keeps its four digits: "1000" |
| DotNetText.FormatDReadsBack | Controllers/ItemsController.cs:291 | `Convert.ToInt32` reads a formatted `int` back unchanged |
| DotNetText.FormatDInjective | Controllers/ItemsController.cs:255-258 | distinct numbers format to distinct codes |
| DotNetText.IndexOf | Services/SupabaseStorageService.cs:33 | ordinal `IndexOf`: the first position where the pattern occurs, or -1 exactly when it occurs nowhere |
| ItemQueryService.ExecuteWithRetry | Services/ItemQueryService.cs:71-85 | the action runs 1 to 3 times; the first success is returned unchanged; a failure is propagated only when all three calls fail; the final `throw` is never reached |
| ItemQueryService.QueryRow | Services/ItemQueryService.cs:25-34 | a row: key and name kept; a null photo reads as "" and any other is kept; the code has exactly 3 characters, its first three when longer, otherwise the code padded on the left with '0' |
| ItemQueryService.ActiveItemsQuery | Services/ItemQueryService.cs:25-36 | one row per active item, newest first: row `i` is the row read from the `i`-th active item of that order, so every row has a photo and a 3-character code |
| ItemQueryService.ServiceListing | Services/ItemQueryService.cs:23-56 | one row per active item, newest first: row `i` is the row read from the `i`-th active item with its photo filled in, so every row has a non-blank photo and a 3-character code |
| ItemQueryService.FillPhoto | Services/ItemQueryService.cs:49-53 | only the photo can change; a null or blank photo becomes exactly the placeholder URL; a non-blank photo is kept |
| ItemQueryService.FillPhotoIdempotent | Services/ItemQueryService.cs:49-53 | post-processing a row twice is post-processing it once |
| ItemQueryService.FillPlaceholders | Services/ItemQueryService.cs:49-53 | the in-place `ForEach` turns each element into its post-processed value, keeping length and order |
| ItemQueryService.PostProcess | Services/ItemQueryService.cs:45-53 | the materialised list after the `ForEach` is the row-by-row post-processing of the query rows |
| ItemQueryService.GetActiveItemsAsync | Services/ItemQueryService.cs:23-56 | the post-processed query rows exactly when one of the three attempts succeeds; otherwise the third attempt's exception |
| ItemQueryService.ListingsAgree | Services/ItemQueryService.cs:30 | with the projection read as C# and ties ordered alike, the service listing equals `GET api/items`'s exactly when no active item's code is longer than 3 characters |
| ItemQueryService.RowsAgree | Services/ItemQueryService.cs:25-34 | for codes of at most 3 characters, a post-processed row is the controller's projected item |
| ItemQueryService.LpadCodesCollide | Services/ItemQueryService.cs:30 | under `LPAD` the codes "1000" and "100" are listed alike |
| SupabaseStorageService.ExtractFilePath | Services/SupabaseStorageService.cs:33-36 | no path exactly when `/public/` occurs nowhere; otherwise the text after its first occurrence |
| SupabaseStorageService.ExtractAfterFirstMarker | Services/SupabaseStorageService.cs:33-36 | a path built around a first `/public/` gives back the part after it |
| SupabaseStorageService.DeleteUrl | Services/SupabaseStorageService.cs:38-39 | the base URL, then `/storage/v1/object/`, then the path |
| SupabaseStorageService.DeleteUrlInjective | Services/SupabaseStorageService.cs:38-39 | one base URL never maps two paths to the same delete URL |
| SupabaseStorageService.DeleteImageByUrl | Services/SupabaseStorageService.cs:25-41 | no request for a blank URL or a path without `/public/`; otherwise a DELETE to the delete URL of the extracted path |
| SupabaseStorageService.DeletesStoredImage | Services/SupabaseStorageService.cs:27-41 | an image stored under the public prefix is deleted by its own object path |

## Left out

- The HTTP layer is left out: routing, model binding, authorization attributes, and the shape of `IActionResult` beyond its status and payload.
- The network and the database server are reduced to a per-attempt fault oracle. Npgsql, Dapper, the SQL text and connection handling are not modelled. The SQL query's meaning is modelled as a function of the items table.
- `Task.Delay` waits are not modelled: the model counts attempts only. `DateTime.UtcNow` is a parameter.
- `IMemoryCache` is left out. Every cache read and write in the source is commented out, and `ClearMonthlyCache` has no caller; only its month enumeration is modelled.
- Items `Update` (`Controllers/ItemsController.cs:136-166`) and `UpdateItemsAsync` (`Services/ItemQueryService.cs:58-70`) are left out. They run string-interpolated SQL on a live connection, and their result depends on the database.
- `RemoveImages` (`Controllers/ItemsController.cs:168-173`) is not modelled separately. It only forwards to `DeleteImageByUrl`, which is modelled.
- `DeleteImageByUrl` is modelled only up to the request it would send. The HTTP `DELETE`, its response and the swallowed error body (`Services/SupabaseStorageService.cs:41-47`) are I/O. `new Uri(imageUrl)` is left out too: its `AbsolutePath` is an input, so an invalid URI, which makes the constructor throw, is not modelled.
- `AuthController`, `UploadController`, `PasswordHelper` and `Program.cs` are left out: authentication, a SHA-256 foreign call, file upload to an object store, and start-up wiring.
- The foreign key from orders to items is left out, and so is `Include(o => o.Item)`.
- SQL-side validation is left out: data-annotation lengths and `numeric(10,2)` precision are enforced by the database.
- The database's tie order is not modelled. Every `ORDER BY` and `OrderBy` in the model goes through the one insertion sort `Seqs.SortBy`, so the model fixes how equal keys are ordered, while the source promises no order among them. Most contracts state only sortedness and permutation. The exceptions fix the insertion sort's tie order too: `ItemsController.Listing`, `ItemQueryService.ActiveItemsQuery` and `ItemQueryService.ServiceListing` state row `i` against the `i`-th item of `Model.ActiveByNewest`, and `ItemQueryService.ListingsAgree` relies on both listings ordering equal `CreatedDate` values alike. Against the database it holds up to the order of items created at the same time.
- `GetOrders` (`Controllers/OrdersController.cs:222`) and the booked ranges of `GetUnavailableDates` (`Controllers/OrdersController.cs:355-363`) run queries without `ORDER BY`. The model returns their rows in store order, an order the source does not promise.
- The projection of `GET api/items` (`Controllers/ItemsController.cs:54-62`) is read as C# code. Npgsql may translate it to SQL, with `PadLeft` becoming `lpad` and `string.IsNullOrWhiteSpace` becoming a `btrim` test. If it does, that action also cuts long codes to three characters, and its blank test knows only SQL's white-space characters. The model does not capture that translation, so `ItemQueryService.ListingsAgree` compares the two listings as the C# text reads.
- String lengths are counted in Unicode scalar values, the `PadLeft` and `LPAD` widths included. .NET counts UTF-16 code units, so a code holding a character outside the Basic Multilingual Plane is padded differently in .NET.
- Identity values consumed by failed inserts are not modelled: the next identity moves only on a successful save.
- DotNetText.IsWhiteSpace: covers the characters `Char.IsWhiteSpace` accepts in the Basic Multilingual Plane as listed in its documentation. It does not model the Unicode database behind that list.
- DotNetText.ParseInt32: reads an optional sign followed by digits. It does not accept the leading and trailing white space that `Convert.ToInt32` and a SQL cast tolerate, nor culture-specific signs.
- DotNetText.IndexOf: is ordinal. `string.IndexOf(string)` is culture-sensitive, which only matters for strings with ignorable or combining characters.
- Dates.DateTime: does not bound the year to 1..9999 and does not check days against month lengths, so the `AddMonths` overflow at year 9999 is not modelled.
- OrdersController.CheckAvailability: the written loop never ends while queries succeed. It is modelled over a finite run of observed attempts, and its contract says where the run stands, not what it finally answers.
- The two controllers read the base URL for placeholder photos from different configuration keys (`Supabase:Url` at `Controllers/ItemsController.cs:27`, `BaseUrl` at `Services/ItemQueryService.cs:17`). Both are modelled as a `baseUrl` parameter, and `ItemQueryService.ListingsAgree` assumes they hold the same value.
- Neither projection sets `CreatedDate` (`Controllers/ItemsController.cs:54-62`, `Services/ItemQueryService.cs:25-34`), so each materialised row carries the `DateTime.UtcNow` read when that row is built (`Model/Item.cs:30`). The model reads the clock once per listing, as the parameter `now`, and gives it to every row. `ItemQueryService.ListingsAgree` and `ItemQueryService.RowsAgree` pass one `now` to both listings, so they assume a single shared clock reading. With two different readings, the listings differ in `CreatedDate` whenever an item is active.

## Findings

| source | as written | input that shows it | evidently intended | confidence | as-written member | corrected member |
|---|---|---|---|---|---|---|
| Controllers/OrdersController.cs:304-333 | a successful availability query sets `available` but does not leave the loop, so the action queries again and again; it can only end with the 500 after three faults, and `Ok(new { available })` is never reached | any store and a database that never faults: the run is still looping after every number of attempts | answer `available` after the first successful query | not executed | OrdersController.CheckAvailability | OrdersController.CheckAvailabilityCorrected |
| Controllers/OrdersController.cs:51-84 | each attempt adds a new order; a failed save leaves the earlier one tracked as Added, so the next successful save inserts both | one transient fault on the first save, then success: two orders with the same request and different keys, each conflicting with the other | insert the order once | not executed; relies on EF Core keeping a failed Added entity tracked | OrdersController.CreateOrder and OrdersController.RetriedCreateDuplicates | OrdersController.CreateOrderCorrected |
| Controllers/ItemsController.cs:99-133 | the inner `catch (Exception)` also takes the `DbUpdateException` of a duplicate code, so the outer 400 handler never runs; the item tracked from a failed attempt makes every later save break the unique index | a store holding code "001" and a new item with code "001": three failed attempts and the 500 "Database timeout" | answer 400 "Item code already exists" for a taken code, and retry only transient faults | not executed | ItemsController.Create | ItemsController.CreateCorrected |
| Controllers/OrdersController.cs:104-137 | the context's default is `QueryTrackingBehavior.NoTracking` (`Program.cs:20`), so the order `FindAsync` reads is not tracked; the assignments change only that object, `SaveChangesAsync` writes nothing, and the action answers the updated order | a stored order and a request with a different client name: the answer shows the new name, and the store keeps the old one | write the updated order to the store | not executed; relies on `FindAsync` following the context's default tracking behaviour | OrdersController.UpdateOrder and OrdersController.UpdateAnswerNotStored | OrdersController.UpdateOrderCorrected |
| Controllers/ItemsController.cs:290-291 | with no items `FirstOrDefaultAsync` gives null and `item.ItemCode` throws on every attempt | an empty items table: the 500 "Database timeout" | suggest "001" for the first item | not executed | ItemsController.GetNextItemCode and ItemsController.EmptyStoreNextCode | ItemsController.NextItemCodeCorrected |
