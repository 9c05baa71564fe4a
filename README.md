# Sweet delivery order store, modelled in Dafny

This project models the order store of a small courier-delivery service. The
store is the `DatabaseConnector` class of `utils.py`, plus the field
validators of `models.py`. Couriers (foot, bike or car) have regions and
working-hour windows. Orders have a weight, a region and delivery windows.
The store assigns orders to couriers and re-checks a courier's orders after
its profile is patched. It also marks orders completed and computes a
courier's earnings and rating.

The SQLite tables become state:
- The `DatabaseConnector` class holds five fields: `couriers` (id to type),
  `regions` and `workingHours` (id to rows, in row order), `orders` (the
  `orders` table as a sequence of rows in rowid order) and `deliveryHours`
  (the `(order_id, window)` rows).
- Each SQL statement becomes a read or a write of those fields.
- Each operation is a class method whose loops follow the source. It is
  proved equal to a function of the old state, defined in one of the
  modules `Assignment`, `Revalidation`, `Completion` or `Rating`.
- What the source promises is proved as lemmas about those functions.

Modules, one per file:
- `Wrappers`: `Option` and `Result`.
- `Models`: the validators of `models.py`.
- `Store`: order rows, the error kinds and the load and pay tables
  (`utils.py:70-71`). It also holds SELECT-as-filter, the sort by weight,
  UPDATE of an id list and weight sums.
- `TimeWindows`: `transform_to_dt` and `hours_intersect`.
- `Assignment`: `assign_orders_to_courier`.
- `Revalidation`: `patch_courier` and `validate_existing_orders`.
- `Completion`: `complete_order`.
- `Rating`: `calculate_couriers_rating`.
- `Connector`: `unpack_delivery_hours` and the `DatabaseConnector` class.

Units:
- Weights are whole hundredths. The validator bound 0.01..50 becomes 1..5000,
  and the loads 10/15/50 become 1000/1500/5000.
- Times of day are minutes since midnight.
- Timestamps are integer milliseconds; the clock is an input (`now`).
- Delivery times and the rating are real numbers of seconds.

Source behaviour kept as written:
- **Non-cumulative capacity drop** (`utils.py:258-262`). When a type change
  leaves the courier overloaded, each order, heaviest first, is judged
  against the whole overload, not against what is left after earlier drops.
  So the heaviest order is dropped alone when it covers the overload, and
  otherwise every assigned order is dropped (`Revalidation.DropLoopRule`,
  `Revalidation.TypeStepSpec`).
- **Orders with no delivery windows** (`utils.py:150, 240`). The validator
  accepts an empty window list (`models.py:69-73`). Such an order has no key
  in the grouped windows, so assignment and hours revalidation raise a
  KeyError when they reach it (`MissingDeliveryHours`).
- **Region revalidation without a status filter** (`utils.py:218-220`). The
  query also selects the courier's completed orders in a dropped region.
  Popping such an order from the current orders raises a KeyError, and the
  unassignments made before it stay (`Revalidation.RegionStepSpec`,
  `Revalidation.PopRevertStops`).
- **Unknown order on completion** (`utils.py:307-312`). `fetchone()` returns
  `None` and `order[1]` fails outside the `try`. The result is a generic
  TypeError, not the message written for it (`OrderRowMissing`).
- **No rated region** (`utils.py:377`). When the courier has a delivered
  batch but none of its completed orders lies in its current regions,
  `min` of an empty list raises (`NoRatedRegion`).
- **Patch of an unknown courier** (`utils.py:188-201`). The UPDATE changes
  no row, but the DELETE/INSERT of regions and working hours still writes
  rows for the unknown id. Revalidation then raises "not found".
- **Rating pays the type at assignment time** (`utils.py:355-362`). A batch
  pays by the type its first order was assigned with, not the courier's
  current type (`Rating.RatingExampleDone`).

These behaviours are kept as the code has them. For example, revalidation's
region step can fail on a completed order, and an unknown order on completion
yields a generic error.

## Model

| member | source | states |
|---|---|---|
| Models.CheckCourierType | models.py:17-21 | accepts exactly "foot", "bike" and "car", returns the kind whose stored name is the input, and rejects everything else with the type error |
| Models.CheckTypeNameRoundTrip | models.py:17-21 | every stored type name passes the validator back as the same type |
| Models.CheckWindowLengths | models.py:23-27 | a window list is rejected iff some entry is not 11 characters long; on success the list is returned unchanged |
| Models.CheckWorkingHours | models.py:23-27 | working hours are accepted iff every entry has length 11, so an empty list is accepted |
| Models.CheckDeliveryHours | models.py:69-73 | delivery hours are accepted iff every entry has length 11; an empty list is accepted, so an order with no windows reaches the store |
| Models.CheckWeight | models.py:63-67 | a weight (in hundredths) is accepted iff 1 <= w <= 5000, i.e. 0.01 <= weight <= 50 |
| Store.Capacity | utils.py:70 | the maximum load of each courier type is positive (1000, 1500, 5000 hundredths) |
| Store.Coefficient | utils.py:71 | the pay coefficient of each courier type is positive (2, 5, 9) |
| Store.Where | utils.py:135-138 | a SELECT keeps a row iff it is in the table and satisfies the condition |
| Store.WhereAppend | utils.py:351-354 | filtering a concatenation filters each part, which is what a filtering loop accumulates |
| Store.LoadSortBy | utils.py:157 | sorting the candidates by weight keeps their total weight |
| Store.LoadWithout | utils.py:223 | popping orders from the current orders lowers the load by their weight |
| TimeWindows.Split | utils.py:55 | `split('-')` gives at least one part and no part contains the separator |
| TimeWindows.SplitJoin | utils.py:55 | joining the parts of a split with the separator gives the string back |
| TimeWindows.TransformToDt | utils.py:54-58 | a parsed window has start and end before midnight (`%H:%M` bounds) |
| TimeWindows.TransformFormatRoundTrip | utils.py:54-58 | every window written as `HH:MM-HH:MM` parses back to itself |
| TimeWindows.ParseFormatClock | utils.py:56-57 | every `HH:MM` clock text parses back to its minute of the day |
| TimeWindows.AnyContained | utils.py:47-51 | the inner loop answers false only after every delivery window has parsed |
| TimeWindows.HoursIntersect | utils.py:44-51 | `hours_intersect` answers false only after every working window has parsed, and every delivery window too when there is a working window |
| TimeWindows.HoursIntersectIff | utils.py:44-51 | when every window parses, `hours_intersect` is true iff some working window starts no later and ends no earlier than some delivery window |
| TimeWindows.HoursIntersectNoDelivery | utils.py:44-51 | with no delivery windows the answer is false |
| TimeWindows.HoursIntersectWitness | utils.py:44-51 | a true answer names a working and a delivery window that contains it |
| Assignment.CurrentRows | utils.py:283-285 | the courier's current orders are exactly its rows with status 1 |
| Assignment.CandidateRows | utils.py:135-138 | the candidates are exactly the unassigned orders in the courier's regions |
| Assignment.TimeFiltered | utils.py:148-151 | the filter fails iff some candidate has no delivery windows or an unparsable window; otherwise it keeps exactly the candidates whose windows fit, in id order |
| Assignment.Greedy | utils.py:158-165 | the accepted orders are a prefix of the sorted candidates within the remaining load, and the first one left out would overflow it |
| Assignment.MinAssigned | utils.py:179-180 | `min(date_assigned)` is attained by some row and is no later than any row's time; it is `None` iff no row has a time |
| Assignment.Assign | utils.py:130-181 | an assignment never adds or removes a row; a failure writes nothing; an empty answer has no time and writes nothing |
| Assignment.AssignEmptyCases | utils.py:139-168 | no candidate, no time-fitting candidate or nothing that fits gives `([], None)` and no write, whatever the courier already holds |
| Assignment.AssignUnknownCourier | utils.py:274-277 | an unknown courier is reported as not found and nothing is written |
| Assignment.AcceptedIsGreedyPrefix | utils.py:133-165 | the accepted orders are a prefix of the time-filtered candidates sorted ascending by weight, weigh at most the remaining load, and every candidate after them would overflow it |
| Assignment.AcceptedRows | utils.py:135-151 | every accepted order is an unassigned row of the table in the courier's regions, and no id is accepted twice |
| Assignment.AssignStamps | utils.py:169-174 | each accepted row gets status 1, the courier id, the courier's current type and the one shared timestamp; every other row is unchanged |
| Assignment.CurrentAfterStamp | utils.py:169-174 | after the UPDATE the courier's current orders are exactly the earlier ones plus the accepted ones |
| Assignment.LoadAfterStamp | utils.py:169-174 | the courier's load grows by exactly the accepted weight |
| Assignment.AssignCapacity | utils.py:133-174 | after an assignment the courier's load is its earlier load plus the accepted weight, and at most its capacity |
| Assignment.AssignAnswer | utils.py:177-181 | the answer lists the earlier current ids then the new ids; its time is the minimum batch time of the current orders after the UPDATE: no later than `now` or than any current order's time, and attained by one of them; on a first batch it is `now` itself |
| Assignment.AssignKeepsTable | utils.py:169-174 | an assignment keeps every row well formed and the ids in rowid order |
| Completion.CompleteChecks | utils.py:307-318 | the rejections come in the source's order (unknown row, status 0, other courier, already completed); each holds iff its condition holds and the earlier checks pass, and a rejection writes nothing |
| Completion.CompleteThenAgain | utils.py:321-327 | a success moves the order from status 1 to 2 with the finish time, changes nothing else, and returns the id; the same request again is rejected as already completed |
| Completion.CompleteKeepsTable | utils.py:323-324 | completing keeps every row well formed |
| Completion.CompleteOrder | utils.py:304-327 | completing never adds, removes or renumbers a row, touches no row but the named order, and a success returns that order's id |
| Revalidation.InvalidRegions | utils.py:212-214 | a region is invalid iff a current order lies in it and the courier no longer serves it |
| Revalidation.BadHours | utils.py:237-241 | collecting fails iff some current order has no windows or an unparsable one; otherwise it holds exactly the current orders whose windows no longer fit |
| Revalidation.DropLoop | utils.py:255-262 | the dropped orders are a prefix of the heaviest-first list |
| Revalidation.ProfileOf | utils.py:274-285 | a courier's profile exists iff the courier does, and reads its type, regions and working hours |
| Revalidation.PopRevert | utils.py:222-227 | the pop loop never adds or removes a row, and its only failure is the KeyError of an id from the list |
| Revalidation.RegionStep | utils.py:209-229 | the region step never adds or removes a row and can only fail with the KeyError of the pop |
| Revalidation.HoursStep | utils.py:230-250 | the hours step never adds or removes a row (what it keeps and when it fails: `HoursStepSpec`) |
| Revalidation.TypeStep | utils.py:252-268 | the capacity step never adds or removes a row, and each row is kept or unassigned |
| Revalidation.Validate | utils.py:206-268 | an unknown courier's revalidation writes nothing, and a patch that sent none of the three fields passes and writes nothing |
| Revalidation.RevertAllTwice | utils.py:222-248 | unassigning in two rounds is unassigning all the listed ids |
| Revalidation.PopRevertSucceeds | utils.py:222-248 | popping distinct ids succeeds iff every one is a current order; the new rows unassign exactly those ids and the current orders lose exactly them |
| Revalidation.PopRevertStops | utils.py:222-227 | popping stops with a KeyError at the first id that is not current, and the unassignments before it stay |
| Revalidation.RegionStepSpec | utils.py:209-229 | the region step fails iff a completed order of the courier lies in an invalid region; it only unassigns the courier's orders; on success the current orders are exactly the earlier ones still in a served region |
| Revalidation.HoursStepSpec | utils.py:230-250 | the hours step fails iff some current order's windows cannot be checked, writing nothing then; on success it only unassigns the courier's orders and keeps exactly the current orders whose windows fit |
| Revalidation.DropLoopRule | utils.py:258-262 | on a heaviest-first list the loop drops the heaviest order alone if it covers the overload, and otherwise every order |
| Revalidation.HeaviestFirstFacts | utils.py:256-257 | `reversed(sorted(...))` holds the same orders with the heaviest first |
| Revalidation.TypeStepDropsHeaviest | utils.py:252-268 | when the heaviest order covers the overload only that order is unassigned |
| Revalidation.TypeStepDropsAll | utils.py:252-268 | when it does not, the courier is left with no assigned order |
| Revalidation.TypeStepSpec | utils.py:252-268 | the capacity step only unassigns the courier's orders, leaves the load within the new capacity, changes nothing when the load fits, and otherwise drops the heaviest alone or everything |
| Revalidation.ValidateSpec | utils.py:206-268 | revalidation only unassigns the courier's orders and keeps the table well formed; every order left passes each triggered check; without a type change they are exactly those; with one the load fits the new capacity |
| Revalidation.ValidateFails | utils.py:206-250 | revalidation fails iff the region step is blocked by a completed order, or else working hours changed and a kept order's windows cannot be checked |
| Revalidation.ValidateUnknownCourier | utils.py:206-208 | for an unknown courier revalidation raises "not found" and writes nothing |
| Revalidation.PatchProfile | utils.py:188-201 | after the writes a known courier reads each sent field and keeps the others; an unknown courier stays unknown; every other courier is unchanged |
| Rating.AssignedRows | utils.py:340-343 | the courier's held orders are exactly its rows with status other than 0 |
| Rating.BatchTimes | utils.py:350 | the batch times are exactly the assignment times of the held orders, each once |
| Rating.DeliveredTimes | utils.py:350-355 | the listed times are exactly the batch times whose batch is non-empty and fully delivered, each once when the batch times are distinct |
| Rating.DeliveredTypes | utils.py:349-356 | `deliveries_types` has at most one entry per batch time |
| Rating.DeliveredTypesHeads | utils.py:349-356 | `deliveries_types` has one entry per fully delivered batch, in batch order, each the type the batch's first order was assigned with |
| Rating.AnyBatchDelivered | utils.py:349-358 | `deliveries_types` is non-empty iff some batch of the courier is fully delivered |
| Rating.Batch | utils.py:351-354 | a batch holds exactly the held orders with that assignment time |
| Rating.MinOf | utils.py:378 | `min` returns a member of the list no greater than any other |
| Rating.RatingBounds | utils.py:379 | the rating is at least 0, at most 5 for a non-negative mean, 0 from an hour on and 5 at zero |
| Rating.RatingMonotone | utils.py:379 | a shorter mean delivery time never rates lower |
| Rating.DeliveredTypesSet | utils.py:351-356 | every delivered batch of assigned rows has a type |
| Rating.PaySumBounds | utils.py:359-360 | each delivered batch pays between 1000 (foot) and 4500 (car) |
| Rating.EarningsPerBatch | utils.py:345-362 | in a well-formed table the courier is paid once per fully delivered batch, between 1000 and 4500 for each, and earns 0 iff no batch is fully delivered |
| Rating.CompletedOrder | utils.py:333-336 | the completed orders are exactly the courier's status-2 rows, latest finish first |
| Rating.DeliveryTimesTotal | utils.py:366-369 | the delivery times add up to the span from the oldest order's assignment to the latest finish |
| Rating.DeliveryTimesNonNegative | utils.py:366-369 | on finish-descending orders every delivery time is non-negative when the oldest order finished after it was assigned |
| Rating.RegionCountZero | utils.py:371-376 | a region's count is 0 iff no completed order lies in it |
| Rating.RegionSumNonNegative | utils.py:371-375 | with non-negative delivery times a region's sum is non-negative |
| Rating.AveragesFacts | utils.py:370-377 | there is at most one mean per region; there is none iff no completed order lies in the courier's regions; with non-negative times every mean is non-negative |
| Rating.RateFails | utils.py:357-378 | in a well-formed table where some batch is fully delivered, there is a completed order, and the rating fails iff no completed order lies in the courier's regions (the `min` of an empty list) |
| Rating.RatingInRange | utils.py:378-379 | when every completed order finished no earlier than it was assigned, a rating lies in [0, 5] |
| Rating.RateBounds | utils.py:356-379 | when no batch is fully delivered the answer has earnings 0 and no rating; a rating lies in [0, 5] when every completed order finished no earlier than it was assigned |
| Rating.Rate | utils.py:329-381 | the rating fails with "not found" iff the courier is unknown; a report carries the courier's id, type, regions and hours; a report without a rating has earnings 0 |
| Rating.SingleBatch | utils.py:350-354 | orders all assigned at one time form a single batch, listed once, that holds all of them |
| Rating.OneBatchTypes | utils.py:349-356 | a single fully delivered batch assigned as one kind lists exactly that kind |
| Rating.OneDeliveredBatch | utils.py:329-381 | a courier whose orders form one fully delivered batch earns that batch's rate once and has a rating when a completed order lies in its regions |
| Rating.RatingExampleOpen | test_main.py:315-322 | on the courier test's table (orders 3, 4 and 6 in one batch, only 6 completed), the courier earns 0 and has no rating, whatever the clock |
| Rating.RatingExampleDone | test_main.py:326-349 | with orders 3 and 4 completed too, the batch earns 2500, the bike rate at assignment, though the courier is a car now, and a rating exists |
| Connector.GroupHoursLookup | utils.py:18-26 | the grouped windows of an order are exactly its rows' windows in row order |
| Connector.GroupHours | utils.py:18-27 | every grouped order has at least one window (which orders and windows: `GroupHoursLookup`) |
| Connector.UnpackDeliveryHours | utils.py:18-26 | the dictionary built in place equals the grouping of the rows |
| Connector.FilterByTime | utils.py:148-151 | the time-filter loop computes the time-filtered candidates, failing as they do |
| Connector.TakeWhileFits | utils.py:158-165 | the acceptance loop computes the greedy prefix |
| Connector.CollectBadHours | utils.py:237-241 | the collection loop computes the orders whose windows fail, failing as the spec does |
| Connector.ChooseDropped | utils.py:255-262 | the drop loop computes the dropped orders |
| Connector.CollectBatch | utils.py:351-354 | the inner loop collects exactly the batch |
| Connector.DeliveriesTypes | utils.py:350-356 | the loop lists the type of each delivered batch |
| Connector.SumEarnings | utils.py:359-360 | the loop sums the pay of the delivered batches |
| Connector.ComputeDeliveryTimes | utils.py:366-369 | the loop computes each completed order's delivery time |
| Connector.RegionTotals | utils.py:372-376 | the loop computes a region's sum and count |
| Connector.AverageTimes | utils.py:370-377 | the loop computes the per-region means |
| Connector.DatabaseConnector.constructor | utils.py:62-71 | a new store has empty tables |
| Connector.DatabaseConnector.CourierProfile | utils.py:271-285 | a courier's profile exists iff the courier is in the `couriers` table |
| Connector.DatabaseConnector.AssignOrdersToCourier | utils.py:130-181 | the answer and the new orders table are those of the assignment function on the old state; no other table changes and the table stays well formed |
| Connector.DatabaseConnector.StampOrders | utils.py:171-174 | the UPDATE loop stamps exactly the accepted ids |
| Connector.DatabaseConnector.PopAndRevert | utils.py:222-248 | the pop-and-unassign loop computes `PopRevert`, stopping at the first id not current |
| Connector.DatabaseConnector.RevertOrders | utils.py:263-267 | the UPDATE loop unassigns exactly the listed ids |
| Connector.DatabaseConnector.RegionCheck | utils.py:209-229 | the region check computes the region step |
| Connector.DatabaseConnector.HoursCheck | utils.py:230-250 | the hours check computes the hours step |
| Connector.DatabaseConnector.TypeCheck | utils.py:252-268 | the capacity check computes the capacity step |
| Connector.DatabaseConnector.ValidateExistingOrders | utils.py:206-268 | the result and new orders are those of the revalidation function on the old state; the other tables are unchanged and the table stays well formed |
| Connector.DatabaseConnector.PatchCourier | utils.py:183-204 | the type, regions and working hours are written as the patch says, then the orders are revalidated against the new profile |
| Connector.DatabaseConnector.WriteRegions | utils.py:191-195 | the DELETE and INSERT loop leaves exactly the new regions for the courier and changes no other table |
| Connector.DatabaseConnector.WriteWorkingHours | utils.py:196-201 | the DELETE and INSERT loop leaves exactly the new working hours for the courier and changes no other table |
| Connector.DatabaseConnector.CalculateCouriersRating | utils.py:329-381 | the report equals the rating function on the current state, which changes nothing |
| Connector.DatabaseConnector.CompleteOrder | utils.py:304-327 | the answer and the new orders equal the completion function on the old state |

## Left out

- Concurrency: the `mutex` busy flag, `asyncio.sleep` polling and the
  coroutines. Each operation is modelled as one sequential step.
- SQLite itself: connections, table creation, `commit`, SQL text and the
  single-element tuple workaround. Statements become reads and writes of the
  class fields.
- The constructor opening an existing database file: the model starts from
  empty tables.
- The clock: `datetime.utcnow()` is the `now` parameter of the assignment.
- Timestamp text: `isoformat`, `strptime` of `DATETIME_FORMAT` and the
  rounding to milliseconds. Timestamps are integer milliseconds.
- Floating point: weights are exact hundredths, and the rating uses exact
  reals.
- Rating.Rate: does not model `round(..., 2)`, because the mean and the
  rating are exact reals rather than floats.
- TimeWindows.TransformToDt: does not accept the non-ASCII digits that
  `time.strptime` would, because only ASCII digits are modelled.
- Revalidation.PatchedType: the patch's type is already a valid kind; an
  unvalidated type string that would make `couriers_load[...]` raise is not
  modelled.
- An explicit `null` in a patch is not modelled; the patch carries only the fields that hold values. In the source the key is kept (`exclude_unset`, main.py:22). A null `courier_type` writes the text 'None' as the courier's type (utils.py:188-190). A null `regions` or `working_hours` first runs the DELETE and then raises a TypeError in the `for` loop, with the mutex still set (utils.py:191-201).
- Ties in SQL order: rows are returned in rowid order, and `sorted` is
  stable, so equal weights keep ascending id order. SQLite does not promise
  this for queries without ORDER BY.
- Rating.CompletedLatestFirst: completed orders with the same
  `date_finished` come out in descending id order (a stable ascending sort,
  reversed). The query at utils.py:333-336 orders only by `date_finished
  DESC`, so SQLite may return such ties in any order, and the client picks
  `complete_time`, so ties can occur. The tie order changes the delivery
  times of utils.py:365-368 (which order counts as the oldest, and which
  gap each order gets), so the rating the model computes for tied finish
  times is the one for this particular order, not the only one the source
  can return.
- The batch of `temp[0]` in the rating comes from a query ordered by
  `date_assigned DESC`. The rows of one batch share that time, so the
  model takes them in rowid order; their type is the same.
- The set iteration order in the rating (`for assign_date in set(...)`):
  only the sum over batches is observable, and the model takes batches in
  first-seen order.
- `insert_couriers` and `insert_orders` (utils.py:95-128): they only add
  rows; the model takes any well-formed table as its state.
- `get_courier_data` and `get_actual_courier_status` are folded into
  `Revalidation.ProfileOf`.
- The unused `all_assign_dates` list in the rating, and the debug `print`
  in the hours step, which repeats the same `hours_intersect` call.
- The `WHERE order_id IN (...)` restriction when delivery windows are read:
  the model groups all window rows, and a lookup of one of the listed ids
  gives the same windows.
- main.py (HTTP routing and error mapping) and client.py (a random load
  generator): these are network I/O and not part of this model.
