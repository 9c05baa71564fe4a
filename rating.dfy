/**
 * `calculate_couriers_rating` (utils.py:329-381): the courier's earnings, paid
 * per assignment batch once every order of the batch is finished, and the
 * rating, derived from the shortest per-region mean delivery time.
 */
module Rating {
  import opened Wrappers
  import opened Models
  import opened Store
  import opened Assignment

  /** `get_courier_data` with `earnings` and, when there is one, `rating` added. */
  datatype Report = Report(courierId: int, ctype: CourierType, regions: seq<int>, workingHours: seq<string>,
                           earnings: nat, rating: Option<real>)

  // ---------------------------------------------------------------------
  // Earnings (utils.py:345-363)

  /** `... WHERE courier_id = c AND status != 0`: the courier's assigned and completed orders. */
  function AssignedRows(rows: seq<OrderRow>, c: int): (r: seq<OrderRow>)
    ensures forall x :: x in r <==> x in rows && x.courierId == Some(c) && x.status != Unassigned
  {
    Where(rows, (x: OrderRow) => x.courierId == Some(c) && x.status != Unassigned)
  }

  /** The batch times of `s`, each once (`set(... date_assigned ...)`). */
  function BatchTimes(s: seq<OrderRow>): (ts: seq<Option<int>>)
    ensures forall t :: t in ts <==> exists x :: x in s && x.dateAssigned == t
    ensures forall i, j :: 0 <= i < j < |ts| ==> ts[i] != ts[j]
  {
    if s == [] then []
    else
      var init := s[..|s| - 1];
      var last := s[|s| - 1];
      var ts := BatchTimes(init);
      assert s == init + [last];
      assert forall x :: x in s <==> x in init || x == last;
      if last.dateAssigned in ts then ts else ts + [last.dateAssigned]
  }

  /** The orders of `s` assigned at time `t`, in row order. */
  function Batch(s: seq<OrderRow>, t: Option<int>): (b: seq<OrderRow>)
    ensures forall x :: x in b <==> x in s && x.dateAssigned == t
  {
    Where(s, (x: OrderRow) => x.dateAssigned == t)
  }

  /** Every order of the batch has a finish time (`all(order['date_finished'] for order in temp)`). */
  predicate Delivered(b: seq<OrderRow>) {
    forall x :: x in b ==> x.dateFinished.Some?
  }

  /** `coefficient[type] * 500`; a row that is not unassigned always has a type. */
  function Pay(t: Option<CourierType>): nat {
    match t
    case Some(k) => Coefficient(k) * 500
    case None => 0
  }

  /**
   * `deliveries_types`: for each delivered batch, the type its first order
   * was assigned with.
   */
  function DeliveredTypes(s: seq<OrderRow>, ts: seq<Option<int>>): (types: seq<Option<CourierType>>)
    ensures |types| <= |ts|
  {
    if ts == [] then []
    else
      var b := Batch(s, ts[|ts| - 1]);
      DeliveredTypes(s, ts[..|ts| - 1]) + if b != [] && Delivered(b) then [b[0].typeWhenAssigned] else []
  }

  /**
   * The times of `ts` whose batch is non-empty and fully delivered, in the
   * order of `ts`: the batches that `deliveries_types` gets an entry for.
   */
  function DeliveredTimes(s: seq<OrderRow>, ts: seq<Option<int>>): (r: seq<Option<int>>)
    ensures forall t :: t in r <==> t in ts && Batch(s, t) != [] && Delivered(Batch(s, t))
    ensures (forall i, j :: 0 <= i < j < |ts| ==> ts[i] != ts[j]) ==>
      forall i, j :: 0 <= i < j < |r| ==> r[i] != r[j]
  {
    if ts == [] then []
    else
      var t := ts[|ts| - 1];
      var b := Batch(s, t);
      assert ts == ts[..|ts| - 1] + [t];
      DeliveredTimes(s, ts[..|ts| - 1]) + if b != [] && Delivered(b) then [t] else []
  }

  /** `earnings += coefficient[delivery_type] * 500` over the delivered batches. */
  function PaySum(types: seq<Option<CourierType>>): nat {
    if types == [] then 0 else PaySum(types[..|types| - 1]) + Pay(types[|types| - 1])
  }

  // ---------------------------------------------------------------------
  // Delivery times (utils.py:366-370)

  function FinishTime(x: OrderRow): int {
    match x.dateFinished
    case Some(t) => t
    case None => 0
  }

  function AssignTime(x: OrderRow): int {
    match x.dateAssigned
    case Some(t) => t
    case None => 0
  }

  /** `... WHERE courier_id = c AND status = 2 ORDER BY date_finished DESC`. */
  function CompletedLatestFirst(rows: seq<OrderRow>, c: int): seq<OrderRow> {
    Reverse(SortBy(Where(rows, (x: OrderRow) => x.courierId == Some(c) && x.status == Completed), FinishTime))
  }

  /**
   * Each completed order's delivery time: the time since the next older
   * finish, and for the oldest, the time since it was assigned.
   */
  function DeliveryTimes(desc: seq<OrderRow>): (d: seq<int>)
    ensures |d| == |desc|
  {
    seq(|desc|, i requires 0 <= i < |desc| =>
      if i + 1 < |desc| then FinishTime(desc[i]) - FinishTime(desc[i + 1])
      else FinishTime(desc[i]) - AssignTime(desc[i]))
  }

  // ---------------------------------------------------------------------
  // Per-region means and the rating (utils.py:371-379)

  /** `temp_sum` for region `g`. */
  function RegionSum(desc: seq<OrderRow>, times: seq<int>, g: int): int
    requires |times| == |desc|
  {
    if desc == [] then 0
    else
      var n := |desc| - 1;
      RegionSum(desc[..n], times[..n], g) + if desc[n].region == g then times[n] else 0
  }

  /** `temp_number` for region `g`. */
  function RegionCount(desc: seq<OrderRow>, g: int): (k: nat)
    ensures k <= |desc|
  {
    if desc == [] then 0
    else
      var n := |desc| - 1;
      RegionCount(desc[..n], g) + if desc[n].region == g then 1 else 0
  }

  /** `average_time`, in seconds: one mean per region of the courier that has a completed order. */
  function Averages(desc: seq<OrderRow>, times: seq<int>, regions: seq<int>): seq<real>
    requires |times| == |desc|
  {
    if regions == [] then []
    else
      var g := regions[|regions| - 1];
      var k := RegionCount(desc, g);
      Averages(desc, times, regions[..|regions| - 1]) +
        if k != 0 then [RegionSum(desc, times, g) as real / k as real / 1000.0] else []
  }

  /** Python's `min` of a non-empty list. */
  function MinOf(s: seq<real>): (m: real)
    requires s != []
    ensures m in s && forall y :: y in s ==> m <= y
  {
    if |s| == 1 then s[0]
    else
      var m := MinOf(s[1..]);
      assert forall y :: y in s ==> y == s[0] || y in s[1..];
      if s[0] <= m then s[0] else m
  }

  /** `(60 * 60 - min(t, 60 * 60)) / (60 * 60) * 5`, before rounding. */
  function RatingValue(t: real): real {
    (3600.0 - (if t <= 3600.0 then t else 3600.0)) / 3600.0 * 5.0
  }

  /**
   * `calculate_couriers_rating(c)` given the courier's profile (`None` when
   * the courier is unknown).
   */
  function Rate(profile: Option<Profile>, rows: seq<OrderRow>, c: int): (r: Result<Report, Error>)
    ensures r == Failure(CourierNotFound(c)) <==> profile.None?
    ensures r.Success? ==>
      profile.Some? && r.value.courierId == c && r.value.ctype == profile.value.ctype &&
      r.value.regions == profile.value.regions && r.value.workingHours == profile.value.workingHours
    ensures r.Success? && r.value.rating.None? ==> r.value.earnings == 0
  {
    match profile {
      case None => Failure(CourierNotFound(c))
      case Some(p) =>
      var held := AssignedRows(rows, c);
      var ts := BatchTimes(held);
      var types := DeliveredTypes(held, ts);
      if |types| == 0 then
        Success(Report(c, p.ctype, p.regions, p.workingHours, 0, None))
      else
        var desc := CompletedLatestFirst(rows, c);
        var averages := Averages(desc, DeliveryTimes(desc), p.regions);
        if averages == [] then Failure(NoRatedRegion)
        else Success(Report(c, p.ctype, p.regions, p.workingHours, PaySum(types),
                            Some(RatingValue(MinOf(averages)))))
    }
  }

  // ---------------------------------------------------------------------
  // Properties

  /** The rating lies in [0, 5] for a non-negative mean, is 0 from an hour on and 5 at zero. */
  lemma RatingBounds(t: real)
    ensures 0.0 <= RatingValue(t)
    ensures t >= 0.0 ==> RatingValue(t) <= 5.0
    ensures t >= 3600.0 ==> RatingValue(t) == 0.0
    ensures t <= 0.0 ==> RatingValue(t) >= 5.0
  {
  }

  /** A shorter mean delivery time never rates lower. */
  lemma RatingMonotone(t1: real, t2: real)
    requires t1 <= t2
    ensures RatingValue(t1) >= RatingValue(t2)
  {
  }

  /** Every delivered batch has an assigned row at its head, so its type is set. */
  lemma {:induction false} DeliveredTypesSet(s: seq<OrderRow>, ts: seq<Option<int>>)
    requires forall x :: x in s ==> x.typeWhenAssigned.Some?
    ensures forall t :: t in DeliveredTypes(s, ts) ==> t.Some?
  {
    if ts != [] {
      DeliveredTypesSet(s, ts[..|ts| - 1]);
      var b := Batch(s, ts[|ts| - 1]);
      if b != [] {
        assert b[0] in s;
      }
    }
  }

  /**
   * `deliveries_types` has one entry per fully delivered batch, in batch
   * order, and each entry is the type the batch's first order was assigned
   * with.
   */
  lemma {:induction false} DeliveredTypesHeads(s: seq<OrderRow>, ts: seq<Option<int>>)
    ensures var times := DeliveredTimes(s, ts);
      var types := DeliveredTypes(s, ts);
      |types| == |times| &&
      forall i :: 0 <= i < |times| ==>
        Batch(s, times[i]) != [] && types[i] == Batch(s, times[i])[0].typeWhenAssigned
  {
    if ts != [] {
      var n := |ts| - 1;
      DeliveredTypesHeads(s, ts[..n]);
      var b := Batch(s, ts[n]);
      var prev := DeliveredTimes(s, ts[..n]);
      var times := DeliveredTimes(s, ts);
      var types := DeliveredTypes(s, ts);
      if b != [] && Delivered(b) {
        assert times == prev + [ts[n]];
        assert types == DeliveredTypes(s, ts[..n]) + [b[0].typeWhenAssigned];
      } else {
        assert times == prev;
        assert types == DeliveredTypes(s, ts[..n]);
      }
    }
  }

  /** Each delivered batch pays between the foot rate (1000) and the car rate (4500). */
  lemma {:induction false} PaySumBounds(types: seq<Option<CourierType>>)
    requires forall t :: t in types ==> t.Some?
    ensures 1000 * |types| <= PaySum(types) <= 4500 * |types|
  {
    if types != [] {
      var n := |types| - 1;
      assert types[n] in types;
      assert forall t :: t in types[..n] ==> t in types;
      PaySumBounds(types[..n]);
    }
  }

  /**
   * Some batch of the courier is fully delivered exactly when
   * `deliveries_types` is not empty (a listed time always has a batch).
   */
  lemma AnyBatchDelivered(held: seq<OrderRow>)
    ensures DeliveredTypes(held, BatchTimes(held)) != [] <==>
      exists t :: t in BatchTimes(held) && Delivered(Batch(held, t))
  {
    var ts := BatchTimes(held);
    var times := DeliveredTimes(held, ts);
    DeliveredTypesHeads(held, ts);
    if exists t :: t in ts && Delivered(Batch(held, t)) {
      var t :| t in ts && Delivered(Batch(held, t));
      var x :| x in held && x.dateAssigned == t;
      assert x in Batch(held, t);
      assert t in times;
    }
    if times != [] {
      assert times[0] in times;
    }
  }

  /**
   * In a well-formed table the courier is paid once per fully delivered
   * batch, between 1000 and 4500 for each, and earns nothing exactly when no
   * batch is fully delivered.
   */
  lemma EarningsPerBatch(rows: seq<OrderRow>, c: int)
    requires TableWellFormed(rows)
    ensures var held := AssignedRows(rows, c);
      var delivered := DeliveredTimes(held, BatchTimes(held));
      var earned := PaySum(DeliveredTypes(held, BatchTimes(held)));
      (forall i, j :: 0 <= i < j < |delivered| ==> delivered[i] != delivered[j]) &&
      1000 * |delivered| <= earned <= 4500 * |delivered| &&
      (earned == 0 <==> forall t :: t in BatchTimes(held) ==> !Delivered(Batch(held, t)))
  {
    var held := AssignedRows(rows, c);
    forall x | x in held ensures x.typeWhenAssigned.Some? {
      WellFormedMember(rows, x);
    }
    DeliveredTypesHeads(held, BatchTimes(held));
    AnyBatchDelivered(held);
    DeliveredTypesSet(held, BatchTimes(held));
    PaySumBounds(DeliveredTypes(held, BatchTimes(held)));
  }

  /** The completed orders of the courier, latest finish first. */
  lemma {:induction false} CompletedOrder(rows: seq<OrderRow>, c: int)
    ensures forall x :: x in CompletedLatestFirst(rows, c) <==> x in rows && x.courierId == Some(c) && x.status == Completed
    ensures var desc := CompletedLatestFirst(rows, c);
      forall i, j :: 0 <= i < j < |desc| ==> FinishTime(desc[i]) >= FinishTime(desc[j])
  {
    var sorted := SortBy(Where(rows, (x: OrderRow) => x.courierId == Some(c) && x.status == Completed), FinishTime);
    var desc := CompletedLatestFirst(rows, c);
    forall x ensures x in desc <==> x in sorted {
      if x in desc {
        var i :| 0 <= i < |desc| && desc[i] == x;
        assert sorted[|sorted| - 1 - i] == x;
      }
      if x in sorted {
        var i :| 0 <= i < |sorted| && sorted[i] == x;
        assert desc[|sorted| - 1 - i] == x;
      }
    }
    forall i, j | 0 <= i < j < |desc| ensures FinishTime(desc[i]) >= FinishTime(desc[j]) {
      assert Le(FinishTime, sorted[|desc| - 1 - j], sorted[|desc| - 1 - i]);
    }
  }

  function SumInts(s: seq<int>): int {
    if s == [] then 0 else s[0] + SumInts(s[1..])
  }

  /**
   * The delivery times split the span from the oldest completed order's
   * assignment to the latest finish: they add up to exactly that span.
   */
  lemma {:induction false} DeliveryTimesTotal(desc: seq<OrderRow>)
    requires desc != []
    ensures SumInts(DeliveryTimes(desc)) == FinishTime(desc[0]) - AssignTime(desc[|desc| - 1])
  {
    if |desc| > 1 {
      assert DeliveryTimes(desc)[1..] == DeliveryTimes(desc[1..]);
      DeliveryTimesTotal(desc[1..]);
    }
  }

  /**
   * On finish-descending orders every gap is non-negative, and so is the last
   * time when the oldest order finished no earlier than it was assigned.
   */
  lemma DeliveryTimesNonNegative(desc: seq<OrderRow>)
    requires forall i, j :: 0 <= i < j < |desc| ==> FinishTime(desc[i]) >= FinishTime(desc[j])
    requires desc != [] ==> FinishTime(desc[|desc| - 1]) >= AssignTime(desc[|desc| - 1])
    ensures forall i :: 0 <= i < |desc| ==> DeliveryTimes(desc)[i] >= 0
  {
  }

  lemma {:induction false} RegionCountZero(desc: seq<OrderRow>, g: int)
    ensures RegionCount(desc, g) == 0 <==> forall x :: x in desc ==> x.region != g
  {
    if desc != [] {
      var n := |desc| - 1;
      RegionCountZero(desc[..n], g);
      assert desc == desc[..n] + [desc[n]];
      assert forall x :: x in desc <==> x in desc[..n] || x == desc[n];
    }
  }

  lemma {:induction false} RegionSumNonNegative(desc: seq<OrderRow>, times: seq<int>, g: int)
    requires |times| == |desc| && forall i :: 0 <= i < |times| ==> times[i] >= 0
    ensures RegionSum(desc, times, g) >= 0
  {
    if desc != [] {
      var n := |desc| - 1;
      RegionSumNonNegative(desc[..n], times[..n], g);
    }
  }

  /**
   * `average_time` is empty (so `min` raises) exactly when no completed order
   * lies in one of the courier's regions; with non-negative delivery times
   * every mean is non-negative.
   */
  lemma {:induction false} AveragesFacts(desc: seq<OrderRow>, times: seq<int>, regions: seq<int>)
    requires |times| == |desc|
    ensures |Averages(desc, times, regions)| <= |regions|
    ensures Averages(desc, times, regions) == [] <==> forall x :: x in desc ==> x.region !in regions
    ensures (forall i :: 0 <= i < |times| ==> times[i] >= 0) ==>
              forall a :: a in Averages(desc, times, regions) ==> a >= 0.0
  {
    if regions != [] {
      var n := |regions| - 1;
      var g := regions[n];
      AveragesFacts(desc, times, regions[..n]);
      RegionCountZero(desc, g);
      assert forall h :: h in regions <==> h in regions[..n] || h == g by {
        assert regions == regions[..n] + [g];
      }
      if (forall i :: 0 <= i < |times| ==> times[i] >= 0) {
        RegionSumNonNegative(desc, times, g);
      }
    }
  }

  /**
   * A delivered batch of a well-formed table has completed orders, so
   * `completed_orders[-1]` exists; the rating is then missing only when none
   * of them is in the courier's current regions (the `min` of an empty list).
   */
  lemma RateFails(p: Profile, rows: seq<OrderRow>, c: int)
    requires TableWellFormed(rows)
    ensures var held := AssignedRows(rows, c);
      (exists t :: t in BatchTimes(held) && Delivered(Batch(held, t))) ==>
        CompletedLatestFirst(rows, c) != [] &&
        (Rate(Some(p), rows, c).Failure? <==>
           forall x :: x in rows && x.courierId == Some(c) && x.status == Completed ==> x.region !in p.regions)
  {
    var held := AssignedRows(rows, c);
    var ts := BatchTimes(held);
    var desc := CompletedLatestFirst(rows, c);
    AnyBatchDelivered(held);
    CompletedOrder(rows, c);
    AveragesFacts(desc, DeliveryTimes(desc), p.regions);
    if |DeliveredTypes(held, ts)| > 0 {
      var t := DeliveredBatch(held, ts);
      var b := Batch(held, t);
      assert b[0] in held;
      WellFormedMember(rows, b[0]);
      assert b[0] in desc;
    }
  }

  /** Some delivered batch, when the count is positive. */
  lemma {:induction false} DeliveredBatch(s: seq<OrderRow>, ts: seq<Option<int>>) returns (t: Option<int>)
    requires |DeliveredTypes(s, ts)| > 0
    ensures t in ts && Batch(s, t) != [] && Delivered(Batch(s, t))
  {
    var b := Batch(s, ts[|ts| - 1]);
    if b != [] && Delivered(b) {
      t := ts[|ts| - 1];
    } else {
      t := DeliveredBatch(s, ts[..|ts| - 1]);
      assert t in ts[..|ts| - 1];
    }
  }

  /** A rating, when there is one, is the rating of the shortest per-region mean. */
  lemma RatingInRange(p: Profile, rows: seq<OrderRow>, c: int)
    requires forall x :: x in rows && x.courierId == Some(c) && x.status == Completed ==> FinishTime(x) >= AssignTime(x)
    ensures Rate(Some(p), rows, c).Success? && Rate(Some(p), rows, c).value.rating.Some? ==>
              0.0 <= Rate(Some(p), rows, c).value.rating.value <= 5.0
  {
    var desc := CompletedLatestFirst(rows, c);
    CompletedOrder(rows, c);
    if desc != [] {
      assert desc[|desc| - 1] in desc;
    }
    DeliveryTimesNonNegative(desc);
    var times := DeliveryTimes(desc);
    AveragesFacts(desc, times, p.regions);
    var averages := Averages(desc, times, p.regions);
    if averages != [] {
      RatingBounds(MinOf(averages));
    }
  }

  /**
   * Without a delivered batch the answer has earnings 0 and no rating; with
   * one, a rating is in [0, 5] whenever every completed order of the courier
   * finished no earlier than it was assigned.
   */
  lemma RateBounds(p: Profile, rows: seq<OrderRow>, c: int)
    ensures var held := AssignedRows(rows, c);
      (forall t :: t in BatchTimes(held) ==> !Delivered(Batch(held, t))) ==>
        Rate(Some(p), rows, c) == Success(Report(c, p.ctype, p.regions, p.workingHours, 0, None))
    ensures (forall x :: x in rows && x.courierId == Some(c) && x.status == Completed ==> FinishTime(x) >= AssignTime(x)) &&
            Rate(Some(p), rows, c).Success? && Rate(Some(p), rows, c).value.rating.Some? ==>
              0.0 <= Rate(Some(p), rows, c).value.rating.value <= 5.0
  {
    AnyBatchDelivered(AssignedRows(rows, c));
    if (forall x :: x in rows && x.courierId == Some(c) && x.status == Completed ==> FinishTime(x) >= AssignTime(x)) {
      RatingInRange(p, rows, c);
    }
  }

  /** Orders all assigned at one time `t` form a single batch, listed once. */
  lemma SingleBatch(held: seq<OrderRow>, t: Option<int>)
    requires held != [] && forall x :: x in held ==> x.dateAssigned == t
    ensures BatchTimes(held) == [t]
    ensures forall x :: x in Batch(held, t) <==> x in held
  {
    var ts := BatchTimes(held);
    assert held[0] in held;
    assert t in ts;
    forall u | u in ts ensures u == t {
      var x :| x in held && x.dateAssigned == u;
    }
    assert ts[0] in ts;
  }

  /**
   * The `orders` table of the courier test (test_main.py:81-349), weights in
   * hundredths: courier 2 got orders 3, 4 and 6 at time `batchTime` as a bike,
   * courier 1 got order 1 a moment later on foot, orders 2 and 5 stay
   * unassigned, and order 6 was completed at `done6`. `done3` and `done4` are
   * the finish times of orders 3 and 4, if they are completed.
   */
  function CourierTestOrders(batchTime: int, done6: int, done3: Option<int>, done4: Option<int>): seq<OrderRow> {
    [OrderRow(1, 23, 12, Assigned, 0, Some(batchTime + 1), None, Some(1), Some(Foot)),
     OrderRow(2, 1500, 1, Unassigned, 0, None, None, None, None),
     OrderRow(3, 1, 22, if done3.Some? then Completed else Assigned, 0, Some(batchTime), done3, Some(2), Some(Bike)),
     OrderRow(4, 1, 22, if done4.Some? then Completed else Assigned, 0, Some(batchTime), done4, Some(2), Some(Bike)),
     OrderRow(5, 1600, 22, Unassigned, 0, None, None, None, None),
     OrderRow(6, 1480, 22, Completed, 0, Some(batchTime), Some(done6), Some(2), Some(Bike))]
  }

  /**
   * The courier test, first request: courier 2, now a car serving regions 12
   * and 22, has completed order 6 but orders 3 and 4 of the same batch are
   * still open, so there are no earnings and no rating, whatever the clock.
   */
  lemma RatingExampleOpen(batchTime: int, done6: int)
    ensures Rate(Some(Profile(Car, [12, 22], ["09:00-18:00"])), CourierTestOrders(batchTime, done6, None, None), 2)
            == Success(Report(2, Car, [12, 22], ["09:00-18:00"], 0, None))
  {
    var p := Profile(Car, [12, 22], ["09:00-18:00"]);
    var rows := CourierTestOrders(batchTime, done6, None, None);
    var held := AssignedRows(rows, 2);
    assert rows[2] in held;
    SingleBatch(held, Some(batchTime));
    assert !Delivered(Batch(held, Some(batchTime))) by {
      assert rows[2] in Batch(held, Some(batchTime));
    }
    RateBounds(p, rows, 2);
  }

  /** One fully delivered batch, batchTime as kind `k`, gives `deliveries_types == [k]`. */
  lemma OneBatchTypes(held: seq<OrderRow>, t: Option<int>, k: CourierType)
    requires held != []
    requires forall x :: x in held ==> x.dateAssigned == t && x.typeWhenAssigned == Some(k) && x.dateFinished.Some?
    ensures DeliveredTypes(held, BatchTimes(held)) == [Some(k)]
  {
    SingleBatch(held, t);
    var ts := BatchTimes(held);
    assert Delivered(Batch(held, t));
    var times := DeliveredTimes(held, ts);
    assert times == [t] by {
      assert t in times;
      forall u | u in times ensures u == t {
        assert u in ts;
      }
      assert times[0] in times;
    }
    DeliveredTypesHeads(held, ts);
    assert Batch(held, t)[0] in held;
  }

  /**
   * A courier whose batchTime orders form one batch, fully delivered and
   * batchTime as kind `k`, earns that kind's rate once, and has a rating when
   * one of its completed orders lies in its regions.
   */
  lemma OneDeliveredBatch(p: Profile, rows: seq<OrderRow>, c: int, t: Option<int>, k: CourierType)
    requires AssignedRows(rows, c) != []
    requires forall x :: x in AssignedRows(rows, c) ==>
      x.dateAssigned == t && x.typeWhenAssigned == Some(k) && x.dateFinished.Some?
    requires exists x :: x in rows && x.courierId == Some(c) && x.status == Completed && x.region in p.regions
    ensures var r := Rate(Some(p), rows, c);
      r.Success? && r.value.earnings == Coefficient(k) * 500 && r.value.rating.Some?
  {
    OneBatchTypes(AssignedRows(rows, c), t, k);
    assert [Some(k)][..0] == [];
    assert PaySum([Some(k)]) == Coefficient(k) * 500;
    var desc := CompletedLatestFirst(rows, c);
    CompletedOrder(rows, c);
    AveragesFacts(desc, DeliveryTimes(desc), p.regions);
    var x :| x in rows && x.courierId == Some(c) && x.status == Completed && x.region in p.regions;
    assert x in desc;
  }

  /**
   * The courier test, second request: with orders 3 and 4 completed too, the
   * batch pays 5 * 500 = 2500, the rate of the bike the courier rode when it
   * was assigned, though the courier is a car by now, and a rating exists,
   * whatever the clock.
   */
  lemma RatingExampleDone(batchTime: int, done6: int, done3: int, done4: int)
    ensures var r := Rate(Some(Profile(Car, [12, 22], ["09:00-18:00"])),
                          CourierTestOrders(batchTime, done6, Some(done3), Some(done4)), 2);
      r.Success? && r.value.earnings == 2500 && r.value.rating.Some?
  {
    var p := Profile(Car, [12, 22], ["09:00-18:00"]);
    var rows := CourierTestOrders(batchTime, done6, Some(done3), Some(done4));
    assert rows[2] in AssignedRows(rows, 2);
    assert rows[2] in rows && rows[2].courierId == Some(2) && rows[2].status == Completed && rows[2].region in p.regions;
    OneDeliveredBatch(p, rows, 2, Some(batchTime), Bike);
  }
}
