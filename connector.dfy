/**
 * The `DatabaseConnector` class of utils.py: the store's tables as fields,
 * and its operations as methods whose loops follow the source, each proved to
 * compute what the functions of the other modules specify.
 */
module Connector {
  import opened Wrappers
  import opened Models
  import opened Store
  import opened TimeWindows
  import opened Assignment
  import Completion
  import opened Revalidation
  import opened Rating

  // ---------------------------------------------------------------------
  // unpack_delivery_hours (utils.py:18-27)

  /** One row of the `delivery_hours` table: an order id and one of its windows. */
  type HoursRow = (int, string)

  /** The rows grouped per order id, each order's windows in row order. */
  function GroupHours(pairs: seq<HoursRow>): (m: map<int, seq<string>>)
    ensures forall id :: id in m ==> m[id] != []
  {
    if pairs == [] then map[]
    else
      var m := GroupHours(pairs[..|pairs| - 1]);
      var (id, h) := pairs[|pairs| - 1];
      if id in m then m[id := m[id] + [h]] else m[id := [h]]
  }

  /** The windows listed for `id`, in row order. */
  function HoursOf(pairs: seq<HoursRow>, id: int): seq<string> {
    if pairs == [] then [] else (if pairs[0].0 == id then [pairs[0].1] else []) + HoursOf(pairs[1..], id)
  }

  lemma {:induction false} HoursOfAppend(pairs: seq<HoursRow>, p: HoursRow, id: int)
    ensures HoursOf(pairs + [p], id) == HoursOf(pairs, id) + (if p.0 == id then [p.1] else [])
  {
    if pairs == [] {
      assert pairs + [p] == [p];
    } else {
      assert (pairs + [p])[1..] == pairs[1..] + [p];
      HoursOfAppend(pairs[1..], p, id);
    }
  }

  /**
   * The grouped dict holds a key exactly for the orders that have windows,
   * and under it exactly their windows in row order.
   */
  lemma {:induction false} GroupHoursLookup(pairs: seq<HoursRow>, id: int)
    ensures id in GroupHours(pairs) <==> HoursOf(pairs, id) != []
    ensures RowsOf(GroupHours(pairs), id) == HoursOf(pairs, id)
  {
    if pairs != [] {
      var n := |pairs| - 1;
      GroupHoursLookup(pairs[..n], id);
      assert pairs == pairs[..n] + [pairs[n]];
      HoursOfAppend(pairs[..n], pairs[n], id);
    }
  }

  method UnpackDeliveryHours(pairs: seq<HoursRow>) returns (m: map<int, seq<string>>)
    ensures m == GroupHours(pairs)
  {
    m := map[];
    var i := 0;
    while i < |pairs|
      invariant 0 <= i <= |pairs|
      invariant m == GroupHours(pairs[..i])
    {
      var (id, h) := pairs[i];
      if id in m {
        m := m[id := m[id] + [h]];
      } else {
        m := m[id := [h]];
      }
      assert pairs[..i + 1][..i] == pairs[..i];
      i := i + 1;
    }
    assert pairs[..|pairs|] == pairs;
  }

  // ---------------------------------------------------------------------
  // Loop bookkeeping

  /** A filter's result with the rows `acc` already kept in front of it. */
  function Prefixed(acc: seq<OrderRow>, r: Result<seq<OrderRow>, Error>): Result<seq<OrderRow>, Error> {
    match r
    case Failure(e) => Failure(e)
    case Success(v) => Success(acc + v)
  }

  lemma PrefixedEmpty(r: Result<seq<OrderRow>, Error>)
    ensures Prefixed([], r) == r
  {
    if r.Success? {
      assert [] + r.value == r.value;
    }
  }

  /** Keeping `x` and then the rest is keeping `acc + [x]` in front of the rest. */
  lemma PrefixedSnoc(acc: seq<OrderRow>, x: OrderRow, r: Result<seq<OrderRow>, Error>)
    ensures Prefixed(acc, Prefixed([x], r)) == Prefixed(acc + [x], r)
  {
    if r.Success? {
      assert acc + ([x] + r.value) == (acc + [x]) + r.value;
    }
  }

  /** One round of the time-filter loop: the first candidate raises, is kept, or is skipped. */
  lemma TimeFilteredStep(s: seq<OrderRow>, working: seq<string>, dh: map<int, seq<string>>)
    requires s != []
    ensures var hours := RowsOf(dh, s[0].id);
      (hours == [] ==> TimeFiltered(s, working, dh) == Failure(MissingDeliveryHours(s[0].id))) &&
      (hours != [] && HoursIntersect(working, hours).None? ==> TimeFiltered(s, working, dh) == Failure(BadTimeWindow)) &&
      (hours != [] && HoursIntersect(working, hours) == Some(true) ==>
         TimeFiltered(s, working, dh) == Prefixed([s[0]], TimeFiltered(s[1..], working, dh))) &&
      (hours != [] && HoursIntersect(working, hours) == Some(false) ==>
         TimeFiltered(s, working, dh) == TimeFiltered(s[1..], working, dh))
  {
  }

  /** One more UPDATE of the stamping loop. */
  lemma StampStep(rows: seq<OrderRow>, ids: seq<int>, k: nat, c: int, t: CourierType, now: int)
    requires k < |ids|
    ensures StampAll(rows, ids[..k + 1], c, t, now) ==
            UpdateWhere(StampAll(rows, ids[..k], c, t, now), [ids[k]], (x: OrderRow) => Stamp(x, c, t, now))
  {
    assert forall id :: id in ids[..k + 1] <==> id in ids[..k] || id == ids[k] by {
      assert ids[..k + 1] == ids[..k] + [ids[k]];
    }
  }

  /** The loop at utils.py:149-151: candidates in row order, raising at the first unusable one. */
  method FilterByTime(possible: seq<OrderRow>, working: seq<string>, dh: map<int, seq<string>>)
    returns (r: Result<seq<OrderRow>, Error>)
    ensures r == TimeFiltered(possible, working, dh)
  {
    var fitting: seq<OrderRow> := [];
    var i := 0;
    assert possible[0..] == possible;
    PrefixedEmpty(TimeFiltered(possible, working, dh));
    while i < |possible|
      invariant 0 <= i <= |possible|
      invariant TimeFiltered(possible, working, dh) == Prefixed(fitting, TimeFiltered(possible[i..], working, dh))
    {
      assert possible[i..][1..] == possible[i + 1..];
      TimeFilteredStep(possible[i..], working, dh);
      var hours := RowsOf(dh, possible[i].id);
      if hours == [] {
        return Failure(MissingDeliveryHours(possible[i].id));
      }
      var ok := HoursIntersect(working, hours);
      if ok.None? {
        return Failure(BadTimeWindow);
      }
      if ok.value {
        PrefixedSnoc(fitting, possible[i], TimeFiltered(possible[i + 1..], working, dh));
        fitting := fitting + [possible[i]];
      }
      i := i + 1;
    }
    assert fitting + [] == fitting;
    r := Success(fitting);
  }

  /** The loop at utils.py:159-165: accept while the remaining load stays non-negative. */
  method TakeWhileFits(sorted: seq<OrderRow>, rest: int) returns (valid: seq<OrderRow>)
    ensures valid == Greedy(sorted, rest)
  {
    valid := [];
    var restLoad := rest;
    var j := 0;
    while j < |sorted|
      invariant 0 <= j <= |sorted|
      invariant Greedy(sorted, rest) == valid + Greedy(sorted[j..], restLoad)
    {
      assert sorted[j..][1..] == sorted[j + 1..];
      var delta := restLoad - sorted[j].weight;
      if delta < 0 {
        break;
      }
      assert forall v :: valid + ([sorted[j]] + v) == (valid + [sorted[j]]) + v;
      valid := valid + [sorted[j]];
      restLoad := delta;
      j := j + 1;
    }
    assert valid + [] == valid;
  }

  /** The loop at utils.py:238-241: the current orders whose windows fail, raising at the first unusable one. */
  method CollectBadHours(current: seq<OrderRow>, working: seq<string>, dh: map<int, seq<string>>)
    returns (r: Result<seq<OrderRow>, Error>)
    ensures r == BadHours(current, working, dh)
  {
    var invalid: seq<OrderRow> := [];
    var i := 0;
    assert current[0..] == current;
    PrefixedEmpty(BadHours(current, working, dh));
    while i < |current|
      invariant 0 <= i <= |current|
      invariant BadHours(current, working, dh) == Prefixed(invalid, BadHours(current[i..], working, dh))
    {
      assert current[i..][1..] == current[i + 1..];
      var hours := RowsOf(dh, current[i].id);
      if hours == [] {
        return Failure(MissingDeliveryHours(current[i].id));
      }
      var ok := HoursIntersect(working, hours);
      if ok.None? {
        return Failure(BadTimeWindow);
      }
      if !ok.value {
        assert forall v :: invalid + ([current[i]] + v) == (invalid + [current[i]]) + v;
        invalid := invalid + [current[i]];
      }
      i := i + 1;
    }
    assert invalid + [] == invalid;
    r := Success(invalid);
  }

  /** The loop at utils.py:258-262 over the orders heaviest first. */
  method ChooseDropped(desc: seq<OrderRow>, rest: int) returns (dropped: seq<OrderRow>)
    ensures dropped == DropLoop(desc, rest)
  {
    dropped := [];
    var j := 0;
    while j < |desc|
      invariant 0 <= j <= |desc|
      invariant DropLoop(desc, rest) == dropped + DropLoop(desc[j..], rest)
    {
      assert desc[j..][1..] == desc[j + 1..];
      var delta := rest + desc[j].weight;
      assert forall v :: dropped + ([desc[j]] + v) == (dropped + [desc[j]]) + v;
      dropped := dropped + [desc[j]];
      if delta >= 0 {
        assert dropped + [] == dropped;
        break;
      }
      j := j + 1;
    }
    assert dropped + [] == dropped;
  }

  // ---------------------------------------------------------------------
  // The loops of calculate_couriers_rating (utils.py:345-379)

  /** `temp`: the orders of the batch assigned at `t`, collected in one pass. */
  method CollectBatch(held: seq<OrderRow>, t: Option<int>) returns (temp: seq<OrderRow>)
    ensures temp == Batch(held, t)
  {
    temp := [];
    var j := 0;
    while j < |held|
      invariant 0 <= j <= |held|
      invariant temp == Where(held[..j], (x: OrderRow) => x.dateAssigned == t)
    {
      assert held[..j + 1] == held[..j] + [held[j]];
      WhereAppend(held[..j], [held[j]], (x: OrderRow) => x.dateAssigned == t);
      if held[j].dateAssigned == t {
        temp := temp + [held[j]];
      }
      j := j + 1;
    }
    assert held[..|held|] == held;
  }

  /** `deliveries_types`: the type of each batch whose orders are all finished. */
  method DeliveriesTypes(held: seq<OrderRow>, ts: seq<Option<int>>) returns (types: seq<Option<CourierType>>)
    ensures types == DeliveredTypes(held, ts)
  {
    types := [];
    var i := 0;
    while i < |ts|
      invariant 0 <= i <= |ts|
      invariant types == DeliveredTypes(held, ts[..i])
    {
      assert ts[..i + 1][..i] == ts[..i];
      var temp := CollectBatch(held, ts[i]);
      if temp != [] && Delivered(temp) {
        types := types + [temp[0].typeWhenAssigned];
      }
      i := i + 1;
    }
    assert ts[..|ts|] == ts;
  }

  /** `earnings += coefficient[delivery_type] * 500` for each delivered batch. */
  method SumEarnings(types: seq<Option<CourierType>>) returns (earnings: nat)
    ensures earnings == PaySum(types)
  {
    earnings := 0;
    var i := 0;
    while i < |types|
      invariant 0 <= i <= |types|
      invariant earnings == PaySum(types[..i])
    {
      assert types[..i + 1][..i] == types[..i];
      earnings := earnings + Pay(types[i]);
      i := i + 1;
    }
    assert types[..|types|] == types;
  }

  /** The `delivery_time` of each completed order, latest finish first, in milliseconds. */
  method ComputeDeliveryTimes(desc: seq<OrderRow>) returns (times: seq<int>)
    ensures times == DeliveryTimes(desc)
  {
    times := [];
    var i := 0;
    while i < |desc|
      invariant 0 <= i <= |desc|
      invariant |times| == i && forall k :: 0 <= k < i ==> times[k] == DeliveryTimes(desc)[k]
    {
      if i + 1 < |desc| {
        times := times + [FinishTime(desc[i]) - FinishTime(desc[i + 1])];
      } else {
        times := times + [FinishTime(desc[i]) - AssignTime(desc[i])];
      }
      i := i + 1;
    }
  }

  /** `temp_sum` and `temp_number` for one region. */
  method RegionTotals(desc: seq<OrderRow>, times: seq<int>, g: int) returns (sum: int, number: nat)
    requires |times| == |desc|
    ensures sum == RegionSum(desc, times, g) && number == RegionCount(desc, g)
  {
    sum, number := 0, 0;
    var j := 0;
    while j < |desc|
      invariant 0 <= j <= |desc|
      invariant sum == RegionSum(desc[..j], times[..j], g) && number == RegionCount(desc[..j], g)
    {
      assert desc[..j + 1][..j] == desc[..j] && times[..j + 1][..j] == times[..j];
      if desc[j].region == g {
        sum := sum + times[j];
        number := number + 1;
      }
      j := j + 1;
    }
    assert desc[..|desc|] == desc && times[..|times|] == times;
  }

  /** `average_time`: the mean delivery time, in seconds, of each region that has one. */
  method AverageTimes(desc: seq<OrderRow>, times: seq<int>, regions: seq<int>) returns (averages: seq<real>)
    requires |times| == |desc|
    ensures averages == Averages(desc, times, regions)
  {
    averages := [];
    var i := 0;
    while i < |regions|
      invariant 0 <= i <= |regions|
      invariant averages == Averages(desc, times, regions[..i])
    {
      assert regions[..i + 1][..i] == regions[..i];
      var sum, number := RegionTotals(desc, times, regions[i]);
      if number != 0 {
        averages := averages + [sum as real / number as real / 1000.0];
      }
      i := i + 1;
    }
    assert regions[..|regions|] == regions;
  }

  // ---------------------------------------------------------------------
  // The store

  class DatabaseConnector {
    /** `couriers`: id to type. */
    var couriers: map<int, CourierType>
    /** `regions`: each courier's region rows. */
    var regions: map<int, seq<int>>
    /** `working_hours`: each courier's window rows. */
    var workingHours: map<int, seq<string>>
    /** `orders`, in rowid order. */
    var orders: seq<OrderRow>
    /** `delivery_hours`, in rowid order. */
    var deliveryHours: seq<HoursRow>

    /** What every write keeps true of the `orders` table. */
    ghost predicate Valid()
      reads this
    {
      TableWellFormed(orders)
    }

    /** A store with freshly created, empty tables. */
    constructor ()
      ensures Valid()
      ensures couriers == map[] && regions == map[] && workingHours == map[]
      ensures orders == [] && deliveryHours == []
    {
      couriers := map[];
      regions := map[];
      workingHours := map[];
      orders := [];
      deliveryHours := [];
    }

    /** `get_actual_courier_status` without the orders; `None` for an unknown courier. */
    function CourierProfile(c: int): (p: Option<Profile>)
      reads this
      ensures p.Some? <==> c in couriers
    {
      ProfileOf(couriers, regions, workingHours, c)
    }

    /** `assign_orders_to_courier` (utils.py:130-181) with the clock reading `now`. */
    method AssignOrdersToCourier(c: int, now: int) returns (r: Result<Assignment, Error>)
      requires Valid()
      modifies this
      ensures Valid()
      ensures (r, orders) == Assign(old(CourierProfile(c)), old(orders), GroupHours(deliveryHours), c, now)
      ensures couriers == old(couriers) && regions == old(regions) && workingHours == old(workingHours)
      ensures deliveryHours == old(deliveryHours)
    {
      var dh := UnpackDeliveryHours(deliveryHours);
      AssignKeepsTable(CourierProfile(c), orders, dh, c, now);
      var profile := CourierProfile(c);
      if profile.None? {
        return Failure(CourierNotFound(c));
      }
      var p := profile.value;
      var current := CurrentRows(orders, c);
      var restLoad := Capacity(p.ctype) - Load(current);
      var possible := CandidateRows(orders, p.regions);
      if possible == [] {
        assert Accepted(p, orders, dh, c) == Success([]);
        return Success(Assignment([], None));
      }
      var fitting := FilterByTime(possible, p.workingHours, dh);
      if fitting.Failure? {
        assert Accepted(p, orders, dh, c) == Failure(fitting.error);
        return Failure(fitting.error);
      }
      if fitting.value == [] {
        assert Accepted(p, orders, dh, c) == Success([]);
        return Success(Assignment([], None));
      }
      var valid := TakeWhileFits(SortBy(fitting.value, Weight), restLoad);
      assert Accepted(p, orders, dh, c) == Success(valid);
      if valid == [] {
        return Success(Assignment([], None));
      }
      var ids := Ids(valid);
      StampOrders(ids, c, p.ctype, now);
      if current == [] {
        r := Success(Assignment(ids, Some(now)));
      } else {
        r := Success(Assignment(Ids(current) + ids, MinAssigned(CurrentRows(orders, c))));
      }
    }

    /** The UPDATE loop at utils.py:171-174: one batch time for every accepted order. */
    method StampOrders(ids: seq<int>, c: int, t: CourierType, now: int)
      modifies this
      ensures orders == StampAll(old(orders), ids, c, t, now)
      ensures couriers == old(couriers) && regions == old(regions) && workingHours == old(workingHours)
      ensures deliveryHours == old(deliveryHours)
    {
      var k := 0;
      while k < |ids|
        invariant 0 <= k <= |ids|
        invariant orders == StampAll(old(orders), ids[..k], c, t, now)
        invariant couriers == old(couriers) && regions == old(regions) && workingHours == old(workingHours)
        invariant deliveryHours == old(deliveryHours)
      {
        StampStep(old(orders), ids, k, c, t, now);
        orders := UpdateWhere(orders, [ids[k]], (x: OrderRow) => Stamp(x, c, t, now));
        k := k + 1;
      }
      assert ids[..|ids|] == ids;
    }

    /**
     * The loops at utils.py:222-227 and 243-248: pop each id from the current
     * orders (a KeyError when it is not there) and unassign its row.
     */
    method PopAndRevert(current: seq<OrderRow>, ids: seq<int>) returns (r: Result<seq<OrderRow>, Error>)
      modifies this
      ensures (r, orders) == PopRevert(old(orders), current, ids)
      ensures couriers == old(couriers) && regions == old(regions) && workingHours == old(workingHours)
      ensures deliveryHours == old(deliveryHours)
    {
      var cur := current;
      var k := 0;
      assert ids[0..] == ids;
      while k < |ids|
        invariant 0 <= k <= |ids|
        invariant PopRevert(old(orders), current, ids) == PopRevert(orders, cur, ids[k..])
        invariant couriers == old(couriers) && regions == old(regions) && workingHours == old(workingHours)
        invariant deliveryHours == old(deliveryHours)
      {
        assert ids[k..][1..] == ids[k + 1..];
        if ids[k] !in Ids(cur) {
          return Failure(NotCurrentOrder(ids[k]));
        }
        cur := Without(cur, [ids[k]]);
        orders := RevertAll(orders, [ids[k]]);
        k := k + 1;
      }
      r := Success(cur);
    }

    /** The UPDATE loop at utils.py:263-267: unassign every listed order. */
    method RevertOrders(ids: seq<int>)
      modifies this
      ensures orders == RevertAll(old(orders), ids)
      ensures couriers == old(couriers) && regions == old(regions) && workingHours == old(workingHours)
      ensures deliveryHours == old(deliveryHours)
    {
      var k := 0;
      assert forall i :: 0 <= i < |orders| ==> RevertAll(orders, ids[..0])[i] == orders[i];
      while k < |ids|
        invariant 0 <= k <= |ids|
        invariant orders == RevertAll(old(orders), ids[..k])
        invariant couriers == old(couriers) && regions == old(regions) && workingHours == old(workingHours)
        invariant deliveryHours == old(deliveryHours)
      {
        RevertAllTwice(old(orders), ids[..k], [ids[k]]);
        assert ids[..k] + [ids[k]] == ids[..k + 1];
        orders := RevertAll(orders, [ids[k]]);
        k := k + 1;
      }
      assert ids[..|ids|] == ids;
    }

    /** The region check (utils.py:209-229). */
    method RegionCheck(c: int, courierRegions: seq<int>, current: seq<OrderRow>)
      returns (r: Result<seq<OrderRow>, Error>)
      modifies this
      ensures (r, orders) == RegionStep(old(orders), c, courierRegions, current)
      ensures couriers == old(couriers) && regions == old(regions) && workingHours == old(workingHours)
      ensures deliveryHours == old(deliveryHours)
    {
      var bad := InvalidRegions(current, courierRegions);
      if bad == [] {
        return Success(current);
      }
      r := PopAndRevert(current, InvalidIds(orders, c, bad));
    }

    /** The working-hours check (utils.py:230-250). */
    method HoursCheck(working: seq<string>, dh: map<int, seq<string>>, current: seq<OrderRow>)
      returns (r: Result<seq<OrderRow>, Error>)
      modifies this
      ensures (r, orders) == HoursStep(old(orders), working, dh, current)
      ensures couriers == old(couriers) && regions == old(regions) && workingHours == old(workingHours)
      ensures deliveryHours == old(deliveryHours)
    {
      if current == [] {
        return Success(current);
      }
      var invalid := CollectBadHours(current, working, dh);
      if invalid.Failure? {
        return Failure(invalid.error);
      }
      r := PopAndRevert(current, Ids(invalid.value));
    }

    /** The capacity check (utils.py:252-268). */
    method TypeCheck(maxLoad: int, current: seq<OrderRow>)
      modifies this
      ensures orders == TypeStep(old(orders), maxLoad, current)
      ensures couriers == old(couriers) && regions == old(regions) && workingHours == old(workingHours)
      ensures deliveryHours == old(deliveryHours)
    {
      if current == [] {
        return;
      }
      var restLoad := maxLoad - Load(current);
      if restLoad < 0 {
        var dropped := ChooseDropped(HeaviestFirst(current), restLoad);
        RevertOrders(Ids(dropped));
      }
    }

    /** `validate_existing_orders` (utils.py:206-268): regions, then hours, then capacity. */
    method ValidateExistingOrders(c: int, changed: Changed) returns (r: Result<(), Error>)
      requires Valid()
      modifies this
      ensures Valid()
      ensures (r, orders) == Validate(old(CourierProfile(c)), old(orders), GroupHours(deliveryHours), c, changed)
      ensures couriers == old(couriers) && regions == old(regions) && workingHours == old(workingHours)
      ensures deliveryHours == old(deliveryHours)
    {
      var dh := UnpackDeliveryHours(deliveryHours);
      var profile := CourierProfile(c);
      if profile.None? {
        return Failure(CourierNotFound(c));
      }
      var p := profile.value;
      ghost var rows0 := orders;
      ValidateSpec(p, rows0, dh, c, changed);
      var current := CurrentRows(orders, c);
      var r1: Result<seq<OrderRow>, Error> := Success(current);
      if changed.regions {
        r1 := RegionCheck(c, p.regions, current);
      }
      ghost var rows1 := orders;
      assert (r1, rows1) == (if changed.regions then RegionStep(rows0, c, p.regions, current) else (Success(current), rows0));
      if r1.Failure? {
        return Failure(r1.error);
      }
      var r2 := r1;
      if changed.workingHours {
        r2 := HoursCheck(p.workingHours, dh, r1.value);
      }
      assert (r2, orders) == (if changed.workingHours then HoursStep(rows1, p.workingHours, dh, r1.value) else (r1, rows1));
      if r2.Failure? {
        return Failure(r2.error);
      }
      if changed.ctype && r2.value != [] {
        TypeCheck(Capacity(p.ctype), r2.value);
      }
      r := Success(());
    }

    /** `DELETE FROM regions WHERE courier_id = c`, then one INSERT per region (utils.py:192-195). */
    method WriteRegions(c: int, newRegions: seq<int>)
      modifies this
      ensures regions == old(regions)[c := newRegions]
      ensures couriers == old(couriers) && workingHours == old(workingHours)
      ensures orders == old(orders) && deliveryHours == old(deliveryHours)
    {
      regions := regions[c := []];
      var k := 0;
      while k < |newRegions|
        invariant 0 <= k <= |newRegions|
        invariant regions == old(regions)[c := newRegions[..k]]
        invariant couriers == old(couriers) && workingHours == old(workingHours)
        invariant orders == old(orders) && deliveryHours == old(deliveryHours)
      {
        regions := regions[c := regions[c] + [newRegions[k]]];
        assert newRegions[..k] + [newRegions[k]] == newRegions[..k + 1];
        k := k + 1;
      }
      assert newRegions[..|newRegions|] == newRegions;
    }

    /** `DELETE FROM working_hours WHERE courier_id = c`, then one INSERT per window (utils.py:197-201). */
    method WriteWorkingHours(c: int, newHours: seq<string>)
      modifies this
      ensures workingHours == old(workingHours)[c := newHours]
      ensures couriers == old(couriers) && regions == old(regions)
      ensures orders == old(orders) && deliveryHours == old(deliveryHours)
    {
      workingHours := workingHours[c := []];
      var k := 0;
      while k < |newHours|
        invariant 0 <= k <= |newHours|
        invariant workingHours == old(workingHours)[c := newHours[..k]]
        invariant couriers == old(couriers) && regions == old(regions)
        invariant orders == old(orders) && deliveryHours == old(deliveryHours)
      {
        workingHours := workingHours[c := workingHours[c] + [newHours[k]]];
        assert newHours[..k] + [newHours[k]] == newHours[..k + 1];
        k := k + 1;
      }
      assert newHours[..|newHours|] == newHours;
    }

    /** `patch_courier` (utils.py:183-204): write the sent fields, then revalidate. */
    method PatchCourier(c: int, patch: Patch) returns (r: Result<(), Error>)
      requires Valid()
      modifies this
      ensures Valid()
      ensures couriers == PatchedType(old(couriers), c, patch.ctype)
      ensures regions == Replaced(old(regions), c, patch.regions)
      ensures workingHours == Replaced(old(workingHours), c, patch.workingHours)
      ensures deliveryHours == old(deliveryHours)
      ensures (r, orders) == Validate(ProfileOf(couriers, regions, workingHours, c), old(orders),
                                      GroupHours(deliveryHours), c, ChangedBy(patch))
    {
      if patch.ctype.Some? && c in couriers {
        couriers := couriers[c := patch.ctype.value];
      }
      if patch.regions.Some? {
        WriteRegions(c, patch.regions.value);
      }
      if patch.workingHours.Some? {
        WriteWorkingHours(c, patch.workingHours.value);
      }
      r := ValidateExistingOrders(c, ChangedBy(patch));
    }

    /**
     * `calculate_couriers_rating` (utils.py:329-381): the profile, the
     * earnings of the delivered batches and, when there is one, the rating.
     */
    method CalculateCouriersRating(c: int) returns (r: Result<Report, Error>)
      ensures r == Rate(CourierProfile(c), orders, c)
    {
      var profile := CourierProfile(c);
      if profile.None? {
        return Failure(CourierNotFound(c));
      }
      var p := profile.value;
      var desc := CompletedLatestFirst(orders, c);
      var held := AssignedRows(orders, c);
      var types := DeliveriesTypes(held, BatchTimes(held));
      if |types| == 0 {
        return Success(Report(c, p.ctype, p.regions, p.workingHours, 0, None));
      }
      var earnings := SumEarnings(types);
      var times := ComputeDeliveryTimes(desc);
      var averages := AverageTimes(desc, times, p.regions);
      if averages == [] {
        return Failure(NoRatedRegion);
      }
      r := Success(Report(c, p.ctype, p.regions, p.workingHours, earnings, Some(RatingValue(MinOf(averages)))));
    }

    /** `complete_order` (utils.py:304-327). */
    method CompleteOrder(courierId: int, orderId: int, completeTime: int) returns (r: Result<int, Error>)
      requires Valid()
      modifies this
      ensures Valid()
      ensures (r, orders) == Completion.CompleteOrder(old(orders), courierId, orderId, completeTime)
      ensures couriers == old(couriers) && regions == old(regions) && workingHours == old(workingHours)
      ensures deliveryHours == old(deliveryHours)
    {
      Completion.CompleteKeepsTable(orders, courierId, orderId, completeTime);
      var row := Find(orders, orderId);
      if row.None? {
        return Failure(OrderRowMissing(orderId));
      }
      var order := row.value;
      if order.status == Unassigned {
        r := Failure(NotAssignedYet(orderId));
      } else if order.courierId != Some(courierId) {
        r := Failure(AssignedToOtherCourier(orderId));
      } else if order.status == Completed {
        r := Failure(AlreadyCompleted(orderId));
      } else {
        orders := UpdateWhere(orders, [orderId], (x: OrderRow) => Completion.Finish(x, completeTime));
        r := Success(orderId);
      }
    }
  }
}
