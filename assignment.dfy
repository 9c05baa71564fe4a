/**
 * `assign_orders_to_courier` (utils.py:130-181) as a function of the store:
 * the orders a courier would receive, the rows after the UPDATE, and the
 * answer `(order ids, assign time)`.
 */
module Assignment {
  import opened Wrappers
  import opened Models
  import opened Store
  import opened TimeWindows

  /**
   * What `get_actual_courier_status` reads of a courier besides its orders:
   * the `couriers.type` column and its rows of `regions` and `working_hours`.
   */
  datatype Profile = Profile(ctype: CourierType, regions: seq<int>, workingHours: seq<string>)

  /** `(order ids, assign time)`; `None` is the Python `None`. */
  datatype Assignment = Assignment(orderIds: seq<int>, assignTime: Option<int>)

  /** `SELECT order_id, weight FROM orders WHERE courier_id = c AND status = 1`. */
  function CurrentRows(rows: seq<OrderRow>, c: int): (r: seq<OrderRow>)
    ensures forall x :: x in r <==> x in rows && x.status == Assigned && x.courierId == Some(c)
  {
    Where(rows, (x: OrderRow) => x.status == Assigned && x.courierId == Some(c))
  }

  /** `SELECT order_id, weight FROM orders WHERE status = 0 AND region IN regions`. */
  function CandidateRows(rows: seq<OrderRow>, regions: seq<int>): (r: seq<OrderRow>)
    ensures forall x :: x in r <==> x in rows && x.status == Unassigned && x.region in regions
  {
    Where(rows, (x: OrderRow) => x.status == Unassigned && x.region in regions)
  }

  /** The order's delivery windows pass `hours_intersect` against `working`. */
  predicate InTime(x: OrderRow, working: seq<string>, deliveryHours: map<int, seq<string>>) {
    HoursIntersect(working, RowsOf(deliveryHours, x.id)) == Some(true)
  }

  /** The look-up and test at utils.py:150 succeeds (no KeyError, no ValueError). */
  predicate TimeCheckable(x: OrderRow, working: seq<string>, deliveryHours: map<int, seq<string>>) {
    RowsOf(deliveryHours, x.id) != [] && HoursIntersect(working, RowsOf(deliveryHours, x.id)).Some?
  }

  /**
   * The loop at utils.py:149-151, candidates in row order. An order with no
   * `delivery_hours` rows is missing from the grouped dict, so the look-up
   * raises instead of skipping it; a window that does not parse raises too.
   */
  function TimeFiltered(cands: seq<OrderRow>, working: seq<string>, deliveryHours: map<int, seq<string>>)
    : (r: Result<seq<OrderRow>, Error>)
    ensures r.Success? <==> forall x :: x in cands ==> TimeCheckable(x, working, deliveryHours)
    ensures r.Success? ==> forall x :: x in r.value <==> x in cands && InTime(x, working, deliveryHours)
    ensures r.Success? ==> |r.value| <= |cands|
    ensures r.Success? && IdsAscending(cands) ==> IdsAscending(r.value)
  {
    if cands == [] then Success([])
    else
      assert cands[0] in cands;
      var hours := RowsOf(deliveryHours, cands[0].id);
      if hours == [] then Failure(MissingDeliveryHours(cands[0].id))
      else
        match HoursIntersect(working, hours)
        case None => Failure(BadTimeWindow)
        case Some(ok) =>
          var rest := TimeFiltered(cands[1..], working, deliveryHours);
          HeadTail(cands);
          AscendingTail(cands);
          if rest.Failure? then rest
          else
            Success(if ok then [cands[0]] + rest.value else rest.value)
  }

  /**
   * The loop at utils.py:159-165 over the sorted candidates: accept while the
   * remaining load stays non-negative, stop at the first order that does not
   * fit.
   */
  function Greedy(s: seq<OrderRow>, rest: int): (r: seq<OrderRow>)
    ensures |r| <= |s| && r == s[..|r|]
    ensures Load(r) <= rest || (r == [] && rest < 0)
    ensures |r| < |s| ==> Load(r) + s[|r|].weight > rest
  {
    if s == [] || rest - s[0].weight < 0 then []
    else
      var tail := Greedy(s[1..], rest - s[0].weight);
      assert ([s[0]] + tail)[1..] == tail;
      [s[0]] + tail
  }

  /** The remaining load at utils.py:133: maximum load minus the current orders' weight. */
  function RestLoad(p: Profile, rows: seq<OrderRow>, c: int): int {
    Capacity(p.ctype) - Load(CurrentRows(rows, c))
  }

  /** The time-filtered candidates sorted ascending by weight (utils.py:135-157). */
  function SortedCandidates(p: Profile, rows: seq<OrderRow>, deliveryHours: map<int, seq<string>>)
    : Result<seq<OrderRow>, Error>
  {
    var cands := CandidateRows(rows, p.regions);
    if cands == [] then Success([])
    else
      match TimeFiltered(cands, p.workingHours, deliveryHours)
      case Failure(e) => Failure(e)
      case Success(fitting) => Success(SortBy(fitting, Weight))
  }

  /** The orders `assign_orders_to_courier` hands to the courier. */
  function Accepted(p: Profile, rows: seq<OrderRow>, deliveryHours: map<int, seq<string>>, c: int)
    : Result<seq<OrderRow>, Error>
  {
    match SortedCandidates(p, rows, deliveryHours)
    case Failure(e) => Failure(e)
    case Success(sorted) => Success(Greedy(sorted, RestLoad(p, rows, c)))
  }

  /** The UPDATE at utils.py:172-174 applied to one row. */
  function Stamp(x: OrderRow, c: int, t: CourierType, now: int): OrderRow {
    x.(status := Assigned, dateAssigned := Some(now), courierId := Some(c), typeWhenAssigned := Some(t))
  }

  function StampAll(rows: seq<OrderRow>, ids: seq<int>, c: int, t: CourierType, now: int): seq<OrderRow> {
    UpdateWhere(rows, ids, (x: OrderRow) => Stamp(x, c, t, now))
  }

  /**
   * `SELECT min(date_assigned) FROM orders WHERE ...` over the given rows:
   * the least assignment time, NULLs ignored, `None` when there is none.
   */
  function MinAssigned(rows: seq<OrderRow>): (m: Option<int>)
    ensures m.Some? ==> exists x :: x in rows && x.dateAssigned == m
    ensures m.Some? ==> forall x :: x in rows && x.dateAssigned.Some? ==> m.value <= x.dateAssigned.value
    ensures m.None? ==> forall x :: x in rows ==> x.dateAssigned.None?
  {
    if rows == [] then None
    else
      var rest := MinAssigned(rows[1..]);
      assert forall x :: x in rows ==> x == rows[0] || x in rows[1..];
      match rows[0].dateAssigned
      case None => rest
      case Some(d) =>
        if rest.Some? && rest.value < d then rest else Some(d)
  }

  /**
   * The whole of `assign_orders_to_courier` for courier `c` at clock `now`,
   * given the courier's profile (`None` when the courier does not exist):
   * the answer and the new rows of the `orders` table.
   */
  function Assign(profile: Option<Profile>, rows: seq<OrderRow>, deliveryHours: map<int, seq<string>>,
                  c: int, now: int): (r: (Result<Assignment, Error>, seq<OrderRow>))
    ensures |r.1| == |rows|
    ensures r.0.Failure? ==> r.1 == rows
    ensures r.0.Success? && r.0.value.orderIds == [] ==> r.0.value.assignTime.None? && r.1 == rows
  {
    match profile
    case None => (Failure(CourierNotFound(c)), rows)
    case Some(p) =>
      match Accepted(p, rows, deliveryHours, c)
      case Failure(e) => (Failure(e), rows)
      case Success(accepted) =>
        if accepted == [] then (Success(Assignment([], None)), rows)
        else
          var rows' := StampAll(rows, Ids(accepted), c, p.ctype, now);
          var current := CurrentRows(rows, c);
          if current == [] then (Success(Assignment(Ids(accepted), Some(now))), rows')
          else (Success(Assignment(Ids(current) + Ids(accepted), MinAssigned(CurrentRows(rows', c)))), rows')
  }

  // ---------------------------------------------------------------------
  // What the source promises about an assignment

  /**
   * `([], None)` and not a single write when no unassigned order lies in the
   * courier's regions, when none of them passes the time filter, or when none
   * fits the remaining load, whatever orders the courier already holds
   * (utils.py:139-140, 154-155, 166-168).
   */
  lemma AssignEmptyCases(p: Profile, rows: seq<OrderRow>, deliveryHours: map<int, seq<string>>, c: int, now: int)
    requires CandidateRows(rows, p.regions) == []
      || TimeFiltered(CandidateRows(rows, p.regions), p.workingHours, deliveryHours) == Success([])
      || Accepted(p, rows, deliveryHours, c) == Success([])
    ensures Assign(Some(p), rows, deliveryHours, c, now) == (Success(Assignment([], None)), rows)
  {
  }

  /** An unknown courier is reported and nothing is written (utils.py:275-277). */
  lemma AssignUnknownCourier(rows: seq<OrderRow>, deliveryHours: map<int, seq<string>>, c: int, now: int)
    ensures Assign(None, rows, deliveryHours, c, now) == (Failure(CourierNotFound(c)), rows)
  {
  }

  /**
   * The accepted orders are a prefix of the time-filtered candidates sorted
   * ascending by weight; together they weigh at most the remaining load, and
   * the first candidate left out would have pushed it below zero; so would
   * every later one, since they are no lighter (utils.py:133, 157-165).
   */
  lemma {:induction false} AcceptedIsGreedyPrefix(p: Profile, rows: seq<OrderRow>, deliveryHours: map<int, seq<string>>,
                                                  c: int, sorted: seq<OrderRow>, accepted: seq<OrderRow>)
    requires SortedCandidates(p, rows, deliveryHours) == Success(sorted)
    requires Accepted(p, rows, deliveryHours, c) == Success(accepted)
    ensures SortedBy(sorted, Weight)
    ensures forall x :: x in sorted <==>
      x in rows && x.status == Unassigned && x.region in p.regions && InTime(x, p.workingHours, deliveryHours)
    ensures accepted == sorted[..|accepted|]
    ensures Load(accepted) <= RestLoad(p, rows, c) || (accepted == [] && RestLoad(p, rows, c) < 0)
    ensures forall j :: |accepted| <= j < |sorted| ==> Load(accepted) + sorted[j].weight > RestLoad(p, rows, c)
  {
    var rest := RestLoad(p, rows, c);
    assert accepted == Greedy(sorted, rest);
    forall j | |accepted| <= j < |sorted| ensures Load(accepted) + sorted[j].weight > rest {
      assert Le(Weight, sorted[|accepted|], sorted[j]) || j == |accepted|;
    }
  }

  /** Every accepted order is an unassigned order of `rows`, and no id is accepted twice. */
  lemma AcceptedRows(p: Profile, rows: seq<OrderRow>, deliveryHours: map<int, seq<string>>,
                     c: int, accepted: seq<OrderRow>)
    requires IdsAscending(rows)
    requires Accepted(p, rows, deliveryHours, c) == Success(accepted)
    ensures DistinctIds(accepted)
    ensures forall x :: x in accepted ==> x in rows && x.status == Unassigned && x.region in p.regions
  {
    var cands := CandidateRows(rows, p.regions);
    if cands != [] {
      WhereAscending(rows, (x: OrderRow) => x.status == Unassigned && x.region in p.regions);
      var fitting := TimeFiltered(cands, p.workingHours, deliveryHours).value;
      var sorted := SortBy(fitting, Weight);
      assert DistinctIds(sorted);
      var g := Greedy(sorted, RestLoad(p, rows, c));
      assert forall x :: x in g ==> x in sorted;
      forall i, j | 0 <= i < j < |g| ensures g[i].id != g[j].id {
        assert g[i] == sorted[i] && g[j] == sorted[j];
      }
    }
  }

  /** Rows of an ascending table with the same id are the same row. */
  lemma SameIdSameRow(rows: seq<OrderRow>, x: OrderRow, y: OrderRow)
    requires IdsAscending(rows) && x in rows && y in rows && x.id == y.id
    ensures x == y
  {
    var i :| 0 <= i < |rows| && rows[i] == x;
    var j :| 0 <= j < |rows| && rows[j] == y;
    assert i == j;
  }

  /** With a non-empty acceptance the new rows are the stamped table. */
  lemma AssignRows(p: Profile, rows: seq<OrderRow>, deliveryHours: map<int, seq<string>>,
                   c: int, now: int, accepted: seq<OrderRow>)
    requires Accepted(p, rows, deliveryHours, c) == Success(accepted) && accepted != []
    ensures Assign(Some(p), rows, deliveryHours, c, now).1 == StampAll(rows, Ids(accepted), c, p.ctype, now)
  {
  }

  /**
   * Every accepted order gets status 1, the courier's id, the courier's type
   * at this moment and the one shared timestamp; no other row changes
   * (utils.py:169-174).
   */
  lemma {:induction false} AssignStamps(p: Profile, rows: seq<OrderRow>, deliveryHours: map<int, seq<string>>,
                     c: int, now: int, accepted: seq<OrderRow>)
    requires Accepted(p, rows, deliveryHours, c) == Success(accepted) && accepted != []
    ensures var rows' := Assign(Some(p), rows, deliveryHours, c, now).1;
      |rows'| == |rows| && Ids(rows') == Ids(rows) &&
      forall i :: 0 <= i < |rows| ==>
        if rows[i].id in Ids(accepted) then
          rows'[i].status == Assigned && rows'[i].courierId == Some(c) &&
          rows'[i].dateAssigned == Some(now) && rows'[i].typeWhenAssigned == Some(p.ctype) &&
          rows'[i].weight == rows[i].weight && rows'[i].region == rows[i].region &&
          rows'[i].dateCreated == rows[i].dateCreated && rows'[i].dateFinished == rows[i].dateFinished
        else rows'[i] == rows[i]
  {
    AssignRows(p, rows, deliveryHours, c, now, accepted);
    var rows' := Assign(Some(p), rows, deliveryHours, c, now).1;
    assert Ids(rows') == Ids(rows);
  }

  /** The accepted rows as they read after the UPDATE. */
  function StampRows(s: seq<OrderRow>, c: int, t: CourierType, now: int): (r: seq<OrderRow>)
    ensures |r| == |s| && forall i :: 0 <= i < |s| ==> r[i] == Stamp(s[i], c, t, now)
  {
    seq(|s|, i requires 0 <= i < |s| => Stamp(s[i], c, t, now))
  }

  lemma {:induction false} LoadStampRows(s: seq<OrderRow>, c: int, t: CourierType, now: int)
    ensures Load(StampRows(s, c, t, now)) == Load(s)
  {
    if s != [] {
      assert StampRows(s, c, t, now)[1..] == StampRows(s[1..], c, t, now);
      LoadStampRows(s[1..], c, t, now);
    }
  }

  /**
   * After the UPDATE the courier's assigned orders are exactly the ones it
   * held before and the stamped ones.
   */
  lemma {:induction false} CurrentAfterStamp(rows: seq<OrderRow>, accepted: seq<OrderRow>, c: int, t: CourierType, now: int)
    requires IdsAscending(rows)
    requires forall a :: a in accepted ==> a in rows && a.status == Unassigned
    ensures SameRows(CurrentRows(StampAll(rows, Ids(accepted), c, t, now), c),
                     CurrentRows(rows, c) + StampRows(accepted, c, t, now))
  {
    StampedCurrentFrom(rows, accepted, c, t, now);
    EarlierCurrentStays(rows, accepted, c, t, now);
    StampedCurrentIn(rows, accepted, c, t, now);
  }

  /** A current order after the UPDATE was current before or is a stamped one. */
  lemma {:induction false} StampedCurrentFrom(rows: seq<OrderRow>, accepted: seq<OrderRow>, c: int, t: CourierType, now: int)
    requires IdsAscending(rows)
    requires forall a :: a in accepted ==> a in rows && a.status == Unassigned
    ensures forall y :: y in CurrentRows(StampAll(rows, Ids(accepted), c, t, now), c) ==>
      y in CurrentRows(rows, c) + StampRows(accepted, c, t, now)
  {
    var rows' := StampAll(rows, Ids(accepted), c, t, now);
    var stamped := StampRows(accepted, c, t, now);
    forall y | y in CurrentRows(rows', c) ensures y in CurrentRows(rows, c) + stamped {
      var i :| 0 <= i < |rows'| && rows'[i] == y;
      if rows[i].id in Ids(accepted) {
        var k :| 0 <= k < |accepted| && Ids(accepted)[k] == rows[i].id;
        assert accepted[k] in accepted;
        SameIdSameRow(rows, accepted[k], rows[i]);
        assert stamped[k] == y;
      } else {
        assert rows[i] == y;
      }
    }
  }

  /** An order current before the UPDATE is not stamped and stays current. */
  lemma {:induction false} EarlierCurrentStays(rows: seq<OrderRow>, accepted: seq<OrderRow>, c: int, t: CourierType, now: int)
    requires IdsAscending(rows)
    requires forall a :: a in accepted ==> a in rows && a.status == Unassigned
    ensures forall y :: y in CurrentRows(rows, c) ==> y in CurrentRows(StampAll(rows, Ids(accepted), c, t, now), c)
  {
    var rows' := StampAll(rows, Ids(accepted), c, t, now);
    forall y | y in CurrentRows(rows, c) ensures y in CurrentRows(rows', c) {
      var i :| 0 <= i < |rows| && rows[i] == y;
      if rows[i].id in Ids(accepted) {
        var k :| 0 <= k < |accepted| && Ids(accepted)[k] == rows[i].id;
        assert accepted[k] in accepted;
        SameIdSameRow(rows, accepted[k], rows[i]);
        assert false;
      }
      assert rows'[i] == y;
    }
  }

  /** Every stamped order is current after the UPDATE. */
  lemma {:induction false} StampedCurrentIn(rows: seq<OrderRow>, accepted: seq<OrderRow>, c: int, t: CourierType, now: int)
    requires forall a :: a in accepted ==> a in rows && a.status == Unassigned
    ensures forall y :: y in StampRows(accepted, c, t, now) ==> y in CurrentRows(StampAll(rows, Ids(accepted), c, t, now), c)
  {
    var rows' := StampAll(rows, Ids(accepted), c, t, now);
    var stamped := StampRows(accepted, c, t, now);
    forall y | y in stamped ensures y in CurrentRows(rows', c) {
      var k :| 0 <= k < |stamped| && stamped[k] == y;
      assert accepted[k] in accepted;
      var i :| 0 <= i < |rows| && rows[i] == accepted[k];
      assert Ids(accepted)[k] == rows[i].id;
      assert rows'[i] == y;
    }
  }

  /** The stamped table keeps its ascending ids. */
  lemma StampAllAscending(rows: seq<OrderRow>, ids: seq<int>, c: int, t: CourierType, now: int)
    requires IdsAscending(rows)
    ensures IdsAscending(StampAll(rows, ids, c, t, now))
  {
    var rows' := StampAll(rows, ids, c, t, now);
    forall i, j | 0 <= i < j < |rows'| ensures rows'[i].id < rows'[j].id {
      assert rows'[i].id == rows[i].id && rows'[j].id == rows[j].id;
    }
  }

  /** The courier's assigned weight grows by exactly the stamped weight. */
  lemma LoadAfterStamp(rows: seq<OrderRow>, accepted: seq<OrderRow>, c: int, t: CourierType, now: int)
    requires IdsAscending(rows) && DistinctIds(accepted)
    requires forall a :: a in accepted ==> a in rows && a.status == Unassigned
    ensures Load(CurrentRows(StampAll(rows, Ids(accepted), c, t, now), c)) == Load(CurrentRows(rows, c)) + Load(accepted)
  {
    var rows' := StampAll(rows, Ids(accepted), c, t, now);
    var before := CurrentRows(rows, c);
    var stamped := StampRows(accepted, c, t, now);
    CurrentAfterStamp(rows, accepted, c, t, now);
    StampAllAscending(rows, Ids(accepted), c, t, now);
    WhereAscending(rows', (x: OrderRow) => x.status == Assigned && x.courierId == Some(c));
    WhereAscending(rows, (x: OrderRow) => x.status == Assigned && x.courierId == Some(c));
    var both: seq<OrderRow> := before + stamped;
    forall i, j | 0 <= i < j < |both| ensures both[i].id != both[j].id {
      if j < |before| {
        assert both[i] == before[i] && both[j] == before[j];
      } else if i >= |before| {
        assert both[i] == stamped[i - |before|] && both[j] == stamped[j - |before|];
      } else {
        var a := accepted[j - |before|];
        assert both[j] == Stamp(a, c, t, now) && a in accepted;
        assert both[i] == before[i] && before[i] in before;
        if both[i].id == a.id { SameIdSameRow(rows, both[i], a); }
      }
    }
    assert DistinctIds(both);
    LoadSameRows(CurrentRows(rows', c), both);
    LoadAppend(before, stamped);
    LoadStampRows(accepted, c, t, now);
  }

  /**
   * The courier's assigned weight after an assignment is the weight it held
   * plus the accepted weight, and stays within the capacity of its type.
   */
  lemma AssignCapacity(p: Profile, rows: seq<OrderRow>, deliveryHours: map<int, seq<string>>,
                       c: int, now: int, accepted: seq<OrderRow>)
    requires IdsAscending(rows)
    requires Accepted(p, rows, deliveryHours, c) == Success(accepted) && accepted != []
    ensures Load(CurrentRows(Assign(Some(p), rows, deliveryHours, c, now).1, c))
      == Load(CurrentRows(rows, c)) + Load(accepted)
    ensures Load(CurrentRows(Assign(Some(p), rows, deliveryHours, c, now).1, c)) <= Capacity(p.ctype)
  {
    AssignRows(p, rows, deliveryHours, c, now, accepted);
    AcceptedRows(p, rows, deliveryHours, c, accepted);
    LoadAfterStamp(rows, accepted, c, p.ctype, now);
    var sorted := SortedCandidates(p, rows, deliveryHours).value;
    assert accepted == Greedy(sorted, RestLoad(p, rows, c));
  }

  /**
   * After the UPDATE some current order of the courier carries the new
   * timestamp, and on a first batch every one does.
   */
  lemma {:induction false} StampedCurrent(rows: seq<OrderRow>, accepted: seq<OrderRow>, c: int, t: CourierType, now: int)
    requires IdsAscending(rows) && accepted != []
    requires forall a :: a in accepted ==> a in rows && a.status == Unassigned
    ensures exists x :: x in CurrentRows(StampAll(rows, Ids(accepted), c, t, now), c) && x.dateAssigned == Some(now)
    ensures CurrentRows(rows, c) == [] ==>
      forall x :: x in CurrentRows(StampAll(rows, Ids(accepted), c, t, now), c) ==> x.dateAssigned == Some(now)
  {
    CurrentAfterStamp(rows, accepted, c, t, now);
    var stamped := StampRows(accepted, c, t, now);
    var after := CurrentRows(StampAll(rows, Ids(accepted), c, t, now), c);
    assert stamped[0] in CurrentRows(rows, c) + stamped;
    assert stamped[0] in after && stamped[0].dateAssigned == Some(now);
    if CurrentRows(rows, c) == [] {
      forall x | x in after ensures x.dateAssigned == Some(now) {
        assert x in stamped;
      }
    }
  }

  /**
   * The answer lists the courier's earlier assigned orders, then the new
   * ones; its time is the earliest assignment time among the courier's
   * assigned orders, so it is never later than `now`, and it is `now` itself
   * on a courier's first batch (utils.py:177-181).
   */
  lemma {:induction false} AssignAnswer(p: Profile, rows: seq<OrderRow>, deliveryHours: map<int, seq<string>>,
                     c: int, now: int, accepted: seq<OrderRow>)
    requires IdsAscending(rows)
    requires Accepted(p, rows, deliveryHours, c) == Success(accepted) && accepted != []
    ensures var (r, rows') := Assign(Some(p), rows, deliveryHours, c, now);
      r.Success? && r.value.orderIds == Ids(CurrentRows(rows, c)) + Ids(accepted) &&
      r.value.assignTime.Some? && r.value.assignTime.value <= now &&
      (CurrentRows(rows, c) == [] ==> r.value.assignTime == Some(now)) &&
      (forall x :: x in CurrentRows(rows', c) && x.dateAssigned.Some? ==> r.value.assignTime.value <= x.dateAssigned.value) &&
      (exists x :: x in CurrentRows(rows', c) && x.dateAssigned == r.value.assignTime)
  {
    AssignRows(p, rows, deliveryHours, c, now, accepted);
    AcceptedRows(p, rows, deliveryHours, c, accepted);
    StampedCurrent(rows, accepted, c, p.ctype, now);
    if CurrentRows(rows, c) == [] {
      assert Ids(CurrentRows(rows, c)) + Ids(accepted) == Ids(accepted);
    }
  }

  /** An assignment keeps the `orders` table well formed. */
  lemma {:induction false} AssignKeepsTable(profile: Option<Profile>, rows: seq<OrderRow>, deliveryHours: map<int, seq<string>>,
                         c: int, now: int)
    requires TableWellFormed(rows)
    ensures TableWellFormed(Assign(profile, rows, deliveryHours, c, now).1)
  {
    if profile.Some? {
      var p := profile.value;
      var acc := Accepted(p, rows, deliveryHours, c);
      if acc.Success? && acc.value != [] {
        var accepted := acc.value;
        AcceptedRows(p, rows, deliveryHours, c, accepted);
        AssignRows(p, rows, deliveryHours, c, now, accepted);
        var rows' := StampAll(rows, Ids(accepted), c, p.ctype, now);
        forall i | 0 <= i < |rows| ensures RowWellFormed(rows'[i]) && rows'[i].id == rows[i].id {
          if rows[i].id in Ids(accepted) {
            var j :| 0 <= j < |accepted| && Ids(accepted)[j] == rows[i].id;
            assert accepted[j] in rows;
            SameIdSameRow(rows, accepted[j], rows[i]);
            assert rows'[i] == Stamp(rows[i], c, p.ctype, now);
          }
        }
      }
    }
  }
}
