/**
 * `patch_courier` and `validate_existing_orders` (utils.py:183-268): after a
 * courier's profile changes, its assigned orders are checked again, regions
 * first, then working hours, then capacity, each step on the orders the
 * previous one left, and the orders that fail are put back to status 0.
 */
module Revalidation {
  import opened Wrappers
  import opened Models
  import opened Store
  import opened TimeWindows
  import opened Assignment

  /** Which keys the patch carried (`patch_keys`). */
  datatype Changed = Changed(ctype: bool, regions: bool, workingHours: bool)

  /** The fields a PATCH may set; an absent field is `None`. */
  datatype Patch = Patch(ctype: Option<CourierType>, regions: Option<seq<int>>, workingHours: Option<seq<string>>)

  function ChangedBy(patch: Patch): Changed {
    Changed(patch.ctype.Some?, patch.regions.Some?, patch.workingHours.Some?)
  }

  /** The UPDATE that unassigns an order: status 0, no batch time, no courier, no type. */
  function Revert(x: OrderRow): OrderRow {
    x.(status := Unassigned, dateAssigned := None, courierId := None, typeWhenAssigned := None)
  }

  function RevertAll(rows: seq<OrderRow>, ids: seq<int>): seq<OrderRow> {
    UpdateWhere(rows, ids, Revert)
  }

  // ---------------------------------------------------------------------
  // Regions (utils.py:209-229)

  /** `set(regions of the current orders) - set(courier_regions)`, as a list. */
  function InvalidRegions(current: seq<OrderRow>, regions: seq<int>): (bad: seq<int>)
    ensures forall g :: g in bad <==> g !in regions && exists x :: x in current && x.region == g
  {
    if current == [] then []
    else
      var rest := InvalidRegions(current[1..], regions);
      assert forall x :: x in current <==> x == current[0] || x in current[1..];
      if current[0].region in regions then rest else [current[0].region] + rest
  }

  /**
   * The ids the region step unassigns: `SELECT order_id FROM orders WHERE
   * region IN bad AND courier_id = c`. There is no `status = 1` in the query,
   * so the courier's completed orders in those regions are selected too.
   */
  function InvalidIds(rows: seq<OrderRow>, c: int, bad: seq<int>): seq<int> {
    Ids(Where(rows, (x: OrderRow) => x.region in bad && x.courierId == Some(c)))
  }

  /**
   * The loop at utils.py:222-227: for each id, pop it from the current orders
   * (a KeyError when it is not there) and unassign its row. A failure leaves
   * the rows unassigned so far as they are: the connection is never rolled
   * back.
   */
  function PopRevert(rows: seq<OrderRow>, current: seq<OrderRow>, ids: seq<int>)
    : (r: (Result<seq<OrderRow>, Error>, seq<OrderRow>))
    decreases |ids|
    ensures |r.1| == |rows|
    ensures r.0.Failure? ==> r.0.error.NotCurrentOrder? && r.0.error.orderId in ids
  {
    if ids == [] then (Success(current), rows)
    else if ids[0] !in Ids(current) then (Failure(NotCurrentOrder(ids[0])), rows)
    else PopRevert(RevertAll(rows, [ids[0]]), Without(current, [ids[0]]), ids[1..])
  }

  function RegionStep(rows: seq<OrderRow>, c: int, regions: seq<int>, current: seq<OrderRow>)
    : (r: (Result<seq<OrderRow>, Error>, seq<OrderRow>))
    ensures |r.1| == |rows|
    ensures r.0.Failure? ==> r.0.error.NotCurrentOrder?
  {
    var bad := InvalidRegions(current, regions);
    if bad == [] then (Success(current), rows)
    else PopRevert(rows, current, InvalidIds(rows, c, bad))
  }

  // ---------------------------------------------------------------------
  // Working hours (utils.py:230-250)

  /**
   * The loop at utils.py:238-241: the current orders whose windows fail
   * `hours_intersect`; a missing `delivery_hours` entry or a window that does
   * not parse raises before anything is written.
   */
  function BadHours(current: seq<OrderRow>, working: seq<string>, deliveryHours: map<int, seq<string>>)
    : (r: Result<seq<OrderRow>, Error>)
    ensures r.Success? <==> forall x :: x in current ==> TimeCheckable(x, working, deliveryHours)
    ensures r.Success? ==> forall x :: x in r.value <==> x in current && !InTime(x, working, deliveryHours)
    ensures r.Success? && IdsAscending(current) ==> IdsAscending(r.value)
  {
    if current == [] then Success([])
    else
      var hours := RowsOf(deliveryHours, current[0].id);
      if hours == [] then
        assert current[0] in current;
        Failure(MissingDeliveryHours(current[0].id))
      else
        match HoursIntersect(working, hours)
        case None =>
          assert current[0] in current;
          Failure(BadTimeWindow)
        case Some(ok) =>
          var rest := BadHours(current[1..], working, deliveryHours);
          HeadTail(current);
          AscendingTail(current);
          if rest.Failure? then rest
          else
            Success(if ok then rest.value else [current[0]] + rest.value)
  }

  /** The hours step: collect the failing orders, then pop and unassign each (utils.py:243-248). */
  function HoursStep(rows: seq<OrderRow>, working: seq<string>, deliveryHours: map<int, seq<string>>,
                     current: seq<OrderRow>): (r: (Result<seq<OrderRow>, Error>, seq<OrderRow>))
    ensures |r.1| == |rows|
  {
    if current == [] then (Success(current), rows)
    else
      match BadHours(current, working, deliveryHours)
      case Failure(e) => (Failure(e), rows)
      case Success(bad) => PopRevert(rows, current, Ids(bad))
  }

  // ---------------------------------------------------------------------
  // Capacity (utils.py:252-268)

  /**
   * The loop at utils.py:258-262 over the orders, heaviest first. `delta` is
   * computed from the unchanged `courier_rest_load`, so each order is judged
   * on its own against the whole overload, not on what was dropped before it.
   */
  function DropLoop(desc: seq<OrderRow>, rest: int): (dropped: seq<OrderRow>)
    ensures |dropped| <= |desc| && dropped == desc[..|dropped|]
  {
    if desc == [] then []
    else if rest + desc[0].weight >= 0 then [desc[0]]
    else
      var tail := DropLoop(desc[1..], rest);
      [desc[0]] + tail
  }

  /** `reversed(sorted(current, key=weight))`: heaviest first, equal weights highest id first. */
  function HeaviestFirst(current: seq<OrderRow>): seq<OrderRow> {
    Reverse(SortBy(current, Weight))
  }

  function TypeStep(rows: seq<OrderRow>, maxLoad: int, current: seq<OrderRow>): (r: seq<OrderRow>)
    ensures |r| == |rows|
    ensures forall i :: 0 <= i < |rows| ==> r[i] == rows[i] || r[i] == Revert(rows[i])
  {
    if current == [] then rows
    else
      var rest := maxLoad - Load(current);
      if rest >= 0 then rows
      else RevertAll(rows, Ids(DropLoop(HeaviestFirst(current), rest)))
  }

  // ---------------------------------------------------------------------
  // The whole revalidation

  /**
   * `validate_existing_orders(courier_id, changed)` given the courier's
   * profile as it reads after the patch (`None` for an unknown courier).
   */
  function Validate(profile: Option<Profile>, rows: seq<OrderRow>, deliveryHours: map<int, seq<string>>,
                    c: int, changed: Changed): (r: (Result<(), Error>, seq<OrderRow>))
    ensures profile.None? ==> r.1 == rows
    ensures changed == Changed(false, false, false) ==> r.1 == rows && (profile.Some? ==> r.0.Success?)
  {
    match profile
    case None => (Failure(CourierNotFound(c)), rows)
    case Some(p) =>
      var current := CurrentRows(rows, c);
      var (r1, rows1) := if changed.regions then RegionStep(rows, c, p.regions, current) else (Success(current), rows);
      if r1.Failure? then (Failure(r1.error), rows1)
      else
        var (r2, rows2) :=
          if changed.workingHours then HoursStep(rows1, p.workingHours, deliveryHours, r1.value) else (r1, rows1);
        if r2.Failure? then (Failure(r2.error), rows2)
        else
          var rows3 := if changed.ctype && r2.value != [] then TypeStep(rows2, Capacity(p.ctype), r2.value) else rows2;
          (Success(()), rows3)
  }

  // ---------------------------------------------------------------------
  // patch_courier's writes (utils.py:188-201)

  /** `UPDATE couriers SET type = t WHERE id = c`: no row changes for an unknown courier. */
  function PatchedType(couriers: map<int, CourierType>, c: int, t: Option<CourierType>): map<int, CourierType> {
    if t.Some? && c in couriers then couriers[c := t.value] else couriers
  }

  /** `DELETE ... WHERE courier_id = c` and one INSERT per new value, when the field was sent. */
  function Replaced<T>(table: map<int, seq<T>>, c: int, v: Option<seq<T>>): map<int, seq<T>> {
    if v.Some? then table[c := v.value] else table
  }

  /** `get_actual_courier_status` without the orders: the courier's type, regions and working hours. */
  function ProfileOf(couriers: map<int, CourierType>, regions: map<int, seq<int>>,
                     workingHours: map<int, seq<string>>, c: int): (p: Option<Profile>)
    ensures p.Some? <==> c in couriers
    ensures p.Some? ==> p.value == Profile(couriers[c], RowsOf(regions, c), RowsOf(workingHours, c))
  {
    if c in couriers then Some(Profile(couriers[c], RowsOf(regions, c), RowsOf(workingHours, c))) else None
  }

  // ---------------------------------------------------------------------
  // Facts about unassigning

  predicate DistinctInts(ids: seq<int>) {
    forall i, j :: 0 <= i < j < |ids| ==> ids[i] != ids[j]
  }

  lemma InIds(s: seq<OrderRow>, id: int)
    ensures id in Ids(s) <==> exists x :: x in s && x.id == id
  {
    if id in Ids(s) {
      var j :| 0 <= j < |s| && Ids(s)[j] == id;
      assert s[j] in s;
    }
    if exists x :: x in s && x.id == id {
      var x :| x in s && x.id == id;
      var j :| 0 <= j < |s| && s[j] == x;
      assert Ids(s)[j] == id;
    }
  }

  /** Unassigning in two rounds is unassigning everything listed in either. */
  lemma RevertAllTwice(rows: seq<OrderRow>, a: seq<int>, b: seq<int>)
    ensures RevertAll(RevertAll(rows, a), b) == RevertAll(rows, a + b)
  {
  }

  /**
   * The state a revalidation keeps pointing at: `cur` holds, in ascending id
   * order, exactly the courier's assigned orders in `rows`
   * (`courier_current_orders` kept in step with the table).
   */
  ghost predicate Tracks(cur: seq<OrderRow>, rows: seq<OrderRow>, c: int) {
    IdsAscending(cur) && SameRows(cur, CurrentRows(rows, c))
  }

  /** Every row is unchanged or was one of courier `c`'s assigned orders and is now unassigned. */
  ghost predicate RevertsOnly(rows: seq<OrderRow>, rows': seq<OrderRow>, c: int) {
    |rows'| == |rows| &&
    forall i :: 0 <= i < |rows| ==>
      rows'[i] == rows[i] ||
      (rows[i].status == Assigned && rows[i].courierId == Some(c) && rows'[i] == Revert(rows[i]))
  }

  lemma CurrentAfterRevert(rows: seq<OrderRow>, ids: seq<int>, c: int)
    ensures forall x :: x in CurrentRows(RevertAll(rows, ids), c) <==> x in CurrentRows(rows, c) && x.id !in ids
  {
    var rows' := RevertAll(rows, ids);
    forall x ensures x in CurrentRows(rows', c) <==> x in CurrentRows(rows, c) && x.id !in ids {
      if x in CurrentRows(rows', c) {
        var i :| 0 <= i < |rows'| && rows'[i] == x;
        assert rows[i] == x;
      }
      if x in CurrentRows(rows, c) && x.id !in ids {
        var i :| 0 <= i < |rows| && rows[i] == x;
        assert rows'[i] == x;
      }
    }
  }

  /** Unassigning only ids of the courier's current orders touches nothing else. */
  lemma RevertCurrentOnly(rows: seq<OrderRow>, ids: seq<int>, c: int)
    requires IdsAscending(rows)
    requires forall id :: id in ids ==> id in Ids(CurrentRows(rows, c))
    ensures RevertsOnly(rows, RevertAll(rows, ids), c)
  {
    forall i | 0 <= i < |rows| && rows[i].id in ids
      ensures rows[i].status == Assigned && rows[i].courierId == Some(c)
    {
      InIds(CurrentRows(rows, c), rows[i].id);
      var y :| y in CurrentRows(rows, c) && y.id == rows[i].id;
      var j :| 0 <= j < |rows| && rows[j] == y;
      assert rows[i] == y;
    }
  }

  lemma RevertsOnlyTrans(r0: seq<OrderRow>, r1: seq<OrderRow>, r2: seq<OrderRow>, c: int)
    requires RevertsOnly(r0, r1, c) && RevertsOnly(r1, r2, c)
    ensures RevertsOnly(r0, r2, c)
  {
  }

  /** Unassigning a courier's assigned orders keeps every row well formed and the ids as they were. */
  lemma RevertsOnlyKeepsTable(rows: seq<OrderRow>, rows': seq<OrderRow>, c: int)
    requires TableWellFormed(rows) && RevertsOnly(rows, rows', c)
    ensures TableWellFormed(rows')
  {
    assert forall i :: 0 <= i < |rows| ==> rows'[i].id == rows[i].id;
  }

  // ---------------------------------------------------------------------
  // The pop loop

  /** The loop succeeds exactly when every listed id is a current order; then all of them are unassigned. */
  lemma {:induction false} PopRevertSucceeds(rows: seq<OrderRow>, current: seq<OrderRow>, ids: seq<int>)
    requires DistinctInts(ids)
    ensures var (r, rows') := PopRevert(rows, current, ids);
      (r.Success? <==> forall id :: id in ids ==> id in Ids(current)) &&
      (r.Success? ==> rows' == RevertAll(rows, ids) &&
                      (forall x :: x in r.value <==> x in current && x.id !in ids) &&
                      (IdsAscending(current) ==> IdsAscending(r.value)))
    decreases |ids|
  {
    if ids == [] {
      assert forall i :: 0 <= i < |rows| ==> RevertAll(rows, ids)[i] == rows[i];
    } else if ids[0] in Ids(current) {
      var a := ids[0];
      var rest := ids[1..];
      assert DistinctInts(rest) by {
        forall i, j | 0 <= i < j < |rest| ensures rest[i] != rest[j] {
          assert rest[i] == ids[i + 1] && rest[j] == ids[j + 1];
        }
      }
      assert a !in rest by {
        forall k | 0 <= k < |rest| ensures rest[k] != a {
          assert rest[k] == ids[k + 1];
        }
      }
      var current' := Without(current, [a]);
      PopRevertSucceeds(RevertAll(rows, [a]), current', rest);
      forall id | id in rest ensures id in Ids(current') <==> id in Ids(current) {
        InIds(current', id);
        InIds(current, id);
      }
      RevertAllTwice(rows, [a], rest);
      assert [a] + rest == ids;
      assert forall id :: id in ids <==> id == a || id in rest;
      if IdsAscending(current) {
        WhereAscending(current, (x: OrderRow) => x.id !in [a]);
      }
    }
  }

  /**
   * The first id that is not a current order (a completed one, say) stops the
   * loop with a KeyError, and the ids before it stay unassigned.
   */
  lemma {:induction false} PopRevertStops(rows: seq<OrderRow>, current: seq<OrderRow>, ids: seq<int>, k: nat)
    requires DistinctInts(ids) && k < |ids|
    requires forall j :: 0 <= j < k ==> ids[j] in Ids(current)
    requires ids[k] !in Ids(current)
    ensures PopRevert(rows, current, ids) == (Failure(NotCurrentOrder(ids[k])), RevertAll(rows, ids[..k]))
    decreases k
  {
    if k == 0 {
      assert ids[..k] == [];
      assert forall i :: 0 <= i < |rows| ==> RevertAll(rows, [])[i] == rows[i];
      assert RevertAll(rows, []) == rows;
    } else {
      var a := ids[0];
      var rest := ids[1..];
      var rows' := RevertAll(rows, [a]);
      var current' := Without(current, [a]);
      assert a in Ids(current);
      assert PopRevert(rows, current, ids) == PopRevert(rows', current', rest);
      DistinctTail(ids);
      PopTailStillCurrent(current, ids, k);
      PopRevertStops(rows', current', rest, k - 1);
      RevertAllTwice(rows, [a], rest[..k - 1]);
      assert [a] + rest[..k - 1] == ids[..k];
    }
  }

  lemma DistinctTail(ids: seq<int>)
    requires DistinctInts(ids) && ids != []
    ensures DistinctInts(ids[1..]) && ids[0] !in ids[1..]
  {
    var rest := ids[1..];
    forall i, j | 0 <= i < j < |rest| ensures rest[i] != rest[j] {
      assert rest[i] == ids[i + 1] && rest[j] == ids[j + 1];
    }
    forall k | 0 <= k < |rest| ensures rest[k] != ids[0] {
      assert rest[k] == ids[k + 1];
    }
  }

  /** After popping `ids[0]`, the next `k - 1` ids are still current and the `k`-th still is not. */
  lemma PopTailStillCurrent(current: seq<OrderRow>, ids: seq<int>, k: nat)
    requires DistinctInts(ids) && 0 < k < |ids|
    requires forall j :: 0 <= j < k ==> ids[j] in Ids(current)
    requires ids[k] !in Ids(current)
    ensures forall j :: 0 <= j < k - 1 ==> ids[1..][j] in Ids(Without(current, [ids[0]]))
    ensures ids[1..][k - 1] !in Ids(Without(current, [ids[0]]))
  {
    var current' := Without(current, [ids[0]]);
    forall j | 0 <= j < k - 1 ensures ids[1..][j] in Ids(current') {
      assert ids[1..][j] == ids[j + 1] && ids[j + 1] != ids[0];
      InIds(current', ids[j + 1]);
      InIds(current, ids[j + 1]);
    }
    InIds(current', ids[k]);
    InIds(current, ids[k]);
  }

  // ---------------------------------------------------------------------
  // The region step

  lemma AscendingIdsDistinct(s: seq<OrderRow>)
    requires IdsAscending(s)
    ensures DistinctInts(Ids(s))
  {
  }

  lemma CurrentAscending(rows: seq<OrderRow>, c: int)
    requires IdsAscending(rows)
    ensures IdsAscending(CurrentRows(rows, c))
  {
    WhereAscending(rows, (x: OrderRow) => x.status == Assigned && x.courierId == Some(c));
  }

  /**
   * Which ids of the region query are not current orders: exactly those of
   * the courier's completed orders in the dropped regions. A current order is
   * selected exactly when its region was dropped.
   */
  lemma InvalidIdsMembers(rows: seq<OrderRow>, c: int, bad: seq<int>)
    requires TableWellFormed(rows)
    ensures DistinctInts(InvalidIds(rows, c, bad))
    ensures forall id :: id in InvalidIds(rows, c, bad) && id !in Ids(CurrentRows(rows, c)) <==>
      exists x :: x in rows && x.status == Completed && x.courierId == Some(c) && x.region in bad && x.id == id
    ensures forall x :: x in CurrentRows(rows, c) ==> (x.id in InvalidIds(rows, c, bad) <==> x.region in bad)
  {
    var cur := CurrentRows(rows, c);
    var sel := Where(rows, (x: OrderRow) => x.region in bad && x.courierId == Some(c));
    WhereAscending(rows, (x: OrderRow) => x.region in bad && x.courierId == Some(c));
    AscendingIdsDistinct(sel);
    forall id ensures id in Ids(sel) && id !in Ids(cur) <==>
      exists x :: x in rows && x.status == Completed && x.courierId == Some(c) && x.region in bad && x.id == id
    {
      InIds(sel, id);
      InIds(cur, id);
      if id in Ids(sel) && id !in Ids(cur) {
        var x :| x in sel && x.id == id;
        WellFormedMember(rows, x);
        assert x.status == Assigned ==> x in cur;
      }
      if exists x :: x in rows && x.status == Completed && x.courierId == Some(c) && x.region in bad && x.id == id {
        var x :| x in rows && x.status == Completed && x.courierId == Some(c) && x.region in bad && x.id == id;
        assert x in sel;
        if id in Ids(cur) {
          var y :| y in cur && y.id == id;
          SameIdSameRow(rows, x, y);
          assert false;
        }
      }
    }
    forall x | x in cur ensures x.id in Ids(sel) <==> x.region in bad {
      InIds(sel, x.id);
      if x.id in Ids(sel) {
        var y :| y in sel && y.id == x.id;
        SameIdSameRow(rows, x, y);
      } else {
        assert x.region in bad ==> x in sel;
      }
    }
  }

  /** The first id of `ids` that is not in `s`. */
  lemma {:induction false} FirstNotIn(ids: seq<int>, s: seq<int>) returns (k: nat)
    requires exists id :: id in ids && id !in s
    ensures k < |ids| && ids[k] !in s
    ensures forall j :: 0 <= j < k ==> ids[j] in s
  {
    if ids[0] in s {
      assert exists id :: id in ids[1..] && id !in s by {
        var id :| id in ids && id !in s;
        var i :| 0 <= i < |ids| && ids[i] == id;
        assert ids[1..][i - 1] == id;
      }
      var k' := FirstNotIn(ids[1..], s);
      k := k' + 1;
      forall j | 0 <= j < k ensures ids[j] in s {
        if j > 0 { assert ids[j] == ids[1..][j - 1]; }
      }
    } else {
      k := 0;
    }
  }

  /**
   * The region step (utils.py:209-229): it succeeds exactly when none of the
   * courier's completed orders lies in a region that a current order is in
   * and the courier no longer serves; then the current orders left are the
   * ones whose region the courier still serves, and only the others were
   * unassigned. When it fails, the orders unassigned before the failure stay
   * unassigned, and nothing else changed.
   */
  lemma {:induction false} RegionStepSpec(rows: seq<OrderRow>, c: int, regions: seq<int>)
    requires TableWellFormed(rows)
    ensures var cur := CurrentRows(rows, c);
      var (r, rows') := RegionStep(rows, c, regions, cur);
      (r.Failure? <==> exists x :: x in rows && x.status == Completed && x.courierId == Some(c) &&
                                   x.region in InvalidRegions(cur, regions)) &&
      RevertsOnly(rows, rows', c) &&
      (r.Failure? ==> exists x :: x in rows && x.status == Completed && r.error == NotCurrentOrder(x.id)) &&
      (r.Success? ==> Tracks(r.value, rows', c) && forall x :: x in r.value <==> x in cur && x.region in regions)
  {
    var cur := CurrentRows(rows, c);
    CurrentAscending(rows, c);
    var bad := InvalidRegions(cur, regions);
    var (r, rows') := RegionStep(rows, c, regions, cur);
    if bad == [] {
      assert forall i :: 0 <= i < |rows| ==> rows'[i] == rows[i];
    } else {
      var ids := InvalidIds(rows, c, bad);
      InvalidIdsMembers(rows, c, bad);
      PopRevertSucceeds(rows, cur, ids);
      if r.Success? {
        RevertCurrentOnly(rows, ids, c);
        CurrentAfterRevert(rows, ids, c);
      } else {
        var k := FirstNotIn(ids, Ids(cur));
        PopRevertStops(rows, cur, ids, k);
        RevertCurrentOnly(rows, ids[..k], c);
        assert ids[k] in ids;
      }
    }
  }

  // ---------------------------------------------------------------------
  // The hours step

  /** The ids of some of the current orders, in ascending order, name exactly those orders. */
  lemma BadIdsFacts(rows: seq<OrderRow>, c: int, cur: seq<OrderRow>, bad: seq<OrderRow>)
    requires IdsAscending(rows) && Tracks(cur, rows, c)
    requires IdsAscending(bad) && forall x :: x in bad ==> x in cur
    ensures DistinctInts(Ids(bad))
    ensures forall x :: x in cur ==> (x.id in Ids(bad) <==> x in bad)
    ensures forall id :: id in Ids(bad) ==> id in Ids(CurrentRows(rows, c)) && id in Ids(cur)
  {
    var ids := Ids(bad);
    AscendingIdsDistinct(bad);
    forall x | x in cur ensures x.id in ids <==> x in bad {
      InIds(bad, x.id);
      if x.id in ids {
        var y :| y in bad && y.id == x.id;
        SameIdSameRow(cur, x, y);
      }
    }
    forall id | id in ids ensures id in Ids(CurrentRows(rows, c)) && id in Ids(cur) {
      InIds(bad, id);
      var y :| y in bad && y.id == id;
      InIds(CurrentRows(rows, c), id);
      InIds(cur, id);
    }
  }

  /**
   * The hours step (utils.py:230-250): it succeeds exactly when every current
   * order has delivery windows and all windows parse; then the current orders
   * left are the ones `hours_intersect` accepts, and only the others were
   * unassigned. A failure writes nothing.
   */
  lemma {:induction false} HoursStepSpec(rows: seq<OrderRow>, working: seq<string>, deliveryHours: map<int, seq<string>>,
                      c: int, cur: seq<OrderRow>)
    requires IdsAscending(rows) && Tracks(cur, rows, c)
    ensures var (r, rows') := HoursStep(rows, working, deliveryHours, cur);
      (r.Success? <==> forall x :: x in cur ==> TimeCheckable(x, working, deliveryHours)) &&
      (r.Failure? ==> rows' == rows) &&
      (r.Success? ==> RevertsOnly(rows, rows', c) && Tracks(r.value, rows', c) &&
                      forall x :: x in r.value <==> x in cur && InTime(x, working, deliveryHours))
  {
    var (r, rows') := HoursStep(rows, working, deliveryHours, cur);
    if cur == [] {
      assert forall i :: 0 <= i < |rows| ==> rows'[i] == rows[i];
    } else {
      var b := BadHours(cur, working, deliveryHours);
      if b.Success? {
        var ids := Ids(b.value);
        BadIdsFacts(rows, c, cur, b.value);
        PopRevertSucceeds(rows, cur, ids);
        RevertCurrentOnly(rows, ids, c);
        CurrentAfterRevert(rows, ids, c);
      }
    }
  }

  // ---------------------------------------------------------------------
  // The capacity step

  lemma {:induction false} DropAll(s: seq<OrderRow>, rest: int)
    requires forall i :: 0 <= i < |s| ==> rest + s[i].weight < 0
    ensures DropLoop(s, rest) == s
  {
    if s != [] {
      assert s[0] in s;
      DropAll(s[1..], rest);
    }
  }

  /**
   * The non-cumulative `delta` of utils.py:258-262 on orders heaviest first:
   * the loop drops the heaviest order alone when it covers the whole overload
   * and every order otherwise, never a run of two or more that covers it
   * together.
   */
  lemma DropLoopRule(desc: seq<OrderRow>, rest: int)
    requires desc != []
    requires forall i :: 0 <= i < |desc| ==> desc[i].weight <= desc[0].weight
    ensures DropLoop(desc, rest) == if rest + desc[0].weight >= 0 then [desc[0]] else desc
  {
    if rest + desc[0].weight < 0 {
      DropAll(desc, rest);
    }
  }

  /** Heaviest first holds the same orders with the heaviest at its head. */
  lemma HeaviestFirstFacts(cur: seq<OrderRow>)
    ensures |HeaviestFirst(cur)| == |cur|
    ensures forall x :: x in HeaviestFirst(cur) <==> x in cur
    ensures forall i :: 0 <= i < |cur| ==> HeaviestFirst(cur)[i].weight <= HeaviestFirst(cur)[0].weight
  {
    var sorted := SortBy(cur, Weight);
    var desc := HeaviestFirst(cur);
    forall x ensures x in desc <==> x in sorted {
      if x in desc {
        var i :| 0 <= i < |desc| && desc[i] == x;
        assert sorted[|sorted| - 1 - i] == x;
      }
      if x in sorted {
        var i :| 0 <= i < |sorted| && sorted[i] == x;
        assert desc[|sorted| - 1 - i] == x;
      }
    }
    forall i | 0 < i < |cur| ensures desc[i].weight <= desc[0].weight {
      assert Le(Weight, sorted[|cur| - 1 - i], sorted[|cur| - 1]);
    }
  }

  lemma EmptyWhenNoMember(s: seq<OrderRow>)
    ensures (forall x :: x !in s) ==> s == []
  {
    if s != [] { assert s[0] in s; }
  }

  lemma RevertKeepsAscending(rows: seq<OrderRow>, ids: seq<int>)
    requires IdsAscending(rows)
    ensures IdsAscending(RevertAll(rows, ids))
  {
    assert forall i :: 0 <= i < |rows| ==> RevertAll(rows, ids)[i].id == rows[i].id;
  }

  /** Two views of the courier's current orders weigh the same. */
  lemma LoadTracks(cur: seq<OrderRow>, rows: seq<OrderRow>, c: int)
    requires IdsAscending(rows) && Tracks(cur, rows, c)
    ensures Load(CurrentRows(rows, c)) == Load(cur)
  {
    CurrentAscending(rows, c);
    AscendingDistinct(cur);
    AscendingDistinct(CurrentRows(rows, c));
    LoadSameRows(cur, CurrentRows(rows, c));
  }

  /** What the capacity step writes when the load exceeds the capacity. */
  lemma DroppedFacts(rows: seq<OrderRow>, maxLoad: int, c: int, cur: seq<OrderRow>)
    requires IdsAscending(rows) && Tracks(cur, rows, c) && cur != [] && Load(cur) > maxLoad
    ensures var ids := Ids(DropLoop(HeaviestFirst(cur), maxLoad - Load(cur)));
      TypeStep(rows, maxLoad, cur) == RevertAll(rows, ids) &&
      RevertsOnly(rows, RevertAll(rows, ids), c) &&
      forall x :: x in CurrentRows(RevertAll(rows, ids), c) <==> x in cur && x.id !in ids
  {
    var dropped := DropLoop(HeaviestFirst(cur), maxLoad - Load(cur));
    HeaviestFirstFacts(cur);
    var ids := Ids(dropped);
    forall id | id in ids ensures id in Ids(CurrentRows(rows, c)) {
      InIds(dropped, id);
      var y :| y in dropped && y.id == id;
      assert y in HeaviestFirst(cur);
      InIds(CurrentRows(rows, c), id);
    }
    RevertCurrentOnly(rows, ids, c);
    CurrentAfterRevert(rows, ids, c);
  }

  /** The head of heaviest-first order is a current order no other outweighs. */
  lemma HeaviestIsMax(cur: seq<OrderRow>)
    requires cur != []
    ensures HeaviestFirst(cur)[0] in cur
    ensures forall y :: y in cur ==> y.weight <= HeaviestFirst(cur)[0].weight
  {
    var desc := HeaviestFirst(cur);
    HeaviestFirstFacts(cur);
    assert desc[0] in desc;
    forall y | y in cur ensures y.weight <= desc[0].weight {
      var i :| 0 <= i < |desc| && desc[i] == y;
    }
  }

  /** Leaving out one order of `cur` leaves the load minus its weight. */
  lemma LoadAfterDropOne(rows: seq<OrderRow>, c: int, cur: seq<OrderRow>, h: OrderRow)
    requires IdsAscending(rows) && IdsAscending(cur) && h in cur
    requires forall x :: x in CurrentRows(rows, c) <==> x in cur && x.id != h.id
    ensures Load(CurrentRows(rows, c)) + h.weight == Load(cur)
  {
    var k :| 0 <= k < |cur| && cur[k] == h;
    LoadWithout(cur, k);
    WhereAscending(cur, (x: OrderRow) => x.id !in [h.id]);
    assert Tracks(Without(cur, [h.id]), rows, c);
    LoadTracks(Without(cur, [h.id]), rows, c);
  }

  /** The drop loop stops at once when the first order covers the overload. */
  lemma DropHeaviestOnly(desc: seq<OrderRow>, rest: int)
    requires desc != [] && rest + desc[0].weight >= 0
    ensures Ids(DropLoop(desc, rest)) == [desc[0].id]
  {
    assert DropLoop(desc, rest) == [desc[0]];
  }

  /** When the heaviest current order covers the overload, the capacity step unassigns it alone. */
  lemma HeaviestDropped(rows: seq<OrderRow>, maxLoad: int, c: int, cur: seq<OrderRow>)
    requires IdsAscending(rows) && Tracks(cur, rows, c) && cur != [] && Load(cur) > maxLoad
    requires maxLoad - Load(cur) + HeaviestFirst(cur)[0].weight >= 0
    ensures var h := HeaviestFirst(cur)[0];
      TypeStep(rows, maxLoad, cur) == RevertAll(rows, [h.id]) &&
      forall x :: x in CurrentRows(RevertAll(rows, [h.id]), c) <==> x in cur && x.id != h.id
  {
    var h := HeaviestFirst(cur)[0];
    var ids := Ids(DropLoop(HeaviestFirst(cur), maxLoad - Load(cur)));
    DropHeaviestOnly(HeaviestFirst(cur), maxLoad - Load(cur));
    assert ids == [h.id];
    DroppedFacts(rows, maxLoad, c, cur);
    assert TypeStep(rows, maxLoad, cur) == RevertAll(rows, ids);
    forall x ensures x in CurrentRows(RevertAll(rows, [h.id]), c) <==> x in cur && x.id != h.id {
      assert x.id in ids <==> x.id == h.id;
    }
  }

  /** The heaviest current order covers the overload: it alone is unassigned. */
  lemma TypeStepDropsHeaviest(rows: seq<OrderRow>, maxLoad: int, c: int, cur: seq<OrderRow>)
    requires IdsAscending(rows) && Tracks(cur, rows, c) && cur != [] && Load(cur) > maxLoad
    requires maxLoad - Load(cur) + HeaviestFirst(cur)[0].weight >= 0
    ensures var h := HeaviestFirst(cur)[0];
      (forall x :: x in CurrentRows(TypeStep(rows, maxLoad, cur), c) <==> x in cur && x.id != h.id) &&
      Load(CurrentRows(TypeStep(rows, maxLoad, cur), c)) <= maxLoad
  {
    var h := HeaviestFirst(cur)[0];
    HeaviestDropped(rows, maxLoad, c, cur);
    var rows' := RevertAll(rows, [h.id]);
    RevertKeepsAscending(rows, [h.id]);
    HeaviestIsMax(cur);
    LoadAfterDropOne(rows', c, cur, h);
  }

  /** No single current order covers the overload: every one is unassigned. */
  lemma TypeStepDropsAll(rows: seq<OrderRow>, maxLoad: int, c: int, cur: seq<OrderRow>)
    requires IdsAscending(rows) && Tracks(cur, rows, c) && cur != [] && Load(cur) > maxLoad
    requires maxLoad - Load(cur) + HeaviestFirst(cur)[0].weight < 0
    ensures CurrentRows(TypeStep(rows, maxLoad, cur), c) == []
  {
    var desc := HeaviestFirst(cur);
    HeaviestFirstFacts(cur);
    DropLoopRule(desc, maxLoad - Load(cur));
    DroppedFacts(rows, maxLoad, c, cur);
    forall x | x in cur ensures x.id in Ids(desc) {
      InIds(desc, x.id);
    }
    EmptyWhenNoMember(CurrentRows(TypeStep(rows, maxLoad, cur), c));
  }

  /**
   * The capacity step (utils.py:252-268) with a non-negative new capacity:
   * afterwards the courier's assigned weight is within it, no order became
   * current, and only current orders were unassigned. Nothing changes when
   * the load already fits; otherwise the heaviest order alone is unassigned
   * when it covers the overload and every order is unassigned when none does.
   */
  lemma {:induction false} TypeStepSpec(rows: seq<OrderRow>, maxLoad: int, c: int, cur: seq<OrderRow>)
    requires IdsAscending(rows) && Tracks(cur, rows, c) && maxLoad >= 0
    ensures var rows' := TypeStep(rows, maxLoad, cur);
      RevertsOnly(rows, rows', c) &&
      Load(CurrentRows(rows', c)) <= maxLoad &&
      (forall x :: x in CurrentRows(rows', c) ==> x in cur) &&
      (Load(cur) <= maxLoad ==> rows' == rows) &&
      (Load(cur) > maxLoad && (forall x :: x in cur ==> x.weight < Load(cur) - maxLoad) ==>
         CurrentRows(rows', c) == []) &&
      (Load(cur) > maxLoad && (exists x :: x in cur && x.weight >= Load(cur) - maxLoad) ==>
         exists h :: h in cur && (forall y :: y in cur ==> y.weight <= h.weight) &&
                     forall x :: x in CurrentRows(rows', c) <==> x in cur && x.id != h.id)
  {
    var rows' := TypeStep(rows, maxLoad, cur);
    LoadTracks(cur, rows, c);
    if cur == [] || Load(cur) <= maxLoad {
      EmptyWhenNoMember(CurrentRows(rows, c));
    } else {
      DroppedFacts(rows, maxLoad, c, cur);
      HeaviestIsMax(cur);
      var h := HeaviestFirst(cur)[0];
      if maxLoad - Load(cur) + h.weight >= 0 {
        TypeStepDropsHeaviest(rows, maxLoad, c, cur);
      } else {
        TypeStepDropsAll(rows, maxLoad, c, cur);
      }
    }
  }

  // ---------------------------------------------------------------------
  // The whole revalidation

  /** A completed order of the courier lies in a region the patch takes away from a current order. */
  predicate RegionBlocked(rows: seq<OrderRow>, c: int, regions: seq<int>) {
    exists x :: x in rows && x.status == Completed && x.courierId == Some(c) &&
                x.region in InvalidRegions(CurrentRows(rows, c), regions)
  }

  /** A current order passes the region check of the patch, if the patch changed regions. */
  predicate KeepsRegion(x: OrderRow, p: Profile, changed: Changed) {
    changed.regions ==> x.region in p.regions
  }

  /**
   * `validate_existing_orders` on a known courier: whatever the outcome, the
   * only rows that changed are the courier's assigned orders, now
   * unassigned, and the table stays well formed. On success every order still
   * assigned to the courier was assigned before and passes each check the
   * patch triggered; without a type change these are exactly the orders that
   * pass, and with one the courier's load is within its new capacity.
   */
  lemma {:induction false} ValidateSpec(p: Profile, rows: seq<OrderRow>, deliveryHours: map<int, seq<string>>, c: int, changed: Changed)
    requires TableWellFormed(rows)
    ensures var (r, rows') := Validate(Some(p), rows, deliveryHours, c, changed);
      RevertsOnly(rows, rows', c) && TableWellFormed(rows') &&
      (r.Success? ==> forall x :: x in CurrentRows(rows', c) ==>
         x in CurrentRows(rows, c) && KeepsRegion(x, p, changed) &&
         (changed.workingHours ==> InTime(x, p.workingHours, deliveryHours))) &&
      (r.Success? && !changed.ctype ==> forall x :: x in CurrentRows(rows', c) <==>
         x in CurrentRows(rows, c) && KeepsRegion(x, p, changed) &&
         (changed.workingHours ==> InTime(x, p.workingHours, deliveryHours))) &&
      (r.Success? && changed.ctype ==> Load(CurrentRows(rows', c)) <= Capacity(p.ctype))
  {
    var cur := CurrentRows(rows, c);
    CurrentAscending(rows, c);
    var (r1, rows1) := if changed.regions then RegionStep(rows, c, p.regions, cur) else (Success(cur), rows);
    if changed.regions {
      RegionStepSpec(rows, c, p.regions);
    }
    RevertsOnlyKeepsTable(rows, rows1, c);
    if r1.Success? {
      var (r2, rows2) :=
        if changed.workingHours then HoursStep(rows1, p.workingHours, deliveryHours, r1.value) else (r1, rows1);
      if changed.workingHours {
        HoursStepSpec(rows1, p.workingHours, deliveryHours, c, r1.value);
      }
      RevertsOnlyTrans(rows, rows1, rows2, c);
      RevertsOnlyKeepsTable(rows, rows2, c);
      if r2.Success? {
        if changed.ctype && r2.value != [] {
          TypeStepSpec(rows2, Capacity(p.ctype), c, r2.value);
          var rows3 := TypeStep(rows2, Capacity(p.ctype), r2.value);
          RevertsOnlyTrans(rows, rows2, rows3, c);
          RevertsOnlyKeepsTable(rows, rows3, c);
        } else if changed.ctype {
          EmptyWhenNoMember(CurrentRows(rows2, c));
        }
      }
    }
  }

  /**
   * When `validate_existing_orders` raises on a known courier: the region
   * step raises exactly when a completed order blocks it, and otherwise the
   * hours step raises exactly when an order that kept its region has no
   * delivery windows or a window that does not parse. A type change alone
   * never raises.
   */
  lemma {:induction false} ValidateFails(p: Profile, rows: seq<OrderRow>, deliveryHours: map<int, seq<string>>, c: int, changed: Changed)
    requires TableWellFormed(rows)
    ensures var (r, rows') := Validate(Some(p), rows, deliveryHours, c, changed);
      r.Failure? <==>
        (changed.regions && RegionBlocked(rows, c, p.regions)) ||
        (!(changed.regions && RegionBlocked(rows, c, p.regions)) && changed.workingHours &&
         exists x :: x in CurrentRows(rows, c) && KeepsRegion(x, p, changed) &&
                     !TimeCheckable(x, p.workingHours, deliveryHours))
  {
    var cur := CurrentRows(rows, c);
    CurrentAscending(rows, c);
    var (r1, rows1) := if changed.regions then RegionStep(rows, c, p.regions, cur) else (Success(cur), rows);
    if changed.regions {
      RegionStepSpec(rows, c, p.regions);
    }
    RevertsOnlyKeepsTable(rows, rows1, c);
    if r1.Success? && changed.workingHours {
      HoursStepSpec(rows1, p.workingHours, deliveryHours, c, r1.value);
    }
  }

  /** An unknown courier: the revalidation raises "not found" and writes nothing. */
  lemma ValidateUnknownCourier(rows: seq<OrderRow>, deliveryHours: map<int, seq<string>>, c: int, changed: Changed,
                               couriers: map<int, CourierType>, regions: map<int, seq<int>>,
                               workingHours: map<int, seq<string>>)
    requires c !in couriers
    ensures Validate(ProfileOf(couriers, regions, workingHours, c), rows, deliveryHours, c, changed)
            == (Failure(CourierNotFound(c)), rows)
  {
  }

  /**
   * After the writes of a patch, a known courier reads back each sent field
   * and keeps each other one; an unknown courier stays unknown, and every
   * other courier reads exactly as before.
   */
  lemma PatchProfile(couriers: map<int, CourierType>, regions: map<int, seq<int>>,
                     workingHours: map<int, seq<string>>, c: int, patch: Patch, other: int)
    requires other != c
    ensures var p := ProfileOf(couriers, regions, workingHours, c);
      ProfileOf(PatchedType(couriers, c, patch.ctype), Replaced(regions, c, patch.regions),
                Replaced(workingHours, c, patch.workingHours), c) ==
        if p.None? then None
        else Some(Profile(if patch.ctype.Some? then patch.ctype.value else p.value.ctype,
                          if patch.regions.Some? then patch.regions.value else p.value.regions,
                          if patch.workingHours.Some? then patch.workingHours.value else p.value.workingHours))
    ensures ProfileOf(PatchedType(couriers, c, patch.ctype), Replaced(regions, c, patch.regions),
                      Replaced(workingHours, c, patch.workingHours), other) ==
            ProfileOf(couriers, regions, workingHours, other)
  {
  }
}
