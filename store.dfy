/**
 * The rows of the store (utils.py:73-93) and what every operation of
 * `DatabaseConnector` shares: the load and pay tables (utils.py:70-71),
 * SELECT ... WHERE as a filter over the rows, the sort by weight, the
 * UPDATE of a list of order ids, and sums of weights.
 *
 * The `orders` table is a sequence of rows in rowid order. Its key
 * `order_id INTEGER PRIMARY KEY` is the rowid, so the rows are in ascending
 * order id, and a query without ORDER BY returns its rows in that order.
 */
module Store {
  import opened Wrappers
  import opened Models

  /** The `status` column: 0 not assigned, 1 assigned, 2 completed. */
  datatype Status = Unassigned | Assigned | Completed

  /**
   * One row of the `orders` table. Weights are hundredths, timestamps are
   * milliseconds; NULL columns are `None`. The delivery windows are kept in
   * a table of their own.
   */
  datatype OrderRow = OrderRow(
    id: int,
    weight: nat,
    region: int,
    status: Status,
    dateCreated: int,
    dateAssigned: Option<int>,
    dateFinished: Option<int>,
    courierId: Option<int>,
    typeWhenAssigned: Option<CourierType>)

  /** What an operation of the store ends with instead of a value. */
  datatype Error =
    | CourierNotFound(courierId: int)      // TypeError of get_actual_courier_status / get_courier_data
    | OrderRowMissing(orderId: int)        // `order[1]` on the None that fetchone() returns
    | NotAssignedYet(orderId: int)
    | AssignedToOtherCourier(orderId: int)
    | AlreadyCompleted(orderId: int)
    | MissingDeliveryHours(orderId: int)   // KeyError: no delivery_hours rows for the order
    | BadTimeWindow                        // ValueError / IndexError inside transform_to_dt
    | NotCurrentOrder(orderId: int)        // KeyError of courier_current_orders.pop
    | NoRatedRegion                        // ValueError of min() over no region averages

  /** `couriers_load`, in hundredths. */
  function Capacity(t: CourierType): (c: nat)
    ensures c > 0
  {
    match t
    case Foot => 1000
    case Bike => 1500
    case Car => 5000
  }

  /** `coefficient`. */
  function Coefficient(t: CourierType): (k: nat)
    ensures k > 0
  {
    match t
    case Foot => 2
    case Bike => 5
    case Car => 9
  }

  /** A key missing from a grouped table has no rows. */
  function RowsOf<T>(table: map<int, seq<T>>, id: int): seq<T> {
    if id in table then table[id] else []
  }

  // ---------------------------------------------------------------------
  // Rows, ids and the integrity of the orders table

  function Ids(rows: seq<OrderRow>): (ids: seq<int>)
    ensures |ids| == |rows|
    ensures forall i :: 0 <= i < |rows| ==> ids[i] == rows[i].id
  {
    if rows == [] then [] else [rows[0].id] + Ids(rows[1..])
  }

  /** Rowid order: strictly ascending order ids, hence no id twice. */
  predicate IdsAscending(rows: seq<OrderRow>) {
    forall i, j :: 0 <= i < j < |rows| ==> rows[i].id < rows[j].id
  }

  /**
   * What every write of the store keeps true of a row: a row is assigned to a
   * courier (courier, batch time and courier type all set) exactly when its
   * status is not 0, it has a finish time exactly when it is completed, and
   * its weight passed `weight_correctness`.
   */
  predicate RowWellFormed(r: OrderRow) {
    MinWeight <= r.weight <= MaxWeight &&
    (r.status == Unassigned <==> r.courierId.None?) &&
    (r.status == Unassigned <==> r.dateAssigned.None?) &&
    (r.status == Unassigned <==> r.typeWhenAssigned.None?) &&
    (r.status == Completed <==> r.dateFinished.Some?)
  }

  predicate TableWellFormed(rows: seq<OrderRow>) {
    IdsAscending(rows) && forall i :: 0 <= i < |rows| ==> RowWellFormed(rows[i])
  }

  /** Every row of a well-formed table is well formed. */
  lemma WellFormedMember(rows: seq<OrderRow>, x: OrderRow)
    requires TableWellFormed(rows) && x in rows
    ensures RowWellFormed(x)
  {
    var i :| 0 <= i < |rows| && rows[i] == x;
  }

  /** `SELECT ... FROM orders WHERE p`, in row order. */
  function Where(rows: seq<OrderRow>, p: OrderRow -> bool): (r: seq<OrderRow>)
    ensures |r| <= |rows|
    ensures forall x :: x in r <==> x in rows && p(x)
  {
    if rows == [] then []
    else if p(rows[0]) then [rows[0]] + Where(rows[1..], p)
    else Where(rows[1..], p)
  }

  lemma {:induction false} WhereAscending(rows: seq<OrderRow>, p: OrderRow -> bool)
    requires IdsAscending(rows)
    ensures IdsAscending(Where(rows, p))
  {
    if rows != [] {
      WhereAscending(rows[1..], p);
      var rest := Where(rows[1..], p);
      forall k | 0 <= k < |rest| ensures rows[0].id < rest[k].id {
        assert rest[k] in rows[1..];
      }
    }
  }

  /** The row with id `id`, if any (`SELECT ... WHERE order_id = id`.fetchone()). */
  function Find(rows: seq<OrderRow>, id: int): (r: Option<OrderRow>)
    ensures r.Some? ==> r.value in rows && r.value.id == id
    ensures r.None? ==> forall i :: 0 <= i < |rows| ==> rows[i].id != id
  {
    if rows == [] then None
    else if rows[0].id == id then Some(rows[0])
    else Find(rows[1..], id)
  }

  /** `UPDATE orders SET ... WHERE order_id IN ids`, the new values computed by `f`. */
  function UpdateWhere(rows: seq<OrderRow>, ids: seq<int>, f: OrderRow -> OrderRow): (r: seq<OrderRow>)
    ensures |r| == |rows|
    ensures forall i :: 0 <= i < |rows| ==> r[i] == if rows[i].id in ids then f(rows[i]) else rows[i]
  {
    seq(|rows|, i requires 0 <= i < |rows| => if rows[i].id in ids then f(rows[i]) else rows[i])
  }

  // ---------------------------------------------------------------------
  // sorted(d.items(), key=lambda item: item[1]) on a dict built in row
  // order. Python's sort is stable, so equal keys keep ascending ids: the
  // result is sorted by the pair (key, id).

  /** `a` comes no later than `b` in the (key, id) order. */
  predicate Le(key: OrderRow -> int, a: OrderRow, b: OrderRow) {
    key(a) < key(b) || (key(a) == key(b) && a.id <= b.id)
  }

  predicate SortedBy(s: seq<OrderRow>, key: OrderRow -> int) {
    forall i, j :: 0 <= i < j < |s| ==> Le(key, s[i], s[j])
  }

  function Weight(r: OrderRow): int { r.weight }

  /** The tail of a sorted, id-distinct sequence keeps both and sits after the head. */
  lemma TailFacts(s: seq<OrderRow>, key: OrderRow -> int)
    requires s != []
    ensures SortedBy(s, key) ==> SortedBy(s[1..], key) && forall y :: y in s[1..] ==> Le(key, s[0], y)
    ensures DistinctIds(s) ==> DistinctIds(s[1..]) && forall y :: y in s[1..] ==> y.id != s[0].id
  {
    forall y | y in s[1..] ensures exists j :: 1 <= j < |s| && s[j] == y {
      var j :| 0 <= j < |s[1..]| && s[1..][j] == y;
      assert s[j + 1] == y;
    }
    forall i, j | 0 <= i < j < |s[1..]| ensures s[1..][i] == s[i + 1] && s[1..][j] == s[j + 1] {
    }
  }

  /** No order id occurs twice. */
  predicate DistinctIds(s: seq<OrderRow>) {
    forall i, j :: 0 <= i < j < |s| ==> s[i].id != s[j].id
  }

  function InsertSorted(x: OrderRow, s: seq<OrderRow>, key: OrderRow -> int): (r: seq<OrderRow>)
    requires SortedBy(s, key)
    ensures |r| == |s| + 1
    ensures forall y :: y in r <==> y == x || y in s
    ensures SortedBy(r, key)
    ensures DistinctIds(s) && (forall y :: y in s ==> y.id != x.id) ==> DistinctIds(r)
  {
    if s == [] then [x]
    else if Le(key, x, s[0]) then [x] + s
    else
      var rest := InsertSorted(x, s[1..], key);
      TailFacts(s, key);
      assert forall k :: 0 <= k < |rest| ==> Le(key, s[0], rest[k]) by {
        forall k | 0 <= k < |rest| ensures Le(key, s[0], rest[k]) {
          assert rest[k] in rest;
        }
      }
      assert DistinctIds(s) && (forall y :: y in s ==> y.id != x.id) ==> DistinctIds([s[0]] + rest) by {
        if DistinctIds(s) && (forall y :: y in s ==> y.id != x.id) {
          assert forall y :: y in s[1..] ==> y in s;
          forall k | 0 <= k < |rest| ensures rest[k].id != s[0].id {
            assert rest[k] in rest;
          }
        }
      }
      [s[0]] + rest
  }

  /** Insertion sort: the same rows, ordered by (key, id). */
  function SortBy(s: seq<OrderRow>, key: OrderRow -> int): (r: seq<OrderRow>)
    ensures |r| == |s|
    ensures forall y :: y in r <==> y in s
    ensures SortedBy(r, key)
    ensures DistinctIds(s) ==> DistinctIds(r)
  {
    if s == [] then []
    else
      var rest := SortBy(s[1..], key);
      TailFacts(s, key);
      InsertSorted(s[0], rest, key)
  }

  function Reverse(s: seq<OrderRow>): (r: seq<OrderRow>)
    ensures |r| == |s|
    ensures forall i :: 0 <= i < |s| ==> r[i] == s[|s| - 1 - i]
  {
    if s == [] then [] else [s[|s| - 1]] + Reverse(s[..|s| - 1])
  }

  // ---------------------------------------------------------------------
  // Sums of weights

  /** `sum(...)` of the weights of `rows`. */
  function Load(rows: seq<OrderRow>): nat {
    if rows == [] then 0 else rows[0].weight + Load(rows[1..])
  }

  /** Filtering a concatenation filters each part. */
  lemma {:induction false} WhereAppend(a: seq<OrderRow>, b: seq<OrderRow>, p: OrderRow -> bool)
    ensures Where(a + b, p) == Where(a, p) + Where(b, p)
  {
    if a != [] {
      assert (a + b)[0] == a[0] && (a + b)[1..] == a[1..] + b;
      WhereAppend(a[1..], b, p);
      if p(a[0]) {
        assert Where(a + b, p) == [a[0]] + Where(a[1..] + b, p);
        assert [a[0]] + (Where(a[1..], p) + Where(b, p)) == ([a[0]] + Where(a[1..], p)) + Where(b, p);
      }
    } else {
      assert a + b == b;
    }
  }

  lemma {:induction false} LoadAppend(a: seq<OrderRow>, b: seq<OrderRow>)
    ensures Load(a + b) == Load(a) + Load(b)
  {
    if a == [] {
      assert a + b == b;
    } else {
      assert (a + b)[0] == a[0] && (a + b)[1..] == a[1..] + b;
      LoadAppend(a[1..], b);
    }
  }

  lemma {:induction false} LoadInsertSorted(x: OrderRow, s: seq<OrderRow>, key: OrderRow -> int)
    requires SortedBy(s, key)
    ensures Load(InsertSorted(x, s, key)) == x.weight + Load(s)
  {
    if s != [] && !Le(key, x, s[0]) {
      LoadInsertSorted(x, s[1..], key);
    }
  }

  /** Sorting does not change the total weight. */
  lemma {:induction false} LoadSortBy(s: seq<OrderRow>, key: OrderRow -> int)
    ensures Load(SortBy(s, key)) == Load(s)
  {
    if s != [] {
      LoadSortBy(s[1..], key);
      LoadInsertSorted(s[0], SortBy(s[1..], key), key);
    }
  }

  /** The rows whose id is not listed in `ids`. */
  function Without(s: seq<OrderRow>, ids: seq<int>): (r: seq<OrderRow>)
    ensures forall x :: x in r <==> x in s && x.id !in ids
  {
    Where(s, (x: OrderRow) => x.id !in ids)
  }

  /** Removing the one row with a given id takes exactly its weight off the sum. */
  lemma {:induction false} LoadWithout(s: seq<OrderRow>, k: nat)
    requires IdsAscending(s) && k < |s|
    ensures Load(Without(s, [s[k].id])) + s[k].weight == Load(s)
  {
    var x := s[k];
    if k == 0 {
      assert forall y :: y in s[1..] ==> y.id != x.id by {
        forall y | y in s[1..] ensures y.id != x.id {
          var j :| 0 <= j < |s[1..]| && s[1..][j] == y;
          assert s[j + 1] == y;
        }
      }
      WhereAll(s[1..], (r: OrderRow) => r.id !in [x.id]);
    } else {
      assert IdsAscending(s[1..]) by {
        forall i, j | 0 <= i < j < |s[1..]| ensures s[1..][i].id < s[1..][j].id {
          assert s[1..][i] == s[i + 1] && s[1..][j] == s[j + 1];
        }
      }
      assert s[1..][k - 1] == x;
      LoadWithout(s[1..], k - 1);
    }
  }

  /** The rows of a non-empty table are its head and the rows of its tail. */
  lemma HeadTail(s: seq<OrderRow>)
    requires s != []
    ensures forall x :: x in s <==> x == s[0] || x in s[1..]
  {
  }

  /** In rowid order the tail stays ascending and every later id exceeds the head's. */
  lemma AscendingTail(s: seq<OrderRow>)
    requires s != []
    ensures IdsAscending(s) ==> IdsAscending(s[1..]) && forall x :: x in s[1..] ==> s[0].id < x.id
  {
    if IdsAscending(s) {
      forall x | x in s[1..] ensures s[0].id < x.id {
        var j :| 0 <= j < |s[1..]| && s[1..][j] == x;
        assert s[j + 1] == x;
      }
      forall i, j | 0 <= i < j < |s[1..]| ensures s[1..][i].id < s[1..][j].id {
        assert s[1..][i] == s[i + 1] && s[1..][j] == s[j + 1];
      }
    }
  }

  lemma AscendingDistinct(s: seq<OrderRow>)
    requires IdsAscending(s)
    ensures DistinctIds(s)
  {
  }

  /** Dropping position `k` of an id-distinct sequence drops exactly the rows with that id. */
  lemma RemoveAt(b: seq<OrderRow>, k: nat)
    requires DistinctIds(b) && k < |b|
    ensures DistinctIds(b[..k] + b[k + 1..])
    ensures forall y :: y in b[..k] + b[k + 1..] <==> y in b && y.id != b[k].id
  {
    var b' := b[..k] + b[k + 1..];
    forall i, j | 0 <= i < j < |b'| ensures b'[i].id != b'[j].id {
      var i' := if i < k then i else i + 1;
      var j' := if j < k then j else j + 1;
      assert b'[i] == b[i'] && b'[j] == b[j'];
    }
    forall y ensures y in b' <==> y in b && y.id != b[k].id {
      if y in b' {
        var j :| 0 <= j < |b'| && b'[j] == y;
        var j' := if j < k then j else j + 1;
        assert b[j'] == y;
      }
      if y in b && y.id != b[k].id {
        var j :| 0 <= j < |b| && b[j] == y;
        if j < k { assert b'[j] == y; } else { assert b'[j - 1] == y; }
      }
    }
  }

  ghost predicate SameRows(a: seq<OrderRow>, b: seq<OrderRow>) {
    forall x :: x in a <==> x in b
  }

  lemma {:induction false} SameRowsAfterRemoval(a: seq<OrderRow>, b: seq<OrderRow>, k: nat)
    requires DistinctIds(a) && DistinctIds(b) && SameRows(a, b)
    requires |a| > 0 && k < |b| && b[k] == a[0]
    ensures DistinctIds(a[1..]) && DistinctIds(b[..k] + b[k + 1..])
    ensures SameRows(a[1..], b[..k] + b[k + 1..])
  {
    RemoveAt(a, 0);
    RemoveAt(b, k);
    assert a[..0] + a[1..] == a[1..];
  }

  /** Two id-distinct sequences holding the same rows weigh the same, whatever their order. */
  lemma {:induction false} LoadSameRows(a: seq<OrderRow>, b: seq<OrderRow>)
    requires DistinctIds(a) && DistinctIds(b) && SameRows(a, b)
    ensures Load(a) == Load(b)
    decreases |a|
  {
    if a == [] {
      if b != [] { assert b[0] in b; }
    } else {
      var x := a[0];
      assert x in a;
      assert x in b;
      var k :| 0 <= k < |b| && b[k] == x;
      SameRowsAfterRemoval(a, b, k);
      LoadSameRows(a[1..], b[..k] + b[k + 1..]);
      LoadSplit(b, k);
    }
  }

  /** Taking row `k` out of a sequence lowers its load by that row's weight. */
  lemma {:induction false} LoadSplit(b: seq<OrderRow>, k: nat)
    requires k < |b|
    ensures Load(b) == Load(b[..k] + b[k + 1..]) + b[k].weight
  {
    var pre, post := b[..k], b[k + 1..];
    var tail := [b[k]] + post;
    assert b == pre + tail;
    LoadAppend(pre, tail);
    assert tail[0] == b[k] && tail[1..] == post;
    assert Load(tail) == b[k].weight + Load(post);
    LoadAppend(pre, post);
  }

  /** A filter every row passes keeps the sequence. */
  lemma {:induction false} WhereAll(s: seq<OrderRow>, p: OrderRow -> bool)
    requires forall y :: y in s ==> p(y)
    ensures Where(s, p) == s
  {
    if s != [] {
      assert s[0] in s;
      assert forall y :: y in s[1..] ==> y in s;
      WhereAll(s[1..], p);
    }
  }
}
