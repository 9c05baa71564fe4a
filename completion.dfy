/** `complete_order` (utils.py:304-327): the only way an order becomes completed. */
module Completion {
  import opened Wrappers
  import opened Store

  /** The UPDATE at utils.py:323-324 applied to the row. */
  function Finish(x: OrderRow, completeTime: int): OrderRow {
    x.(status := Completed, dateFinished := Some(completeTime))
  }

  /**
   * `complete_order(courier_id, order_id, complete_time)`: the answer and the
   * new rows. The checks run in the source's order: unknown order, status 0,
   * another courier, already completed. An unknown order fails at `order[1]`
   * on the `None` row, outside the `try`, so it surfaces as Python's own
   * TypeError rather than the message written for it.
   */
  function CompleteOrder(rows: seq<OrderRow>, courierId: int, orderId: int, completeTime: int)
    : (r: (Result<int, Error>, seq<OrderRow>))
    ensures |r.1| == |rows|
    ensures forall i :: 0 <= i < |rows| ==> r.1[i].id == rows[i].id && (rows[i].id != orderId ==> r.1[i] == rows[i])
    ensures r.0.Success? ==> r.0.value == orderId
  {
    match Find(rows, orderId)
    case None => (Failure(OrderRowMissing(orderId)), rows)
    case Some(o) =>
      if o.status == Unassigned then (Failure(NotAssignedYet(orderId)), rows)
      else if o.courierId != Some(courierId) then (Failure(AssignedToOtherCourier(orderId)), rows)
      else if o.status == Completed then (Failure(AlreadyCompleted(orderId)), rows)
      else (Success(orderId), UpdateWhere(rows, [orderId], (x: OrderRow) => Finish(x, completeTime)))
  }

  /**
   * Each rejection happens exactly when its condition holds and every earlier
   * check passed; a rejection writes nothing (utils.py:312-318).
   */
  lemma CompleteChecks(rows: seq<OrderRow>, courierId: int, orderId: int, completeTime: int)
    ensures var (r, rows') := CompleteOrder(rows, courierId, orderId, completeTime);
      var o := Find(rows, orderId);
      (r == Failure(OrderRowMissing(orderId)) <==> o.None?) &&
      (r == Failure(NotAssignedYet(orderId)) <==> o.Some? && o.value.status == Unassigned) &&
      (r == Failure(AssignedToOtherCourier(orderId)) <==>
         o.Some? && o.value.status != Unassigned && o.value.courierId != Some(courierId)) &&
      (r == Failure(AlreadyCompleted(orderId)) <==>
         o.Some? && o.value.status == Completed && o.value.courierId == Some(courierId)) &&
      (r == Success(orderId) <==>
         o.Some? && o.value.status == Assigned && o.value.courierId == Some(courierId)) &&
      (r.Failure? ==> rows' == rows)
  {
  }

  /** `Find` sees an UPDATE that keeps ids: the row it returns is the updated one. */
  lemma {:induction false} FindUpdateWhere(rows: seq<OrderRow>, ids: seq<int>, f: OrderRow -> OrderRow, id: int)
    requires forall x :: f(x).id == x.id
    ensures Find(UpdateWhere(rows, ids, f), id) ==
      match Find(rows, id)
      case None => None
      case Some(x) => Some(if x.id in ids then f(x) else x)
  {
    if rows != [] {
      assert UpdateWhere(rows, ids, f)[1..] == UpdateWhere(rows[1..], ids, f);
      FindUpdateWhere(rows[1..], ids, f, id);
    }
  }

  /**
   * A successful completion moves the order from 1 to 2 and stamps its finish
   * time, touching no other field and no other row; the same request again is
   * then rejected as already completed.
   */
  lemma CompleteThenAgain(rows: seq<OrderRow>, courierId: int, orderId: int, t1: int, t2: int)
    requires CompleteOrder(rows, courierId, orderId, t1).0.Success?
    ensures var rows' := CompleteOrder(rows, courierId, orderId, t1).1;
      var o := Find(rows, orderId).value;
      o.status == Assigned &&
      Find(rows', orderId) == Some(o.(status := Completed, dateFinished := Some(t1))) &&
      (forall i :: 0 <= i < |rows| && rows[i].id != orderId ==> rows'[i] == rows[i]) &&
      CompleteOrder(rows', courierId, orderId, t2) == (Failure(AlreadyCompleted(orderId)), rows')
  {
    FindUpdateWhere(rows, [orderId], (x: OrderRow) => Finish(x, t1), orderId);
  }

  /** Completing keeps every row well formed and the ids in rowid order. */
  lemma CompleteKeepsTable(rows: seq<OrderRow>, courierId: int, orderId: int, completeTime: int)
    requires TableWellFormed(rows)
    ensures TableWellFormed(CompleteOrder(rows, courierId, orderId, completeTime).1)
  {
    var rows' := CompleteOrder(rows, courierId, orderId, completeTime).1;
    if CompleteOrder(rows, courierId, orderId, completeTime).0.Success? {
      var o := Find(rows, orderId).value;
      forall i | 0 <= i < |rows'| ensures RowWellFormed(rows'[i]) {
        if rows[i].id == orderId {
          assert rows[i] in rows;
          assert IdsAscending(rows);
          var j :| 0 <= j < |rows| && rows[j] == o;
          assert i == j;
        }
      }
    }
  }
}
