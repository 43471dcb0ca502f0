/**
 * The invariants that tie the booking ledger to the room registry, stated
 * once for both versions of `HotelSystem` over two projections of the
 * ledger: the room each booking references (an index into the registry, or
 * None for a `null` room) and the booking ids, in ledger order.
 */
module Ledger {
  import opened Wrappers
  import opened JavaText
  import opened Sequences
  import opened Registry

  /** The initial value of `nextBookingId`. */
  const FIRST_BOOKING_ID: int32 := 1000

  /** How many bookings reference the room at index `i`. */
  function RefCount(links: seq<Option<nat>>, i: nat): (n: nat)
    ensures n <= |links|
    ensures n == 0 <==> forall k :: 0 <= k < |links| ==> links[k] != Some(i)
  {
    if |links| == 0 then 0
    else RefCount(links[..|links| - 1], i) + (if links[|links| - 1] == Some(i) then 1 else 0)
  }

  /**
   * The registry and the ledger agree: every booking references a room of the
   * registry that is booked, and every booked room is referenced by exactly
   * one booking.
   */
  predicate Consistent(rooms: seq<Room>, links: seq<Option<nat>>) {
    && (forall k :: 0 <= k < |links| ==>
          links[k].Some? && links[k].value < |rooms| && rooms[links[k].value].booked)
    && (forall i :: 0 <= i < |rooms| && rooms[i].booked ==> RefCount(links, i) == 1)
  }

  lemma RefCountAppend(links: seq<Option<nat>>, x: Option<nat>, i: nat)
    ensures RefCount(links + [x], i) == RefCount(links, i) + (if x == Some(i) then 1 else 0)
  {
    assert (links + [x])[..|links|] == links;
  }

  lemma {:induction false} RefCountRemoveAt(links: seq<Option<nat>>, k: nat, i: nat)
    requires k < |links|
    ensures RefCount(RemoveAt(links, k), i) + (if links[k] == Some(i) then 1 else 0) == RefCount(links, i)
  {
    var n := |links| - 1;
    if k == n {
      assert RemoveAt(links, k) == links[..n];
    } else {
      var front := links[..n];
      assert RemoveAt(links, k) == RemoveAt(front, k) + [links[n]];
      RefCountRemoveAt(front, k, i);
      RefCountAppend(RemoveAt(front, k), links[n], i);
    }
  }

  /** Booking the free room `i` and appending a booking that references it keeps the two in agreement. */
  lemma BookingKeepsConsistent(rooms: seq<Room>, links: seq<Option<nat>>, i: nat)
    requires Consistent(rooms, links)
    requires i < |rooms| && !rooms[i].booked
    ensures Consistent(SetBooked(rooms, i, true), links + [Some(i)])
  {
    var rooms', links' := SetBooked(rooms, i, true), links + [Some(i)];
    assert RefCount(links, i) == 0;
    forall j | 0 <= j < |rooms'| && rooms'[j].booked ensures RefCount(links', j) == 1 {
      RefCountAppend(links, Some(i), j);
    }
  }

  /**
   * Removing the booking at `k` and unbooking the room it references keeps the
   * two in agreement.
   */
  lemma CancellingKeepsConsistent(rooms: seq<Room>, links: seq<Option<nat>>, k: nat)
    requires Consistent(rooms, links)
    requires k < |links|
    ensures links[k].Some? && links[k].value < |rooms|
    ensures Consistent(SetBooked(rooms, links[k].value, false), RemoveAt(links, k))
  {
    var i := links[k].value;
    var rooms', links' := SetBooked(rooms, i, false), RemoveAt(links, k);
    RefCountRemoveAt(links, k, i);
    assert RefCount(links', i) == 0;
    forall m | 0 <= m < |links'|
      ensures links'[m].Some? && links'[m].value < |rooms'| && rooms'[links'[m].value].booked
    {
      assert links'[m] == links[if m < k then m else m + 1];
    }
    forall j | 0 <= j < |rooms'| && rooms'[j].booked ensures RefCount(links', j) == 1 {
      RefCountRemoveAt(links, k, j);
    }
  }

  /** The indices of the booked rooms. */
  function BookedRooms(rooms: seq<Room>): set<nat> {
    set i: nat | i < |rooms| && rooms[i].booked
  }

  /** The indices of the rooms the ledger references. */
  function ReferencedRooms(links: seq<Option<nat>>): set<nat> {
    set k | 0 <= k < |links| && links[k].Some? :: links[k].value
  }

  lemma {:induction false} ReferencedCount(links: seq<Option<nat>>)
    requires forall k :: 0 <= k < |links| ==> links[k].Some?
    requires forall i: nat :: RefCount(links, i) <= 1
    ensures |ReferencedRooms(links)| == |links|
  {
    if |links| > 0 {
      var n := |links| - 1;
      var front := links[..n];
      forall i: nat ensures RefCount(front, i) <= 1 {
        RefCountAppend(front, links[n], i);
        assert front + [links[n]] == links;
      }
      ReferencedCount(front);
      var v := links[n].value;
      RefCountAppend(front, links[n], v);
      assert front + [links[n]] == links;
      assert v !in ReferencedRooms(front);
      assert ReferencedRooms(links) == ReferencedRooms(front) + {v};
    }
  }

  /**
   * Agreement is a bijection: the booked rooms are exactly the referenced
   * rooms, and there are as many of them as there are bookings.
   */
  lemma ConsistentIsBijection(rooms: seq<Room>, links: seq<Option<nat>>)
    requires Consistent(rooms, links)
    ensures BookedRooms(rooms) == ReferencedRooms(links)
    ensures |BookedRooms(rooms)| == |links|
  {
    forall i | i in BookedRooms(rooms) ensures i in ReferencedRooms(links) {
      assert RefCount(links, i) != 0;
    }
    forall i: nat ensures RefCount(links, i) <= 1 {
      if i >= |rooms| || !rooms[i].booked {
        assert RefCount(links, i) == 0;
      }
    }
    ReferencedCount(links);
  }

  /** Ids are strictly increasing in ledger order. */
  predicate Increasing(ids: seq<int32>) {
    forall a, b :: 0 <= a < b < |ids| ==> ids[a] < ids[b]
  }

  /** Every id is below the next one to be issued. */
  predicate AllBelow(ids: seq<int32>, next: int32) {
    forall k :: 0 <= k < |ids| ==> ids[k] < next
  }

  /** Issuing `next` and advancing the counter keeps ids increasing and below the counter. */
  lemma IssuingKeepsOrder(ids: seq<int32>, next: int32)
    requires Increasing(ids) && AllBelow(ids, next)
    requires next as int < INT_MAX
    ensures Increasing(ids + [next]) && AllBelow(ids + [next], Increment(next))
  {
  }

  /** Removing one booking keeps ids increasing and below the counter. */
  lemma RemovingKeepsOrder(ids: seq<int32>, k: nat, next: int32)
    requires Increasing(ids) && AllBelow(ids, next) && k < |ids|
    ensures Increasing(RemoveAt(ids, k)) && AllBelow(RemoveAt(ids, k), next)
  {
    var r := RemoveAt(ids, k);
    forall a, b | 0 <= a < b < |r| ensures r[a] < r[b] {
      assert r[a] == ids[if a < k then a else a + 1];
      assert r[b] == ids[if b < k then b else b + 1];
    }
  }

  /** Increasing ids never repeat, so an id names exactly one booking. */
  lemma IncreasingIdsAreUnique(ids: seq<int32>, k: nat)
    requires Increasing(ids) && k < |ids|
    ensures FirstIndex(ids, ids[k]) == Some(k)
    ensures ids[k] !in RemoveAt(ids, k)
  {
  }

  /**
   * `nextBookingId` recovered at load: one past the id of the last loaded
   * booking, or `current` when nothing was loaded.
   */
  function RecoveredCounter(ids: seq<int32>, current: int32): int32 {
    if |ids| == 0 then current else Increment(ids[|ids| - 1])
  }

  /** When loaded ids increase, the recovered counter is above every one of them. */
  lemma RecoveredCounterIsFresh(ids: seq<int32>, current: int32)
    requires Increasing(ids)
    requires |ids| > 0 ==> ids[|ids| - 1] as int < INT_MAX
    ensures AllBelow(ids, RecoveredCounter(ids, current))
  {
  }
}
