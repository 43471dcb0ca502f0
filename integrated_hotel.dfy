/**
 * IntegratedApp's `HotelSystem`: a registry of rooms, a ledger of bookings
 * and the `nextBookingId` counter, updated in place by `bookRoom` and
 * `cancelBooking`, and loaded from the two line files at construction.
 */
module IntegratedHotel {
  import opened Wrappers
  import opened JavaText
  import opened Sequences
  import opened Registry
  import opened Ledger
  import opened IntegratedCodec

  /** The registry `loadRooms` seeds when `rooms.txt` does not exist. */
  const SEEDED_ROOMS: seq<Room> := [Room(101, STANDARD, false), Room(102, DELUXE, false), Room(103, SUITE, false)]

  /** What `cancelBooking` does: removes a booking, finds none, or throws on a booking whose room is null. */
  datatype CancelOutcome = Cancelled | NotFound | NullRoom

  /** The room each booking references, in ledger order. */
  function Links(bookings: seq<Booking>): seq<Option<nat>> {
    seq(|bookings|, k requires 0 <= k < |bookings| => bookings[k].room)
  }

  /** The booking ids, in ledger order. */
  function Ids(bookings: seq<Booking>): seq<int32> {
    seq(|bookings|, k requires 0 <= k < |bookings| => bookings[k].id)
  }

  /** One line of `showAvailableRooms`: `number - TYPE`. */
  function AvailableLine(r: Room): string {
    ShowInt(r.number as int) + " - " + TypeName(r.kind)
  }

  /** The lines `showAvailableRooms` prints for the listed rooms: each room's line, in order. */
  function ListingLines(listed: seq<Room>): seq<string> {
    seq(|listed|, k requires 0 <= k < |listed| => AvailableLine(listed[k]))
  }

  lemma ListingLinesAppend(listed: seq<Room>, r: Room)
    ensures ListingLines(listed + [r]) == ListingLines(listed) + [AvailableLine(r)]
  {
  }

  class HotelSystem {
    var rooms: seq<Room>
    var bookings: seq<Booking>
    var nextBookingId: int32

    /** A booking's room is an object of the registry (or null). */
    predicate Valid()
      reads this
    {
      LinksInRange(bookings, rooms)
    }

    /** Every booked room is held by exactly one booking, and every booking holds a booked room. */
    predicate RoomsMatchBookings()
      reads this
    {
      Consistent(rooms, Links(bookings))
    }

    /** Ids increase along the ledger and all lie below `nextBookingId`. */
    predicate IdsInOrder()
      reads this
    {
      Increasing(Ids(bookings)) && AllBelow(Ids(bookings), nextBookingId)
    }

    /**
     * `new HotelSystem()`: `loadRooms` then `loadBookings`. A missing file is
     * None; a missing rooms file seeds the registry. The counter is recovered
     * as one past the last loaded id (see the findings in README.md: the
     * source leaves it at 1000).
     */
    constructor (roomLines: Option<seq<string>>, bookingLines: Option<seq<string>>)
      ensures Valid()
      ensures rooms == if roomLines.None? then SEEDED_ROOMS else LoadedRooms(roomLines.value)
      ensures bookings == if bookingLines.None? then [] else LoadedBookings(bookingLines.value, rooms)
      ensures nextBookingId == RecoveredCounter(Ids(bookings), FIRST_BOOKING_ID)
    {
      var loadedRooms: seq<Room>;
      if roomLines.None? {
        loadedRooms := SEEDED_ROOMS;
      } else {
        loadedRooms := ReadRooms(roomLines.value);
      }
      var loadedBookings: seq<Booking> := [];
      if bookingLines.Some? {
        loadedBookings := ReadBookings(bookingLines.value, loadedRooms);
      }
      rooms := loadedRooms;
      bookings := loadedBookings;
      nextBookingId := RecoveredCounter(Ids(loadedBookings), FIRST_BOOKING_ID);
    }

    /** `showAvailableRooms`: one line per unbooked room, in registry order. */
    method ShowAvailableRooms() returns (lines: seq<string>)
      ensures |lines| == |Available(rooms)|
      ensures forall k :: 0 <= k < |lines| ==> lines[k] == AvailableLine(Available(rooms)[k])
    {
      lines := [];
      ghost var listed: seq<Room> := [];
      for i := 0 to |rooms|
        invariant listed == Available(rooms[..i])
        invariant lines == ListingLines(listed)
      {
        AvailableStep(rooms, i);
        if !rooms[i].booked {
          ListingLinesAppend(listed, rooms[i]);
          lines := lines + [AvailableLine(rooms[i])];
          listed := listed + [rooms[i]];
        }
      }
      assert rooms[..|rooms|] == rooms;
    }

    /**
     * `bookRoom(name, type)`: takes the earliest unbooked room of the type,
     * marks it booked, and appends a booking with the next id; with no such
     * room nothing changes. Returns the id it prints, if any.
     */
    method BookRoom(name: string, t: RoomType) returns (id: Option<int32>)
      requires Valid()
      modifies this
      ensures Valid()
      ensures FirstFree(old(rooms), t).None? ==>
        id.None? && rooms == old(rooms) && bookings == old(bookings) && nextBookingId == old(nextBookingId)
      ensures FirstFree(old(rooms), t).Some? ==>
        var i := FirstFree(old(rooms), t).value;
        && id == Some(old(nextBookingId))
        && rooms == SetBooked(old(rooms), i, true)
        && bookings == old(bookings) + [Booking(old(nextBookingId), name, Some(i))]
        && nextBookingId == Increment(old(nextBookingId))
      ensures old(RoomsMatchBookings()) ==> RoomsMatchBookings()
      ensures old(IdsInOrder()) && old(nextBookingId) as int < INT_MAX ==> IdsInOrder()
    {
      for i := 0 to |rooms|
        invariant rooms == old(rooms) && bookings == old(bookings) && nextBookingId == old(nextBookingId)
        invariant forall j :: 0 <= j < i ==> !Bookable(rooms[j], t)
      {
        if rooms[i].kind == t && !rooms[i].booked {
          BookingKeepsInvariants(rooms, bookings, i, name, nextBookingId);
          rooms := SetBooked(rooms, i, true);
          var b := Booking(nextBookingId, name, Some(i));
          nextBookingId := Increment(nextBookingId);
          bookings := bookings + [b];
          id := Some(b.id);
          return;
        }
      }
      id := None;
    }

    /**
     * `cancelBooking(id)`: removes the first booking with the id and unbooks
     * its room; an unknown id changes nothing, and so does a booking whose room
     * is null, where `getRoom().setBooked` throws before anything changes.
     */
    method CancelBooking(id: int32) returns (outcome: CancelOutcome)
      requires Valid()
      modifies this
      ensures Valid()
      ensures nextBookingId == old(nextBookingId)
      ensures FirstIndex(Ids(old(bookings)), id).None? ==>
        outcome == NotFound && rooms == old(rooms) && bookings == old(bookings)
      ensures FirstIndex(Ids(old(bookings)), id).Some? ==>
        var k := FirstIndex(Ids(old(bookings)), id).value;
        match old(bookings)[k].room
        case None => outcome == NullRoom && rooms == old(rooms) && bookings == old(bookings)
        case Some(i) =>
          && outcome == Cancelled
          && rooms == SetBooked(old(rooms), i, false)
          && bookings == RemoveAt(old(bookings), k)
      ensures old(RoomsMatchBookings()) ==> RoomsMatchBookings()
      ensures old(IdsInOrder()) ==> IdsInOrder()
      ensures old(IdsInOrder()) && outcome == Cancelled ==> id !in Ids(bookings)
    {
      var k := 0;
      while k < |bookings|
        invariant 0 <= k <= |bookings|
        invariant rooms == old(rooms) && bookings == old(bookings) && nextBookingId == old(nextBookingId)
        invariant forall j :: 0 <= j < k ==> bookings[j].id != id
      {
        var b := bookings[k];
        if b.id == id {
          assert Ids(bookings)[k] == id;
          assert FirstIndex(Ids(bookings), id) == Some(k);
          if b.room.None? {
            return NullRoom;
          }
          var i := b.room.value;
          CancellingKeepsInvariants(rooms, bookings, k, nextBookingId);
          rooms := SetBooked(rooms, i, false);
          bookings := RemoveAt(bookings, k);
          return Cancelled;
        }
        k := k + 1;
      }
      assert id !in Ids(bookings);
      return NotFound;
    }
  }

  /** Booking the free room `i` under the next id keeps the registry and ledger in agreement and the ids in order. */
  lemma BookingKeepsInvariants(rooms: seq<Room>, bookings: seq<Booking>, i: nat, name: string, next: int32)
    requires i < |rooms| && !rooms[i].booked
    ensures Consistent(rooms, Links(bookings)) ==>
              Consistent(SetBooked(rooms, i, true), Links(bookings + [Booking(next, name, Some(i))]))
    ensures Increasing(Ids(bookings)) && AllBelow(Ids(bookings), next) && next as int < INT_MAX ==>
              var ids' := Ids(bookings + [Booking(next, name, Some(i))]);
              Increasing(ids') && AllBelow(ids', Increment(next))
  {
    var bookings' := bookings + [Booking(next, name, Some(i))];
    assert Links(bookings') == Links(bookings) + [Some(i)];
    assert Ids(bookings') == Ids(bookings) + [next];
    if Consistent(rooms, Links(bookings)) {
      BookingKeepsConsistent(rooms, Links(bookings), i);
    }
    if Increasing(Ids(bookings)) && AllBelow(Ids(bookings), next) && next as int < INT_MAX {
      IssuingKeepsOrder(Ids(bookings), next);
    }
  }

  /**
   * Removing the booking at `k` and unbooking its room keeps the registry and
   * ledger in agreement and the ids in order, and its id is then gone.
   */
  lemma CancellingKeepsInvariants(rooms: seq<Room>, bookings: seq<Booking>, k: nat, next: int32)
    requires k < |bookings| && bookings[k].room.Some? && bookings[k].room.value < |rooms|
    ensures Consistent(rooms, Links(bookings)) ==>
              Consistent(SetBooked(rooms, bookings[k].room.value, false), Links(RemoveAt(bookings, k)))
    ensures Increasing(Ids(bookings)) && AllBelow(Ids(bookings), next) ==>
              var ids' := Ids(RemoveAt(bookings, k));
              Increasing(ids') && AllBelow(ids', next) && bookings[k].id !in ids'
  {
    var bookings' := RemoveAt(bookings, k);
    assert Links(bookings') == RemoveAt(Links(bookings), k);
    assert Ids(bookings') == RemoveAt(Ids(bookings), k);
    if Consistent(rooms, Links(bookings)) {
      CancellingKeepsConsistent(rooms, Links(bookings), k);
    }
    if Increasing(Ids(bookings)) && AllBelow(Ids(bookings), next) {
      RemovingKeepsOrder(Ids(bookings), k, next);
      IncreasingIdsAreUnique(Ids(bookings), k);
    }
  }

  /**
   * The corrected restart: a registry with distinct numbers and a ledger of
   * comma-free names, every booking holding a room and ids in order below
   * the counter, are saved and loaded back unchanged, and the counter the
   * constructor recovers (one past the last id) is above every reloaded id
   * and no further than the counter before the restart.
   */
  lemma RestartRestoresState(rooms: seq<Room>, bookings: seq<Booking>, next: int32)
    requires DistinctNumbers(rooms) && LinksInRange(bookings, rooms)
    requires forall k :: 0 <= k < |bookings| ==> bookings[k].room.Some? && ',' !in bookings[k].customer
    requires Increasing(Ids(bookings)) && AllBelow(Ids(bookings), next)
    ensures LoadedRooms(RoomLines(rooms)) == rooms
    ensures BookingLines(bookings, rooms).Some?
    ensures LoadedBookings(BookingLines(bookings, rooms).value, LoadedRooms(RoomLines(rooms))) == bookings
    ensures AllBelow(Ids(bookings), RecoveredCounter(Ids(bookings), FIRST_BOOKING_ID))
    ensures |bookings| > 0 ==> RecoveredCounter(Ids(bookings), FIRST_BOOKING_ID) <= next
  {
    RoomStoreRoundTrip(rooms);
    BookingStoreRoundTrip(bookings, rooms);
    var ids := Ids(bookings);
    if |ids| > 0 {
      assert ids[|ids| - 1] < next;
    }
    RecoveredCounterIsFresh(ids, FIRST_BOOKING_ID);
  }

  /**
   * As written, `loadBookings` never assigns `nextBookingId`, which keeps its
   * initial value 1000 after a reload. Every id a fresh store issues is at
   * least 1000 until the counter wraps, so any saved ledger that is not empty
   * holds such an id. Saved and reloaded, it comes back as it was, but the
   * counter 1000 is not above every loaded id: the next booking can reuse an
   * id that is already in the ledger.
   */
  lemma ReloadReissuesId(saved: seq<Room>, ledger: seq<Booking>)
    requires DistinctNumbers(saved) && LinksInRange(ledger, saved)
    requires forall k :: 0 <= k < |ledger| ==> ledger[k].room.Some? && ',' !in ledger[k].customer
    requires exists k :: 0 <= k < |ledger| && ledger[k].id >= FIRST_BOOKING_ID
    ensures LoadedRooms(RoomLines(saved)) == saved
    ensures
      var loaded := LoadedBookings(BookingLines(ledger, saved).value, LoadedRooms(RoomLines(saved)));
      loaded == ledger && !AllBelow(Ids(loaded), FIRST_BOOKING_ID)
  {
    RoomStoreRoundTrip(saved);
    BookingStoreRoundTrip(ledger, saved);
    var k :| 0 <= k < |ledger| && ledger[k].id >= FIRST_BOOKING_ID;
    assert Ids(ledger)[k] >= FIRST_BOOKING_ID;
  }
}
