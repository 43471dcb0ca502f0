/**
 * HotelReservationSystem's `HotelSystem`: the same registry and ledger as
 * IntegratedApp's, plus a price table and an amount paid per booking,
 * persisted as two serialized lists (`rooms.dat`, `bookings.dat`) from which
 * the id counter is recovered.
 */
module HotelReservation {
  import opened Wrappers
  import opened JavaText
  import opened Sequences
  import opened Registry
  import opened Ledger

  /** The registry `loadRooms` seeds when `rooms.dat` does not exist. */
  const SEEDED_ROOMS: seq<Room> :=
    [Room(101, STANDARD, false), Room(102, DELUXE, false), Room(103, SUITE, false), Room(104, STANDARD, false)]

  /** A booking: its id, the customer, the index of its registry room, and the amount paid. */
  datatype Booking = Booking(id: int32, customer: string, room: nat, amountPaid: int)

  /**
   * A booking as `bookings.dat` holds it. Serialization writes the room object
   * itself, so the record carries a copy of the room, not a registry entry.
   */
  datatype StoredBooking = StoredBooking(id: int32, customer: string, room: Room, amountPaid: int)

  /** `getPriceForRoom(type)`. */
  function PriceForRoom(t: RoomType): int {
    match t
    case STANDARD => 2000
    case DELUXE => 3500
    case SUITE => 5000
  }

  /** The price table: every type has a positive price and no two types share one. */
  lemma PriceTable()
    ensures PriceForRoom(STANDARD) == 2000 && PriceForRoom(DELUXE) == 3500 && PriceForRoom(SUITE) == 5000
    ensures forall a, b :: PriceForRoom(a) == PriceForRoom(b) ==> a == b
  {
  }

  function Links(bookings: seq<Booking>): seq<Option<nat>> {
    seq(|bookings|, k requires 0 <= k < |bookings| => Some(bookings[k].room))
  }

  function Ids(bookings: seq<Booking>): seq<int32> {
    seq(|bookings|, k requires 0 <= k < |bookings| => bookings[k].id)
  }

  function StoredIds(stored: seq<StoredBooking>): seq<int32> {
    seq(|stored|, k requires 0 <= k < |stored| => stored[k].id)
  }

  predicate LinksInRange(bookings: seq<Booking>, rooms: seq<Room>) {
    forall k :: 0 <= k < |bookings| ==> bookings[k].room < |rooms|
  }

  /** `Room.toString()` in this version: `Room 101 (STANDARD) - Available`. */
  function RoomText(r: Room): string {
    "Room " + ShowInt(r.number as int) + " (" + TypeName(r.kind) + ") - " + (if r.booked then "Booked" else "Available")
  }

  /** The lines `showAvailableRooms` prints for the listed rooms: each room's text, in order. */
  function ListingLines(listed: seq<Room>): seq<string> {
    seq(|listed|, k requires 0 <= k < |listed| => RoomText(listed[k]))
  }

  lemma ListingLinesAppend(listed: seq<Room>, r: Room)
    ensures ListingLines(listed + [r]) == ListingLines(listed) + [RoomText(r)]
  {
  }

  /** `Booking.toString()`, the amount printed as Java prints a whole `double`. */
  function BookingText(b: Booking, room: Room): string {
    "Booking ID: " + ShowInt(b.id as int) + "\nCustomer: " + b.customer + "\nRoom: " + RoomText(room)
      + "\nAmount Paid: Rs. " + ShowInt(b.amountPaid) + ".0"
  }

  /** One block of `viewBookings`: a rule, then the booking with its room as it is now. */
  function Block(b: Booking, room: Room): string {
    "--------------------\n" + BookingText(b, room)
  }

  /** What `saveBookings` writes: each booking with a copy of its room as it is now. */
  function Stored(bookings: seq<Booking>, rooms: seq<Room>): (stored: seq<StoredBooking>)
    requires LinksInRange(bookings, rooms)
    ensures StoredIds(stored) == Ids(bookings)
  {
    seq(|bookings|, k requires 0 <= k < |bookings| =>
      StoredBooking(bookings[k].id, bookings[k].customer, rooms[bookings[k].room], bookings[k].amountPaid))
  }

  /**
   * Loaded bookings re-linked to the registry: each takes the first registry
   * room with its room's number, and a booking whose number is in no registry
   * room is dropped. (The source keeps the loaded copy instead; see
   * `CancelLoadedAsWritten`.)
   */
  function Relink(stored: seq<StoredBooking>, rooms: seq<Room>): (bookings: seq<Booking>)
    ensures LinksInRange(bookings, rooms)
    ensures |bookings| <= |stored|
  {
    if |stored| == 0 then []
    else
      var s := stored[0];
      var rest := Relink(stored[1..], rooms);
      match FirstIndex(Numbers(rooms), s.room.number)
      case None => rest
      case Some(i) => [Booking(s.id, s.customer, i, s.amountPaid)] + rest
  }

  /**
   * Saving the ledger and re-linking it against the same registry gives back
   * the same bookings, each linked to its own room, when room numbers are
   * distinct.
   */
  lemma {:induction false} RelinkRestoresLedger(bookings: seq<Booking>, rooms: seq<Room>)
    requires LinksInRange(bookings, rooms) && DistinctNumbers(rooms)
    ensures Relink(Stored(bookings, rooms), rooms) == bookings
  {
    if |bookings| > 0 {
      var stored := Stored(bookings, rooms);
      assert stored[1..] == Stored(bookings[1..], rooms);
      LookupByOwnNumber(rooms, bookings[0].room);
      RelinkRestoresLedger(bookings[1..], rooms);
    }
  }

  /**
   * `cancelBooking(id)` as written, after a reload: the loaded booking's room
   * is its own copy, so `getRoom().setBooked(false)` leaves the registry as it
   * was; only the booking is removed.
   */
  function CancelLoadedAsWritten(rooms: seq<Room>, loaded: seq<StoredBooking>, id: int32)
    : (r: (seq<Room>, seq<StoredBooking>))
    ensures r.0 == rooms
  {
    match FirstIndex(StoredIds(loaded), id)
    case None => (rooms, loaded)
    case Some(k) => (rooms, RemoveAt(loaded, k))
  }

  /**
   * Book the deluxe room of a fresh store, restart, and cancel that booking:
   * as written, the ledger empties but room 102 stays booked, and no deluxe
   * room can be booked again.
   */
  lemma ReloadedCancelKeepsRoomBooked()
    ensures
      var rooms := SetBooked(SEEDED_ROOMS, 1, true);
      var saved := Stored([Booking(1000, "Alice", 1, 3500)], rooms);
      var after := CancelLoadedAsWritten(rooms, saved, 1000);
      && after.1 == []
      && after.0[1].booked
      && FirstFree(after.0, DELUXE).None?
      && !Consistent(after.0, [])
  {
    var rooms := SetBooked(SEEDED_ROOMS, 1, true);
    var saved := Stored([Booking(1000, "Alice", 1, 3500)], rooms);
    assert StoredIds(saved) == [1000];
    assert RefCount([], 1) == 0;
  }

  class HotelSystem {
    var rooms: seq<Room>
    var bookings: seq<Booking>
    var nextBookingId: int32

    /** A booking's room is an object of the registry. */
    predicate Valid()
      reads this
    {
      LinksInRange(bookings, rooms)
    }

    /** Every booked room is held by exactly one booking, and every booking holds a booked room. */
    predicate RoomsMatchBookings()
      reads this
    {
      Consistent(rooms, Links(bookings))
    }

    /** Ids increase along the ledger and all lie below `nextBookingId`. */
    predicate IdsInOrder()
      reads this
    {
      Increasing(Ids(bookings)) && AllBelow(Ids(bookings), nextBookingId)
    }

    /**
     * `new HotelSystem()`: `loadRooms` then `loadBookings`, from the two
     * stored lists (None where the file does not exist). The counter becomes
     * one past the id of the last stored booking. Loaded bookings are
     * re-linked to the registry (see `Relink`).
     */
    constructor (storedRooms: Option<seq<Room>>, storedBookings: Option<seq<StoredBooking>>)
      ensures Valid()
      ensures rooms == if storedRooms.None? then SEEDED_ROOMS else storedRooms.value
      ensures bookings == if storedBookings.None? then [] else Relink(storedBookings.value, rooms)
      ensures nextBookingId == if storedBookings.None? then FIRST_BOOKING_ID
                               else RecoveredCounter(StoredIds(storedBookings.value), FIRST_BOOKING_ID)
    {
      var loadedRooms := if storedRooms.None? then SEEDED_ROOMS else storedRooms.value;
      var loadedBookings: seq<Booking> := [];
      var next := FIRST_BOOKING_ID;
      if storedBookings.Some? {
        var stored := storedBookings.value;
        loadedBookings := Relink(stored, loadedRooms);
        if |stored| > 0 {
          next := Increment(stored[|stored| - 1].id);
        }
      }
      rooms := loadedRooms;
      bookings := loadedBookings;
      nextBookingId := next;
    }

    /** `showAvailableRooms`: each unbooked room in registry order, or the notice that there is none. */
    method ShowAvailableRooms() returns (lines: seq<string>)
      ensures Available(rooms) == [] ==> lines == ["No available rooms."]
      ensures Available(rooms) != [] ==>
        |lines| == |Available(rooms)| && forall k :: 0 <= k < |lines| ==> lines[k] == RoomText(Available(rooms)[k])
    {
      var found := false;
      lines := [];
      ghost var listed: seq<Room> := [];
      for i := 0 to |rooms|
        invariant listed == Available(rooms[..i])
        invariant lines == ListingLines(listed)
        invariant found <==> |lines| > 0
      {
        AvailableStep(rooms, i);
        if !rooms[i].booked {
          ListingLinesAppend(listed, rooms[i]);
          lines := lines + [RoomText(rooms[i])];
          listed := listed + [rooms[i]];
          found := true;
        }
      }
      assert rooms[..|rooms|] == rooms;
      if !found {
        lines := ["No available rooms."];
      }
    }

    /**
     * `bookRoom(name, type)`: takes the earliest unbooked room of the type,
     * marks it booked, charges the type's price and appends a booking with the
     * next id, which it returns; with no such room it returns null and
     * nothing changes.
     */
    method BookRoom(name: string, t: RoomType) returns (booking: Option<Booking>)
      requires Valid()
      modifies this
      ensures Valid()
      ensures FirstFree(old(rooms), t).None? ==>
        booking.None? && rooms == old(rooms) && bookings == old(bookings) && nextBookingId == old(nextBookingId)
      ensures FirstFree(old(rooms), t).Some? ==>
        var i := FirstFree(old(rooms), t).value;
        && booking == Some(Booking(old(nextBookingId), name, i, PriceForRoom(t)))
        && rooms == SetBooked(old(rooms), i, true)
        && bookings == old(bookings) + [booking.value]
        && nextBookingId == Increment(old(nextBookingId))
      ensures booking.Some? ==> rooms[booking.value.room].kind == t && rooms[booking.value.room].booked
      ensures old(RoomsMatchBookings()) ==> RoomsMatchBookings()
      ensures old(IdsInOrder()) && old(nextBookingId) as int < INT_MAX ==> IdsInOrder()
    {
      for i := 0 to |rooms|
        invariant rooms == old(rooms) && bookings == old(bookings) && nextBookingId == old(nextBookingId)
        invariant forall j :: 0 <= j < i ==> !Bookable(rooms[j], t)
      {
        if rooms[i].kind == t && !rooms[i].booked {
          BookingKeepsInvariants(rooms, bookings, Booking(nextBookingId, name, i, PriceForRoom(t)));
          rooms := SetBooked(rooms, i, true);
          var price := PriceForRoom(t);
          var b := Booking(nextBookingId, name, i, price);
          nextBookingId := Increment(nextBookingId);
          bookings := bookings + [b];
          return Some(b);
        }
      }
      return None;
    }

    /**
     * `cancelBooking(id)`: removes the first booking with the id and unbooks
     * its room; an unknown id changes nothing. Returns whether it found one.
     */
    method CancelBooking(id: int32) returns (found: bool)
      requires Valid()
      modifies this
      ensures Valid()
      ensures nextBookingId == old(nextBookingId)
      ensures FirstIndex(Ids(old(bookings)), id).None? ==>
        !found && rooms == old(rooms) && bookings == old(bookings)
      ensures FirstIndex(Ids(old(bookings)), id).Some? ==>
        var k := FirstIndex(Ids(old(bookings)), id).value;
        && found
        && rooms == SetBooked(old(rooms), old(bookings)[k].room, false)
        && bookings == RemoveAt(old(bookings), k)
      ensures old(RoomsMatchBookings()) ==> RoomsMatchBookings()
      ensures old(IdsInOrder()) ==> IdsInOrder()
      ensures old(IdsInOrder()) && found ==> id !in Ids(bookings)
    {
      var k := 0;
      while k < |bookings|
        invariant 0 <= k <= |bookings|
        invariant rooms == old(rooms) && bookings == old(bookings) && nextBookingId == old(nextBookingId)
        invariant forall j :: 0 <= j < k ==> bookings[j].id != id
      {
        var b := bookings[k];
        if b.id == id {
          assert Ids(bookings)[k] == id;
          assert FirstIndex(Ids(bookings), id) == Some(k);
          CancellingKeepsInvariants(rooms, bookings, k, nextBookingId);
          rooms := SetBooked(rooms, b.room, false);
          bookings := RemoveAt(bookings, k);
          return true;
        }
        k := k + 1;
      }
      assert id !in Ids(bookings);
      return false;
    }

    /** `viewBookings`: each booking with its room as it is now, or the notice that there is none. */
    method ViewBookings() returns (lines: seq<string>)
      requires Valid()
      ensures bookings == [] ==> lines == ["No bookings yet."]
      ensures bookings != [] ==>
        |lines| == |bookings| && forall k :: 0 <= k < |bookings| ==> lines[k] == Block(bookings[k], rooms[bookings[k].room])
    {
      if |bookings| == 0 {
        return ["No bookings yet."];
      }
      ghost var bs, rs := bookings, rooms;
      ghost var blocks := seq(|bs|, j requires 0 <= j < |bs| => Block(bs[j], rs[bs[j].room]));
      lines := [];
      for k := 0 to |bookings|
        invariant lines == blocks[..k]
      {
        var b := bookings[k];
        PrefixStep(blocks, k);
        lines := lines + [Block(b, rooms[b.room])];
      }
      assert blocks[..|bookings|] == blocks;
    }
  }

  /** Booking a free room under the next id keeps the registry and ledger in agreement and the ids in order. */
  lemma BookingKeepsInvariants(rooms: seq<Room>, bookings: seq<Booking>, b: Booking)
    requires b.room < |rooms| && !rooms[b.room].booked
    ensures Consistent(rooms, Links(bookings)) ==>
              Consistent(SetBooked(rooms, b.room, true), Links(bookings + [b]))
    ensures Increasing(Ids(bookings)) && AllBelow(Ids(bookings), b.id) && b.id as int < INT_MAX ==>
              Increasing(Ids(bookings + [b])) && AllBelow(Ids(bookings + [b]), Increment(b.id))
  {
    assert Links(bookings + [b]) == Links(bookings) + [Some(b.room)];
    assert Ids(bookings + [b]) == Ids(bookings) + [b.id];
    if Consistent(rooms, Links(bookings)) {
      BookingKeepsConsistent(rooms, Links(bookings), b.room);
    }
    if Increasing(Ids(bookings)) && AllBelow(Ids(bookings), b.id) && b.id as int < INT_MAX {
      IssuingKeepsOrder(Ids(bookings), b.id);
    }
  }

  /**
   * Removing the booking at `k` and unbooking its room keeps the registry and
   * ledger in agreement and the ids in order, and its id is then gone.
   */
  lemma CancellingKeepsInvariants(rooms: seq<Room>, bookings: seq<Booking>, k: nat, next: int32)
    requires k < |bookings| && bookings[k].room < |rooms|
    ensures Consistent(rooms, Links(bookings)) ==>
              Consistent(SetBooked(rooms, bookings[k].room, false), Links(RemoveAt(bookings, k)))
    ensures Increasing(Ids(bookings)) && AllBelow(Ids(bookings), next) ==>
              var ids' := Ids(RemoveAt(bookings, k));
              Increasing(ids') && AllBelow(ids', next) && bookings[k].id !in ids'
  {
    var bookings' := RemoveAt(bookings, k);
    assert Links(bookings') == RemoveAt(Links(bookings), k);
    assert Ids(bookings') == RemoveAt(Ids(bookings), k);
    if Consistent(rooms, Links(bookings)) {
      CancellingKeepsConsistent(rooms, Links(bookings), k);
    }
    if Increasing(Ids(bookings)) && AllBelow(Ids(bookings), next) {
      RemovingKeepsOrder(Ids(bookings), k, next);
      IncreasingIdsAreUnique(Ids(bookings), k);
    }
  }

  /**
   * A restart after any run: the registry and the ledger written by this
   * system load back as they were, and when ids were in order the recovered
   * counter is above every loaded id.
   */
  lemma RestartRestoresState(rooms: seq<Room>, bookings: seq<Booking>, next: int32)
    requires LinksInRange(bookings, rooms) && DistinctNumbers(rooms)
    requires Increasing(Ids(bookings)) && AllBelow(Ids(bookings), next)
    ensures Relink(Stored(bookings, rooms), rooms) == bookings
    ensures StoredIds(Stored(bookings, rooms)) == Ids(bookings)
    ensures AllBelow(Ids(bookings), RecoveredCounter(StoredIds(Stored(bookings, rooms)), FIRST_BOOKING_ID))
  {
    RelinkRestoresLedger(bookings, rooms);
    assert StoredIds(Stored(bookings, rooms)) == Ids(bookings);
    RecoveredCounterIsFresh(Ids(bookings), FIRST_BOOKING_ID);
  }

  /**
   * The run through a fresh store: Alice books the deluxe room as booking
   * 1000 for 3500; a second deluxe booking finds nothing; cancelling 1000
   * frees the room and empties the ledger; cancelling it again finds nothing.
   */
  method FreshStoreRun() {
    var hotel := new HotelSystem(None, None);
    assert hotel.RoomsMatchBookings() && hotel.IdsInOrder();
    assert FirstFree(hotel.rooms, DELUXE) == Some(1);
    var first := hotel.BookRoom("Alice", DELUXE);
    assert first == Some(Booking(1000, "Alice", 1, 3500));
    assert hotel.rooms[1].booked;
    assert FirstFree(hotel.rooms, DELUXE).None?;
    var second := hotel.BookRoom("Bob", DELUXE);
    assert second.None?;
    assert Ids(hotel.bookings) == [1000];
    assert FirstIndex(Ids(hotel.bookings), 1000) == Some(0);
    var cancelled := hotel.CancelBooking(1000);
    assert cancelled && hotel.bookings == [] && !hotel.rooms[1].booked;
    var again := hotel.CancelBooking(1000);
    assert !again;
  }
}
