/**
 * IntegratedApp's text persistence: `Room.toString`/`fromString`,
 * `Booking.toString`/`fromString` (which re-links a booking to a registry
 * room by number), and the line files `rooms.txt` and `bookings.txt` as
 * sequences of lines.
 */
module IntegratedCodec {
  import opened Wrappers
  import opened JavaText
  import opened Sequences
  import opened Registry

  /**
   * IntegratedApp's `Booking`. The room reference is an index into the
   * registry; None stands for the `null` that `fromString` leaves when no
   * registry room has the recorded number.
   */
  datatype Booking = Booking(id: int32, customer: string, room: Option<nat>)

  /** Every non-null room reference points into the registry. */
  predicate LinksInRange(bookings: seq<Booking>, rooms: seq<Room>) {
    forall k :: 0 <= k < |bookings| && bookings[k].room.Some? ==> bookings[k].room.value < |rooms|
  }

  function FlagText(booked: bool): string {
    if booked then "Booked" else "Available"
  }

  /** `Room.toString()`: `number,TYPE,Booked` or `number,TYPE,Available`. */
  function RoomToString(r: Room): string {
    ShowInt(r.number as int) + "," + TypeName(r.kind) + "," + FlagText(r.booked)
  }

  /**
   * `Room.fromString(line)`: the first three comma-separated fields are the
   * number, the type name and the flag, booked exactly when the flag reads
   * `Booked`. None where Java throws: fewer than three fields, a bad number or
   * an unknown type name.
   */
  function RoomFromString(line: string): Option<Room> {
    var parts := JavaSplit(line, ',');
    if |parts| < 3 then None
    else match (ParseInt(parts[0]), ParseRoomType(parts[1]))
      case (Some(n), Some(t)) => Some(Room(n, t, parts[2] == "Booked"))
      case _ => None
  }

  /** A room read back from its own line is the same room: number, type and flag. */
  lemma RoomRoundTrip(r: Room)
    ensures RoomFromString(RoomToString(r)) == Some(r)
  {
    var a, b, c := ShowInt(r.number as int), TypeName(r.kind), FlagText(r.booked);
    assert ',' !in b && ',' !in c && c != "" by {
      match r.kind
      case STANDARD => assert b == "STANDARD";
      case DELUXE => assert b == "DELUXE";
      case SUITE => assert b == "SUITE";
    }
    SplitThreeFields(a, b, c);
    ParseShowInt(r.number);
  }

  /** `Booking.toString()`: `id,name,roomNumber`; None where the room is null and Java throws. */
  function BookingToString(b: Booking, rooms: seq<Room>): (line: Option<string>)
    requires b.room.Some? ==> b.room.value < |rooms|
    ensures line.Some? <==> b.room.Some?
  {
    match b.room
    case None => None
    case Some(i) => Some(ShowInt(b.id as int) + "," + b.customer + "," + ShowInt(rooms[i].number as int))
  }

  /**
   * `Booking.fromString(line, rooms)`: the id, the name, and the first room of
   * the registry whose number is the third field (None, Java's null, if there
   * is none). None where Java throws.
   */
  function BookingFromString(line: string, rooms: seq<Room>): (r: Option<Booking>)
    ensures r.Some? ==> r.value.room.Some? ==> r.value.room.value < |rooms|
  {
    var parts := JavaSplit(line, ',');
    if |parts| < 3 then None
    else match (ParseInt(parts[0]), ParseInt(parts[2]))
      case (Some(id), Some(number)) => Some(Booking(id, parts[1], FirstIndex(Numbers(rooms), number)))
      case _ => None
  }

  /**
   * A booking read back from its own line keeps its id and name, and links to
   * the first registry room carrying its room's number: its own room when room
   * numbers are distinct.
   */
  lemma BookingRoundTrip(b: Booking, rooms: seq<Room>)
    requires b.room.Some? && b.room.value < |rooms|
    requires ',' !in b.customer
    ensures BookingToString(b, rooms).Some?
    ensures BookingFromString(BookingToString(b, rooms).value, rooms)
         == Some(Booking(b.id, b.customer, FirstIndex(Numbers(rooms), rooms[b.room.value].number)))
    ensures DistinctNumbers(rooms) ==> BookingFromString(BookingToString(b, rooms).value, rooms) == Some(b)
  {
    var i := b.room.value;
    SplitThreeFields(ShowInt(b.id as int), b.customer, ShowInt(rooms[i].number as int));
    ParseShowInt(b.id);
    ParseShowInt(rooms[i].number);
    if DistinctNumbers(rooms) {
      LookupByOwnNumber(rooms, i);
    }
  }

  /** The for-each scan in `Booking.fromString`: the first registry room with the number, or None. */
  method FindRoom(rooms: seq<Room>, number: int32) returns (matched: Option<nat>)
    ensures matched == FirstIndex(Numbers(rooms), number)
  {
    matched := None;
    var k := 0;
    while k < |rooms|
      invariant 0 <= k <= |rooms|
      invariant forall j :: 0 <= j < k ==> rooms[j].number != number
    {
      if rooms[k].number == number {
        matched := Some(k);
        break;
      }
      k := k + 1;
    }
  }

  /** `Booking.fromString` as the source runs it: the fields first, then the scan of the registry. */
  method ParseBooking(line: string, rooms: seq<Room>) returns (b: Option<Booking>)
    ensures b == BookingFromString(line, rooms)
  {
    var parts := JavaSplit(line, ',');
    if |parts| < 3 {
      return None;
    }
    var id := ParseInt(parts[0]);
    var name := parts[1];
    var number := ParseInt(parts[2]);
    if id.None? || number.None? {
      return None;
    }
    var matched := FindRoom(rooms, number.value);
    b := Some(Booking(id.value, name, matched));
  }

  /** What `saveRooms` writes to `rooms.txt`: one line per room, in registry order. */
  function RoomLines(rooms: seq<Room>): (lines: seq<string>)
    ensures |lines| == |rooms|
  {
    if |rooms| == 0 then [] else [RoomToString(rooms[0])] + RoomLines(rooms[1..])
  }

  /**
   * What `loadRooms` adds from the lines of `rooms.txt`: each line's room in
   * turn, up to the first line `Room.fromString` rejects, where the exception
   * ends the loading.
   */
  function LoadedRooms(lines: seq<string>): (rooms: seq<Room>)
    ensures |rooms| <= |lines|
  {
    if |lines| == 0 then []
    else match RoomFromString(lines[0])
      case None => []
      case Some(r) => [r] + LoadedRooms(lines[1..])
  }

  /** A first line that reads as a room contributes that room, and loading goes on. */
  lemma LoadedRoomsStep(lines: seq<string>, r: Room)
    requires |lines| > 0 && RoomFromString(lines[0]) == Some(r)
    ensures LoadedRooms(lines) == [r] + LoadedRooms(lines[1..])
  {
  }

  /** Saving and reloading the registry gives back the same rooms, flags included. */
  lemma {:induction false} RoomStoreRoundTrip(rooms: seq<Room>)
    ensures LoadedRooms(RoomLines(rooms)) == rooms
  {
    if |rooms| > 0 {
      var lines := RoomLines(rooms);
      assert lines[0] == RoomToString(rooms[0]) && lines[1..] == RoomLines(rooms[1..]);
      RoomRoundTrip(rooms[0]);
      LoadedRoomsStep(lines, rooms[0]);
      RoomStoreRoundTrip(rooms[1..]);
      assert [rooms[0]] + rooms[1..] == rooms;
    }
  }

  /** The `loadRooms` read loop. */
  method ReadRooms(lines: seq<string>) returns (rooms: seq<Room>)
    ensures rooms == LoadedRooms(lines)
  {
    rooms := [];
    var k := 0;
    while k < |lines|
      invariant 0 <= k <= |lines|
      invariant LoadedRooms(lines) == rooms + LoadedRooms(lines[k..])
    {
      assert lines[k..][1..] == lines[k + 1..];
      var r := RoomFromString(lines[k]);
      if r.None? {
        return;
      }
      rooms := rooms + [r.value];
      k := k + 1;
    }
  }

  /**
   * What `saveBookings` writes to `bookings.txt`: one line per booking, in
   * ledger order; None where a booking's room is null and `toString` throws.
   */
  function BookingLines(bookings: seq<Booking>, rooms: seq<Room>): (lines: Option<seq<string>>)
    requires LinksInRange(bookings, rooms)
    ensures lines.Some? <==> forall k :: 0 <= k < |bookings| ==> bookings[k].room.Some?
    ensures lines.Some? ==> |lines.value| == |bookings|
  {
    if |bookings| == 0 then Some([])
    else match (BookingToString(bookings[0], rooms), BookingLines(bookings[1..], rooms))
      case (Some(line), Some(rest)) => Some([line] + rest)
      case _ => None
  }

  /**
   * What `loadBookings` adds from the lines of `bookings.txt`, re-linked
   * against the loaded registry, up to the first line it rejects.
   */
  function LoadedBookings(lines: seq<string>, rooms: seq<Room>): (bookings: seq<Booking>)
    ensures LinksInRange(bookings, rooms)
  {
    if |lines| == 0 then []
    else match BookingFromString(lines[0], rooms)
      case None => []
      case Some(b) => [b] + LoadedBookings(lines[1..], rooms)
  }

  lemma BookingLinesStep(bookings: seq<Booking>, rooms: seq<Room>)
    requires |bookings| > 0 && LinksInRange(bookings, rooms)
    requires BookingToString(bookings[0], rooms).Some? && BookingLines(bookings[1..], rooms).Some?
    ensures BookingLines(bookings, rooms)
         == Some([BookingToString(bookings[0], rooms).value] + BookingLines(bookings[1..], rooms).value)
  {
  }

  /** A first line that reads as a booking contributes that booking, and loading goes on. */
  lemma LoadedBookingsStep(lines: seq<string>, rooms: seq<Room>, b: Booking)
    requires |lines| > 0 && BookingFromString(lines[0], rooms) == Some(b)
    ensures LoadedBookings(lines, rooms) == [b] + LoadedBookings(lines[1..], rooms)
  {
  }

  /**
   * Saving and reloading the ledger against the same registry gives back the
   * same bookings, each re-linked to its own room, when room numbers are
   * distinct, every booking has a room, and no name holds a comma.
   */
  lemma {:induction false} BookingStoreRoundTrip(bookings: seq<Booking>, rooms: seq<Room>)
    requires LinksInRange(bookings, rooms) && DistinctNumbers(rooms)
    requires forall k :: 0 <= k < |bookings| ==> bookings[k].room.Some? && ',' !in bookings[k].customer
    ensures BookingLines(bookings, rooms).Some?
    ensures LoadedBookings(BookingLines(bookings, rooms).value, rooms) == bookings
  {
    if |bookings| > 0 {
      BookingStoreRoundTrip(bookings[1..], rooms);
      var tail := BookingLines(bookings[1..], rooms).value;
      var line := BookingToString(bookings[0], rooms).value;
      assert BookingLines(bookings, rooms) == Some([line] + tail) by {
        BookingLinesStep(bookings, rooms);
      }
      assert LoadedBookings([line] + tail, rooms) == [bookings[0]] + bookings[1..] by {
        BookingRoundTrip(bookings[0], rooms);
        LoadedBookingsStep([line] + tail, rooms, bookings[0]);
        assert ([line] + tail)[1..] == tail;
      }
      assert [bookings[0]] + bookings[1..] == bookings;
    }
  }

  /** The `loadBookings` read loop. */
  method ReadBookings(lines: seq<string>, rooms: seq<Room>) returns (bookings: seq<Booking>)
    ensures bookings == LoadedBookings(lines, rooms)
  {
    bookings := [];
    var k := 0;
    while k < |lines|
      invariant 0 <= k <= |lines|
      invariant LoadedBookings(lines, rooms) == bookings + LoadedBookings(lines[k..], rooms)
    {
      assert lines[k..][1..] == lines[k + 1..];
      var b := ParseBooking(lines[k], rooms);
      if b.None? {
        return;
      }
      bookings := bookings + [b.value];
      k := k + 1;
    }
  }
}
