/**
 * The room registry shared by both versions of `HotelSystem`: the `Room`
 * record, its `RoomType`, and the scans that `bookRoom` and
 * `showAvailableRooms` make over the registry in list order.
 */
module Registry {
  import opened Wrappers
  import opened JavaText
  import opened Sequences

  datatype RoomType = STANDARD | DELUXE | SUITE

  /** A room: its number, its type, and the `isBooked` flag. */
  datatype Room = Room(number: int32, kind: RoomType, booked: bool)

  /** `RoomType.toString()`: the name of the enum constant. */
  function TypeName(t: RoomType): string {
    match t
    case STANDARD => "STANDARD"
    case DELUXE => "DELUXE"
    case SUITE => "SUITE"
  }

  /** `RoomType.valueOf(s)`; None where Java throws IllegalArgumentException. */
  function ParseRoomType(s: string): (r: Option<RoomType>)
    ensures r.Some? ==> TypeName(r.value) == s
    ensures forall t :: TypeName(t) == s ==> r == Some(t)
  {
    if s == "STANDARD" then Some(STANDARD)
    else if s == "DELUXE" then Some(DELUXE)
    else if s == "SUITE" then Some(SUITE)
    else None
  }

  /** The test in `bookRoom`'s loop: `r.getType() == type && !r.isBooked()`. */
  predicate Bookable(r: Room, t: RoomType) {
    r.kind == t && !r.booked
  }

  /** Index of the room `bookRoom` takes: the earliest in list order that is bookable for `t`. */
  function FirstFree(rooms: seq<Room>, t: RoomType): (r: Option<nat>)
    ensures r.Some? ==> r.value < |rooms| && Bookable(rooms[r.value], t)
    ensures r.Some? ==> forall j :: 0 <= j < r.value ==> !Bookable(rooms[j], t)
    ensures r.None? ==> forall j :: 0 <= j < |rooms| ==> !Bookable(rooms[j], t)
  {
    if |rooms| == 0 then None
    else if Bookable(rooms[0], t) then Some(0)
    else match FirstFree(rooms[1..], t)
      case None => None
      case Some(k) => Some(k + 1)
  }

  /** The room numbers, in registry order. */
  function Numbers(rooms: seq<Room>): (ns: seq<int32>)
    ensures |ns| == |rooms|
    ensures forall k :: 0 <= k < |rooms| ==> ns[k] == rooms[k].number
  {
    seq(|rooms|, k requires 0 <= k < |rooms| => rooms[k].number)
  }

  predicate DistinctNumbers(rooms: seq<Room>) {
    forall a, b :: 0 <= a < b < |rooms| ==> rooms[a].number != rooms[b].number
  }

  /** With distinct numbers, looking a room up by its number finds that room. */
  lemma LookupByOwnNumber(rooms: seq<Room>, i: nat)
    requires DistinctNumbers(rooms) && i < |rooms|
    ensures FirstIndex(Numbers(rooms), rooms[i].number) == Some(i)
  {
    assert Numbers(rooms)[i] == rooms[i].number;
  }

  /** The unbooked rooms, in registry order: what `showAvailableRooms` lists. */
  function Available(rooms: seq<Room>): (avail: seq<Room>)
    ensures |avail| <= |rooms|
    ensures forall r :: r in avail <==> r in rooms && !r.booked
  {
    if |rooms| == 0 then []
    else (if rooms[0].booked then [] else [rooms[0]]) + Available(rooms[1..])
  }

  /** Listing keeps registry order: the listing of a split registry is the two listings in turn. */
  lemma {:induction false} AvailableKeepsOrder(a: seq<Room>, b: seq<Room>)
    ensures Available(a + b) == Available(a) + Available(b)
  {
    if |a| == 0 {
      assert a + b == b;
    } else {
      assert (a + b)[1..] == a[1..] + b;
      AvailableKeepsOrder(a[1..], b);
    }
  }

  /** One more room of the scan adds that room to the listing when it is unbooked. */
  lemma AvailableStep(rooms: seq<Room>, i: nat)
    requires i < |rooms|
    ensures Available(rooms[..i + 1]) == Available(rooms[..i]) + (if rooms[i].booked then [] else [rooms[i]])
  {
    assert rooms[..i + 1] == rooms[..i] + [rooms[i]];
    AvailableKeepsOrder(rooms[..i], [rooms[i]]);
    assert Available([rooms[i]]) == if rooms[i].booked then [] else [rooms[i]];
  }

  /** The listing is empty exactly when every room is booked. */
  lemma NoneAvailable(rooms: seq<Room>)
    ensures Available(rooms) == [] <==> forall i :: 0 <= i < |rooms| ==> rooms[i].booked
  {
    if Available(rooms) != [] {
      var r := Available(rooms)[0];
      assert r in Available(rooms);
    } else {
      forall i | 0 <= i < |rooms| ensures rooms[i].booked {
        assert rooms[i] in rooms;
      }
    }
  }

  /** `setBooked(flag)` on the room at index `i`, every other room untouched. */
  function SetBooked(rooms: seq<Room>, i: nat, flag: bool): (r: seq<Room>)
    requires i < |rooms|
    ensures |r| == |rooms| && r[i].booked == flag
    ensures r[i].number == rooms[i].number && r[i].kind == rooms[i].kind
    ensures forall j :: 0 <= j < |rooms| && j != i ==> r[j] == rooms[j]
  {
    rooms[i := rooms[i].(booked := flag)]
  }
}
