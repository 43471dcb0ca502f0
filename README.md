# Hotel reservation state, in Dafny

This project models the hotel reservation core of a small Java application
that exists in two versions, `IntegratedApp.java` and
`HotelReservationSystem.java`, together with the comma-separated line codec
and the keyword chat responder that sit beside it in `IntegratedApp.java`.

In both versions a `HotelSystem` holds a registry of rooms (number, type
STANDARD / DELUXE / SUITE, booked flag), a ledger of bookings (id, customer,
a reference to one registry room; in the second version also the amount
paid) and a counter `nextBookingId` that starts at 1000. `bookRoom` takes the
earliest unbooked room of the requested type; `cancelBooking` removes the
first booking with an id and unbooks its room. Each version persists its
state in two files and reloads it at construction.

Modules:

- `Wrappers`: the `Option` type.
- `JavaText`: Java's `int` as `int32`, with `nextBookingId++` wrapping
  explicitly, plus `Integer.toString`, `Integer.parseInt` and
  `String.split(",")` (trailing empty fields dropped).
- `Sequences`: the first index of a value, and removal at an index (the
  iterator's `remove`).
- `Registry`: `RoomType`, `Room`, the scan `bookRoom` makes, the
  available-room listing, and setting a flag.
- `Ledger`: the invariants both versions keep. Every booked room is held by
  exactly one booking, and every booking holds a booked room. Ids increase
  along the ledger and stay below the counter. Recovering the counter as the
  last id + 1 puts it above every loaded id.
- `IntegratedCodec`: `Room.toString`/`fromString`, `Booking.toString`/
  `fromString` with its re-linking by room number, and the two line files.
- `IntegratedHotel`: `IntegratedApp`'s `HotelSystem` as a class.
- `HotelReservation`: `HotelReservationSystem`'s `HotelSystem` as a class,
  with its price table, its `viewBookings`, and its stored lists.
- `ChatBot`: `getResponse`.

A room reference is an index into the class's `rooms` sequence. In
`IntegratedApp` it is an `Option`, where None stands for the `null` that
`Booking.fromString` leaves when no room has the recorded number. The files
are parameters of the constructors. `IntegratedApp`'s files are sequences of
lines. `HotelReservationSystem`'s are the lists it serializes, and there a
booking carries a copy of its room. Printed output is returned as lines or
as an outcome value.

## Model

| member | source | states |
|---|---|---|
| `JavaText.Increment` | IntegratedApp.java:202 | `nextBookingId++` on a Java `int`: the successor below `Integer.MAX_VALUE`, wrapping to `Integer.MIN_VALUE` there |
| `JavaText.ShowInt` | IntegratedApp.java:82 | the decimal text of an int is non-empty, has no `+` and no comma, and is all digits when non-negative |
| `JavaText.ParseShowInt` | IntegratedApp.java:86 | `Integer.parseInt(Integer.toString(x)) == x` for every int |
| `JavaText.DigitsValueOfDigits` | IntegratedApp.java:86 | the digits of a natural number read back as that number |
| `JavaText.ParseInt` | IntegratedApp.java:86 | `Integer.parseInt`: an optional sign, at least one digit and a value that fits an int, None where Java throws; its contract says only that a parse needs non-empty text, and `ParseShowInt` proves it reads back every int's own text |
| `JavaText.JavaSplit` | IntegratedApp.java:85 | `split(",")`: the whole string when it holds no comma; otherwise fields that hold no comma and do not end on an empty field |
| `JavaText.DropTrailingEmpty` | IntegratedApp.java:85 | `split` keeps a prefix of the fields, drops only empty ones, and ends on a non-empty field |
| `JavaText.SplitThreeFields` | IntegratedApp.java:107 | a line of three comma-free fields, the last non-empty, splits into exactly those three fields |
| `Sequences.FirstIndex` | IntegratedApp.java:214-217 | the iterator scan finds the earliest position holding the value, and None exactly when no position holds it |
| `Sequences.RemoveAt` | IntegratedApp.java:219 | `it.remove()` drops one element and keeps the others in order |
| `Registry.ParseRoomType` | IntegratedApp.java:86 | `RoomType.valueOf` inverts the type's name and rejects every other string |
| `Registry.FirstFree` | IntegratedApp.java:199-200 | the room `bookRoom` takes is the earliest in registry order with the type and unbooked; None exactly when there is no such room |
| `Registry.LookupByOwnNumber` | IntegratedApp.java:112-116 | with distinct numbers, looking a room up by its own number finds that room |
| `Registry.Available` | IntegratedApp.java:191-192 | the listing holds exactly the unbooked rooms and is no longer than the registry |
| `Registry.AvailableKeepsOrder` | HotelReservationSystem.java:117-118 | the listing follows registry order: a split registry lists as its two parts in turn |
| `Registry.NoneAvailable` | HotelReservationSystem.java:123 | the listing is empty exactly when every room is booked |
| `Registry.SetBooked` | IntegratedApp.java:80 | `setBooked` changes only that room's flag: its number and type and every other room are unchanged |
| `Ledger.RefCount` | IntegratedApp.java:218 | how many bookings reference a room, zero exactly when none does |
| `Ledger.BookingKeepsConsistent` | IntegratedApp.java:199-203 | booking a free room and appending a booking that references it keeps every booked room held by exactly one booking |
| `Ledger.CancellingKeepsConsistent` | IntegratedApp.java:217-219 | removing any booking and unbooking its room keeps that agreement |
| `Ledger.ConsistentIsBijection` | IntegratedApp.java:198-227 | under the agreement, the booked rooms are exactly the referenced rooms, and there are as many as there are bookings |
| `Ledger.IssuingKeepsOrder` | IntegratedApp.java:202-203 | appending the counter's id and advancing it keeps ids strictly increasing and below the counter |
| `Ledger.RemovingKeepsOrder` | HotelReservationSystem.java:157 | removing a booking keeps ids strictly increasing and below the counter |
| `Ledger.IncreasingIdsAreUnique` | IntegratedApp.java:213-219 | increasing ids never repeat: the scan finds the one booking with the id, and once it is removed the id is gone |
| `Ledger.RecoveredCounterIsFresh` | HotelReservationSystem.java:98-100 | last id + 1, recovered at load from increasing ids, is above every loaded id |
| `IntegratedCodec.RoomToString` | IntegratedApp.java:81-83 | the line `number,TYPE,Booked` or `number,TYPE,Available`; `RoomFromString` inverts it (`RoomRoundTrip`) |
| `IntegratedCodec.RoomFromString` | IntegratedApp.java:84-89 | the first three comma-separated fields read as number, type name and flag, booked exactly when the flag is `Booked`; None where Java throws (fewer than three fields, a bad number, an unknown type) |
| `IntegratedCodec.RoomRoundTrip` | IntegratedApp.java:81-89 | `Room.fromString(r.toString())` gives back the same number, type and booked flag |
| `IntegratedCodec.BookingToString` | IntegratedApp.java:103-105 | the line `id,name,roomNumber`, written exactly when the booking's room is not null (None where `room.getRoomNumber()` throws) |
| `IntegratedCodec.BookingFromString` | IntegratedApp.java:106-119 | a parsed booking's room is null or a registry room |
| `IntegratedCodec.BookingRoundTrip` | IntegratedApp.java:103-119 | a booking read back from its line keeps id and name and links to the first room with its room's number; with distinct numbers, to its own room |
| `IntegratedCodec.FindRoom` | IntegratedApp.java:111-117 | the scan in `fromString` returns the first room with the number, or null |
| `IntegratedCodec.ParseBooking` | IntegratedApp.java:106-119 | `Booking.fromString`, written as the source runs it, computes the parsed booking |
| `IntegratedCodec.RoomLines` | IntegratedApp.java:155-162 | `saveRooms` writes one line per room, in registry order |
| `IntegratedCodec.LoadedRooms` | IntegratedApp.java:143-147 | `loadRooms` adds each line's room in turn and stops at the first line that throws, so it loads no more rooms than lines; it inverts `RoomLines` (`RoomStoreRoundTrip`) |
| `IntegratedCodec.RoomStoreRoundTrip` | IntegratedApp.java:143-161 | writing the registry to `rooms.txt` and loading it back gives the same rooms |
| `IntegratedCodec.ReadRooms` | IntegratedApp.java:143-147 | the read loop adds each line's room up to the first line that throws |
| `IntegratedCodec.BookingLines` | IntegratedApp.java:181-188 | `saveBookings` writes one line per booking, and throws exactly when some booking's room is null |
| `IntegratedCodec.LoadedBookings` | IntegratedApp.java:169-175 | every loaded booking's room is null or a registry room |
| `IntegratedCodec.BookingStoreRoundTrip` | IntegratedApp.java:164-188 | writing the ledger and loading it back against the same registry gives the same bookings, when numbers are distinct, rooms non-null and names comma-free |
| `IntegratedCodec.ReadBookings` | IntegratedApp.java:169-175 | the read loop adds each line's booking up to the first line that throws |
| `IntegratedHotel.HotelSystem.constructor` | IntegratedApp.java:129-179 | a missing `rooms.txt` seeds 101 STANDARD, 102 DELUXE, 103 SUITE, all unbooked; otherwise both files are loaded; the counter is recovered as last id + 1 (corrected, see Findings) |
| `IntegratedHotel.HotelSystem.ShowAvailableRooms` | IntegratedApp.java:190-196 | one `number - TYPE` line per unbooked room, in registry order |
| `IntegratedHotel.HotelSystem.BookRoom` | IntegratedApp.java:198-211 | takes the earliest free room of the type, books it and appends a booking with the old counter, which advances; with none free nothing changes; keeps the agreement and the id order |
| `IntegratedHotel.HotelSystem.CancelBooking` | IntegratedApp.java:213-227 | removes exactly the first booking with the id and unbooks its room; an absent id or a null room changes nothing; keeps the agreement and the id order, after which the id is gone |
| `IntegratedHotel.BookingKeepsInvariants` | IntegratedApp.java:199-203 | a booking step keeps the agreement and the id order |
| `IntegratedHotel.CancellingKeepsInvariants` | IntegratedApp.java:217-219 | a cancelling step keeps the agreement and the id order and removes the id |
| `IntegratedHotel.ReloadReissuesId` | IntegratedApp.java:125-179 | as written, a saved ledger holding some id of at least 1000 (every non-empty ledger a fresh store saves, until the counter wraps) reloads unchanged, yet the counter stays at its initial 1000, which is not above every loaded id |
| `IntegratedHotel.RestartRestoresState` | IntegratedApp.java:129-179 | corrected restart: registry and ledger reload unchanged, and the counter recovered as last id + 1 is above every reloaded id and no further than the counter before the restart |
| `HotelReservation.PriceForRoom` | HotelReservationSystem.java:143-149 | the price of each type, as the switch gives it; its values and their distinctness are stated in `PriceTable` |
| `HotelReservation.PriceTable` | HotelReservationSystem.java:143-149 | STANDARD costs 2000, DELUXE 3500, SUITE 5000, and no two types share a price |
| `HotelReservation.RoomText` | HotelReservationSystem.java:22-24 | `Room.toString()`: `Room <number> (<TYPE>) - Booked` or `- Available` |
| `HotelReservation.BookingText` | HotelReservationSystem.java:44-49 | `Booking.toString()`: id, customer, the room's text and the amount as Java prints a whole `double`, on four lines |
| `HotelReservation.Stored` | HotelReservationSystem.java:107-113 | what `saveBookings` writes: each booking with a copy of its room as it is now, with the same ids in the same order |
| `HotelReservation.Relink` | HotelReservationSystem.java:93-105 | (corrected, see Findings) loaded bookings are re-linked to the registry room with their room's number, a rule the source does not have: it keeps the deserialized room copies (line 97). All re-linked bookings reference registry rooms; a booking whose number is in no registry room is dropped, so there are no more of them than were stored |
| `HotelReservation.RelinkRestoresLedger` | HotelReservationSystem.java:107-109 | the stored ledger, re-linked against the same registry, gives back the same bookings when room numbers are distinct |
| `HotelReservation.CancelLoadedAsWritten` | HotelReservationSystem.java:151-157 | as written, cancelling a reloaded booking leaves the registry unchanged |
| `HotelReservation.ReloadedCancelKeepsRoomBooked` | HotelReservationSystem.java:84-113 | as written, booking 102 for Alice, restarting and cancelling leaves 102 booked with no booking holding it, so no deluxe room can be booked again |
| `HotelReservation.HotelSystem.constructor` | HotelReservationSystem.java:59-105 | a missing `rooms.dat` seeds 101 STANDARD, 102 DELUXE, 103 SUITE, 104 STANDARD, all unbooked; the counter becomes last stored id + 1 or stays 1000; bookings are re-linked (corrected, see Findings) |
| `HotelReservation.HotelSystem.ShowAvailableRooms` | HotelReservationSystem.java:115-124 | exactly the unbooked rooms in registry order, or `No available rooms.` when there is none |
| `HotelReservation.HotelSystem.BookRoom` | HotelReservationSystem.java:126-141 | returns a booking with the old counter as id, the earliest free room of the type, now booked, and the type's price; null with no change when none is free; keeps the agreement and the id order |
| `HotelReservation.HotelSystem.CancelBooking` | HotelReservationSystem.java:151-165 | removes the first booking with the id and unbooks its room; an unknown id changes nothing; keeps the agreement and the id order |
| `HotelReservation.HotelSystem.ViewBookings` | HotelReservationSystem.java:167-175 | `No bookings yet.` for an empty ledger, otherwise one block per booking in order with its room as it is now |
| `HotelReservation.BookingKeepsInvariants` | HotelReservationSystem.java:127-132 | a booking step keeps the agreement and the id order |
| `HotelReservation.CancellingKeepsInvariants` | HotelReservationSystem.java:155-157 | a cancelling step keeps the agreement and the id order and removes the id |
| `HotelReservation.RestartRestoresState` | HotelReservationSystem.java:93-109 | what the system stores re-links to the same ledger, with the same ids, and the recovered counter is above all of them |
| `ChatBot.Faq` | IntegratedApp.java:15-21 | the five keywords `loadFAQs` puts and their replies |
| `ChatBot.ToLowerCase` | IntegratedApp.java:23 | `toLowerCase` keeps the length, turns each upper-case ASCII letter into its lower-case letter, keeps every other character, and leaves no upper-case letter |
| `ChatBot.ToLowerCaseIsIdempotent` | IntegratedApp.java:23 | lower-cased text is unchanged by a second pass |
| `ChatBot.TrimStart` | IntegratedApp.java:23 | `trim` removes only leading characters up to the space, and the result does not start with one |
| `ChatBot.TrimEnd` | IntegratedApp.java:23 | `trim` removes only trailing characters up to the space, and the result does not end with one |
| `ChatBot.Trim` | IntegratedApp.java:23 | `trim()`: the leading, then the trailing, code points up to U+0020 removed; stated in `TrimStrips` |
| `ChatBot.TrimStrips` | IntegratedApp.java:23 | the trimmed text is a contiguous piece of the input with only removable characters before and after it, and it neither starts nor ends with one |
| `ChatBot.TrimPadded` | IntegratedApp.java:23 | `trim` of a text padded with blanks gives back the text when it neither starts nor ends with a blank |
| `ChatBot.Contains` | IntegratedApp.java:25 | `contains(key)` holds exactly when the key occurs at some position of the text |
| `ChatBot.ContainsAt` | IntegratedApp.java:25 | a key found at any position is contained in the text |
| `ChatBot.ContainsItself` | IntegratedApp.java:25 | a keyword typed alone is recognised |
| `ChatBot.TooShortToContain` | IntegratedApp.java:25 | a text shorter than a key does not contain it |
| `ChatBot.GetResponse` | IntegratedApp.java:22-29 | the reply is that of some key contained in the lower-cased, trimmed input, or the default reply when no key is contained |
| `ChatBot.OneKeywordOneReply` | IntegratedApp.java:24-27 | when the input contains a single key, the map order does not matter: the reply is that key's |
| `ChatBot.HotelQuestion` | IntegratedApp.java:20-26 | `  Hotel ` is answered with the room description |
| `ChatBot.DefaultIsNoKeywordReply` | IntegratedApp.java:16-29 | the default reply is not the reply of any keyword |

## Left out

- The Swing chat window (`ChatBotGUI`) and both console menus (`main`, `runHotelConsole`). This covers reading the menu choice, the name, the room type and the id. It also covers the `toUpperCase` before `RoomType.valueOf`.
- Printing. The methods return the printed lines or an outcome value instead.
- File I/O. Files are constructor parameters: None for a missing file, otherwise its lines or its stored list. `bookRoom` and `cancelBooking` save after every change, but the class methods do not. `RoomLines`, `BookingLines` and `Stored` give what those saves would write. The same goes for the save after seeding.
- `IntegratedHotel.HotelSystem.BookRoom`: in the source, the save after booking throws `NullPointerException` when some booking's room is null. That happens after the room and the booking have changed, and it ends the program. The model does not save, so it does not model this crash. `BookingLines` returns None in exactly this case.
- `IntegratedHotel.HotelSystem.CancelBooking`: for a booking whose room is null, the source throws `NullPointerException` out of the console loop and the program ends. The model reports `NullRoom` and changes nothing. When the cancelled booking has a room but some other booking's room is null, the save after the change (`saveBookings`, line 221) throws after the room and the ledger have changed, as for `BookRoom`. The model does not save, so it does not model this crash either. `BookingLines` returns None in exactly this case.
- `HotelReservation.HotelSystem.constructor`: a corrupt `.dat` file is not represented. In the source it leaves the registry empty, or leaves the bookings as they were.
- Java serialization itself. A stored booking is the record with a copy of its room.
- Floating point. `amountPaid` is an integer, since every price is a whole constant. `BookingText` prints it as `<n>.0`. That matches `Double.toString` for every whole amount below 10^7, which includes all three prices.
- `HashMap` iteration order is unspecified. `ChatBot.GetResponse` picks the next key to try nondeterministically.
- `ChatBot.ToLowerCase` lower-cases ASCII letters only. `Integer.parseInt` is modelled for ASCII digits only.
- `IntegratedCodec.BookingRoundTrip` and `IntegratedCodec.BookingStoreRoundTrip` hold only for names without commas. A comma in a name shifts the fields.

## Findings

| source | as written | input that shows it | evidently intended | confidence | as-written member | corrected member |
|---|---|---|---|---|---|---|
| IntegratedApp.java:164-179 | `loadBookings` never advances `nextBookingId`, so after a restart the counter is 1000 again | fresh start, book DELUXE for Alice (id 1000), restart, book STANDARD for Bob: his booking gets id 1000 too, and `cancelBooking(1000)` cancels only the first | recover the counter as last id + 1, as the other version does, so that it is above every reloaded id | high, not executed | `IntegratedHotel.ReloadReissuesId` | `IntegratedHotel.RestartRestoresState` |
| HotelReservationSystem.java:84-113 | rooms and bookings go to separate streams, so a reloaded booking holds a copy of its room, not the registry room | fresh start, book DELUXE for Alice, restart, `cancelBooking(1000)`: the copy is unbooked, room 102 stays booked with no booking, and DELUXE can never be booked again | a reloaded booking references the registry room with its number | high, not executed | `HotelReservation.ReloadedCancelKeepsRoomBooked` | `HotelReservation.HotelSystem.constructor` |
