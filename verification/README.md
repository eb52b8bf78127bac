# Bus ticket booking engine — Dafny model

This project models the booking engine of a small bus-ticket desk application:

- the `Bus` and `Ticket` records, with their constructor validation, whitespace trimming and defaulting;
- the `DataStore` holding three sections: bus records, ticket records and the next ticket id;
- the `BookingSystem` that loads both sections, seeds a demo catalog when the bus section is empty, and answers the catalog queries;
- booking and cancellation of tickets, and the per-bus seat ledger they keep;
- the in-memory `AdminRegistry` of operator accounts.

The model is purely functional:

- Every Python method that mutates an object becomes a function from the old value to the new one. A pair or `Step` carries the method's return value.
- Every Python exception becomes an `Err` of `Results.Result`:
  - `InvalidArgument` for the `ValueError`s of validation;
  - `NotFound` for an unknown bus;
  - `InsufficientInventory` for a bus without enough free seats;
  - `CorruptStore` for a stored record with a missing key or a non-integer count, or with a text field that is not a string when the constructor reaches it. In Python a missing key is a `KeyError` and a text field of another type is an `AttributeError`; a stored count that is a string raises `ValueError` in `int()` unless it spells an integer (see `int(...)` coercion under "Left out"). The constructor's own checks run in its order, so a record with a blank bus name and a non-string origin fails with `InvalidArgument`, as the source's `ValueError` does.
- A failing operation returns its input state unchanged.
- The JSON file is modelled as the value `Store.DataStore`. Every save replaces exactly one section of it.

Modules:

| module | file | models |
|---|---|---|
| `Results` | results.dfy | `Result`, `Option`, error kinds |
| `Text` | text.dfy | `str.strip()` / `str.lower()` on ASCII, and the lookup key `strip().lower()` |
| `Seqs` | seqs.dfy | the list comprehensions and first-match loops used by the engine |
| `Records` | records.dfy | the stored dictionaries: string keys, string or integer values |
| `Buses` | bus.dfy | bus.py |
| `Tickets` | ticket.dfy | ticket.py |
| `Store` | datastore.dfy | `DataStore` in booking_system.py |
| `Booking` | booking.dfy | `BookingSystem` in booking_system.py |
| `BookingProperties` | booking_props.dfy | system-level properties of booking and cancelling |
| `SeatLedger` | ledger.dfy | the seat accounting of booking and cancelling in booking_system.py, over whole sessions |
| `Admins` | admin.dfy | user.py |

Each bus name is looked up as the first bus whose lower-cased name equals the query's stripped, lower-cased form. The demo catalog repeats several operator names; for example "Ena Transport" appears three times. As a result, the later buses of such an operator can never be booked, and cancelling a ticket refunds the first bus of that name. `BookingProperties.DemoCatalogShadowing` proves this for the two later "Ena Transport" coaches.

`Bus.refund_seat` refuses a refund that would push a bus past its capacity, and `cancel_ticket` ignores the refusal. `SeatLedger` shows that this refusal never happens in a reachable state. Its `Balanced` predicate says that every live ticket names a bus the lookup finds, and that each bus's free seats plus the seats of the live tickets resolving to it add up to the bus's capacity. A fresh start is balanced, and booking and cancelling keep it balanced. So after any session that began with a fresh store, cancelling a live ticket returns exactly that ticket's seats. `Balanced` is kept next to the system invariant `Booking.Inv` rather than inside it, so the invariant's own proofs stay small.

## Model

| member | source | states |
|---|---|---|
| Text.Strip | bus.py:36-39 | the result has no surrounding whitespace; it is the input minus its leading and trailing whitespace; it is empty exactly when the input is all whitespace; an already trimmed string is returned unchanged |
| Text.Lower | booking_system.py:115 | lower-casing keeps the length and maps every character through the ASCII case mapping |
| Text.StripIdempotent | bus.py:36-39 | stripping twice is the same as stripping once, so trimmed record fields stay trimmed when rebuilt |
| Text.LowerIdempotent | booking_system.py:115 | lower-casing twice is the same as lower-casing once |
| Text.KeyIdempotent | booking_system.py:119 | the lookup key of a lookup key is itself |
| Text.KeyOfStrip | booking_system.py:119 | stripping a name before lookup does not change its lookup key |
| Text.KeyEmpty | user.py:18-19 | the lookup key is empty exactly when the stripped name is empty |
| Text.StripLowerCommute | booking_system.py:110-111 | stripping and lower-casing commute |
| Seqs.Filter | booking_system.py:106-107 | a comprehension filter keeps exactly the elements satisfying the predicate, with their multiplicities, in their original order |
| Seqs.FirstIndex | booking_system.py:120-123 | the first-match loop returns the first matching index, and returns nothing exactly when no element matches |
| Seqs.MapResult | booking_system.py:30 | decoding a list succeeds exactly when every element decodes; it yields the elements' values in order; otherwise it fails with the error of some element that fails to decode |
| Buses.New | bus.py:17-46 | construction succeeds exactly when name, origin and destination are not blank, total seats and price are positive, and the available seats (defaulting to the total) lie in 0..total; otherwise it fails with `InvalidArgument`; the result is a valid bus with trimmed text fields |
| Buses.NewOfValid | bus.py:17-46 | rebuilding a valid bus from its own fields gives the same bus |
| Buses.BookSeat | bus.py:51-57 | booking succeeds exactly when 0 < count <= available seats; it then lowers the free seats by count; it changes nothing else and keeps the bus valid |
| Buses.RefundSeat | bus.py:59-65 | refunding succeeds exactly when count > 0 and available seats + count <= total seats; it then raises the free seats by count; it changes nothing else and keeps the bus valid |
| Buses.BookThenRefund | bus.py:51-65 | refunding the seats just booked restores the bus and succeeds |
| Buses.ToDict | bus.py:67-76 | the record has exactly the seven bus fields, and each holds the value of the attribute it is named after |
| Buses.FromDict | bus.py:78-90 | a missing key or non-integer count fails with `CorruptStore`; then, in the constructor's order, a non-string name fails with `CorruptStore` and a blank one with `InvalidArgument`, then the same for origin and for destination, then a non-positive total or price with `InvalidArgument`, then a non-string departure time with `CorruptStore`, and any later failure is `InvalidArgument`; decoding succeeds exactly when the record is well typed, name, origin and destination are not blank, total seats and price are positive and the stored free seats (defaulting to the total) lie in 0..total; the bus has the stripped text fields and the stored numbers, and is valid |
| Buses.RoundTrip | bus.py:67-90 | decoding the record of a valid bus gives back the same bus |
| Buses.FromDictDefaultsSeats | bus.py:87-89 | a record without available seats decodes as if it stored the total seats there |
| Tickets.New | ticket.py:20-47 | construction succeeds exactly when the seat count is positive and the price is not negative; otherwise it fails with `InvalidArgument`; every text field except the bus id is trimmed |
| Tickets.NewOfValid | ticket.py:20-47 | rebuilding a valid ticket from its own fields gives the same ticket |
| Tickets.ToDict | ticket.py:49-61 | the record has exactly the ten ticket fields, and each holds the value of the attribute it is named after |
| Tickets.FromDict | ticket.py:63-76 | a missing key or a non-integer id, seat count or price fails with `CorruptStore`; a seat count <= 0 or a negative price then fails with `InvalidArgument`, before any text field is looked at; once the numbers pass, a text field (bus id included) that is not a string fails with `CorruptStore`; decoding succeeds exactly when the record is well typed with a positive seat count and a non-negative price; the id, bus id, seat count and price are copied verbatim and the other six text fields are stripped; the ticket is valid |
| Tickets.RoundTrip | ticket.py:49-76 | decoding the record of a valid ticket gives back the same ticket |
| Store.LoadBuses | booking_system.py:28-30 | loading succeeds exactly when every stored bus record decodes; the i-th bus loaded is the decoding of the i-th record; every bus is valid; a failed load reports the error of the first record that does not decode |
| Store.LoadTickets | booking_system.py:37-39 | loading succeeds exactly when every stored ticket record decodes; the i-th ticket loaded is the decoding of the i-th record; every ticket is valid; a failed load reports the error of the first record that does not decode |
| Store.SaveBuses | booking_system.py:32-35 | saving buses rewrites the bus section only; the tickets and the counter are untouched |
| Store.SaveTickets | booking_system.py:41-44 | saving tickets rewrites the ticket section only; the buses and the counter are untouched |
| Store.LoadSaveBuses | booking_system.py:28-35 | loading after saving valid buses gives back exactly those buses |
| Store.LoadSaveTickets | booking_system.py:37-44 | loading after saving valid tickets gives back exactly those tickets |
| Store.NextTicketId | booking_system.py:46-51 | the id handed out is the stored counter; the counter advances by one; the record sections are untouched |
| Store.IssueIds | booking_system.py:46-51 | n successive calls hand out n consecutive, strictly increasing ids and advance the counter by n |
| Store.FreshIssuesFromOne | booking_system.py:16-18 | a newly created store hands out the ids 1, 2, 3, ... |
| Booking.DemoRowsOk | booking_system.py:64-88 | the demo list has 23 rows; every row is acceptable to the bus constructor and has 40 seats |
| Booking.SeedBus | booking_system.py:90-99 | each demo row becomes a valid bus with all of its seats free |
| Booking.DemoCatalog | booking_system.py:64-100 | the seeded catalog has 23 valid buses, each with 40 of 40 seats free, and with the names, routes, departure times and prices of the demo list in order |
| Booking.PreloadIfEmpty | booking_system.py:61-101 | a non-empty catalog is left alone; an empty one becomes the demo catalog and is saved; tickets and the counter are untouched |
| Booking.Init | booking_system.py:55-59 | start-up succeeds exactly when both sections load; a failure reports the bus section's error if it has one and the ticket section's otherwise; the loaded tickets are kept; a non-empty loaded catalog is kept with the store as it was; an empty one is replaced by the demo catalog, which is saved into the bus section; the counter is unchanged |
| Booking.FreshInit | booking_system.py:55-59 | starting on a fresh store establishes the system invariant, with the demo catalog, no tickets and next id 1 |
| Booking.ListBuses | booking_system.py:103-104 | listing returns every bus in catalog order |
| Booking.ListAvailableBuses | booking_system.py:106-107 | the list holds exactly the buses with a free seat, with their multiplicities, in catalog order |
| Booking.SearchByKeys | booking_system.py:112-116 | the result holds exactly the buses whose lower-cased origin and destination equal the keys, with their multiplicities, in catalog order |
| Booking.SearchBuses | booking_system.py:109-116 | route search returns exactly the buses whose origin and destination match the query's stripped, case-insensitive form, with their multiplicities, in catalog order |
| Booking.SearchNormalizes | booking_system.py:109-111 | two queries with the same stripped, lower-cased form return the same buses |
| Booking.SearchKeyIdempotent | booking_system.py:109-111 | searching with already normalised keys gives the same answer |
| Booking.FindBus | booking_system.py:118-123 | the lookup returns the first bus whose lower-cased name equals the query's key, and returns nothing exactly when no bus matches |
| Booking.GetBusByName | booking_system.py:118-123 | a returned bus is in the catalog and matches the key, and it is the first such bus; nothing is returned exactly when no bus matches |
| Booking.FindBusSameNames | booking_system.py:118-123 | the lookup depends only on the bus names and the query's key |
| Booking.FindTicket | booking_system.py:163-164 | the scan returns the first ticket with the id, and returns nothing exactly when there is none |
| Booking.Book | booking_system.py:125-160 | a blank passenger or contact, a seat count <= 0, an unknown bus and too few seats fail with their error kinds, checked in that order, and leave the system unchanged; when all four checks pass the booking succeeds; a success books the first matching bus and changes nothing else; it appends one valid ticket with the next id, the bus snapshot, trimmed passenger data and price seats times fare; it advances the counter and saves both sections |
| Booking.Sell | booking_system.py:143-160 | once the bus has accepted the seats, the booking always yields a ticket with the effects listed for Book |
| Booking.Snapshot | booking_system.py:143-154 | the issued ticket is valid and carries the given id, the bus's name as both bus id and bus name, the bus's route and departure time, the trimmed passenger data, the seat count and the price seats times fare |
| Booking.Persist | booking_system.py:157-159 | after saving both sections the store mirrors the live buses and tickets, and the counter is untouched |
| Booking.Cancel | booking_system.py:162-172 | cancelling succeeds exactly when some ticket has the id and otherwise changes nothing; on success it removes the first such ticket and refunds its seats to the first bus of that name when the refund fits; it changes no other bus, keeps the counter and saves both sections |
| Booking.Remove | booking_system.py:165-171 | removing the found ticket drops exactly that ticket, gives its seats back to the first bus of its name when the refund fits, keeps every other bus and the counter, and saves both sections |
| BookingProperties.BookPreservesInv | booking_system.py:125-160 | booking keeps the system invariant: valid buses and tickets, strictly increasing ticket ids below the counter, and a store that mirrors memory |
| BookingProperties.CancelPreservesInv | booking_system.py:162-172 | cancelling keeps the system invariant |
| BookingProperties.BookConservesSeats | booking_system.py:140-157 | booking moves seats from the catalog to the tickets: free plus sold seats stay the same |
| BookingProperties.CancelConservesSeats | booking_system.py:165-168 | cancelling conserves free plus sold seats when the refund applies; otherwise the total drops by the ticket's seats |
| BookingProperties.BookThenCancel | booking_system.py:125-172 | cancelling the ticket just booked restores the catalog, the ticket list and both store sections; only the id counter stays advanced |
| BookingProperties.ShadowedByEarlier | booking_system.py:120-122 | a bus whose name repeats an earlier bus's name is never found by name |
| BookingProperties.DemoCatalogShadowing | booking_system.py:77-83 | in the demo catalog the Sylhet-Rajshahi and Sylhet-Cox's Bazar "Ena Transport" coaches can never be looked up by name |
| BookingProperties.EnaTransportTicket | booking_system.py:125-160 | on a freshly seeded system, booking 3 seats on "Ena Transport" succeeds and issues ticket 1 for 2400 |
| BookingProperties.EnaTransportSeats | booking_system.py:125-160 | the same booking leaves 37 of the 40 seats free on the first bus |
| BookingProperties.SearchExample | booking_system.py:109-116 | searching " sylhet " to "DHAKA" returns the same buses as "Sylhet" to "dhaka" |
| SeatLedger.FreshBalanced | booking_system.py:55-83 | a fresh start is balanced: every bus's free seats plus the seats of the live tickets naming it equal its capacity, and every live ticket names a bus the lookup finds |
| SeatLedger.BookedKeepsBalance | booking_system.py:140-157 | a booking of n seats on bus i, the first bus answering to its own name, keeps the ledger balanced: the bus loses n free seats and the new ticket holds n against it |
| SeatLedger.BookKeepsBalance | booking_system.py:125-160 | booking keeps the ledger balanced |
| SeatLedger.BalancedRefundFits | booking_system.py:165-168 | in a balanced state every live ticket's bus is found by name and the refund of its seats fits under the bus's capacity |
| SeatLedger.CancelledKeepsBalance | booking_system.py:165-171 | removing a live ticket and refunding its bus keeps the ledger balanced |
| SeatLedger.CancelKeepsBalance | booking_system.py:162-172 | cancelling keeps the ledger balanced |
| SeatLedger.CancelRefundsSeats | booking_system.py:162-172 | in a balanced state, cancelling a live ticket gives its bus back exactly the ticket's seat count, and free plus sold seats stay the same |
| SeatLedger.Serve | booking_system.py:125-172 | one booking or cancellation request keeps the system invariant and the ledger |
| SeatLedger.Run | booking_system.py:125-172 | any sequence of requests keeps the system invariant and the ledger |
| SeatLedger.FreshSystem | booking_system.py:55-83 | the state of a fresh store satisfies the invariant and the ledger, with no tickets and the counter at 1 |
| SeatLedger.SessionRefunds | booking_system.py:162-172 | after any session started from a fresh store, cancelling a live ticket refunds exactly its seat count to the bus it names |
| Admins.Signup | user.py:17-24 | sign-up succeeds exactly when the stripped name is not blank, the password is not empty and the name's key is free; a failure changes nothing; a success adds exactly one entry, holding the stripped name and the password, and keeps every other entry |
| Admins.SignupPreservesWellFormed | user.py:17-24 | every entry stays stored under the key of its trimmed, non-empty name, with a non-empty password |
| Admins.Login | user.py:26-29 | login succeeds exactly when the name's key is registered with that password |
| Admins.SignupThenLogin | user.py:17-29 | after a successful sign-up the same credentials log in |
| Admins.LoginNormalizesName | user.py:26-27 | login ignores the case and surrounding whitespace of the name |
| Admins.NoEmptyPasswordLogin | user.py:19-29 | no one can log in with an empty password |
| Admins.HasAnyAdmin | user.py:31-32 | the answer is true exactly when some account exists |
| Admins.SignupAllHasAdmin | user.py:17-32 | after a run of sign-ups an admin exists exactly when one existed before or some sign-up succeeded |
| Admins.HasAdminIffSomeSignup | user.py:14-32 | starting from an empty registry, an admin exists exactly when some sign-up succeeded |

## Left out

- gui.py and main.py: the PyQt6 front end and the entry point. They only call the operations above.
- File I/O: `_ensure_file`, `_read` and `_write` become the value `Store.DataStore`. Failed or partial writes, concurrent writers, and the JSON encoding are not modelled.
- Missing sections: the defaults that `data.get("buses", [])`, `data.get("tickets", [])` and `data.get("next_ticket_id", 1)` supply are not modelled, because the modelled store always holds all three sections.
- `int(...)` coercion: Python's coercion of numeric strings, floats and booleans in the constructors and `from_dict` is not modelled. Stored numbers are integers, and a stored count that is a string is a `CorruptStore` error. The source instead accepts a string that spells an integer (such as "12") and raises `ValueError` for any other string, which the model would tag `InvalidArgument`.
- `bus_id`: it is modelled as a string only. The source accepts any value there and never trims it; a stored ticket whose `bus_id` is not a string is a `CorruptStore` error in the model.
- Whitespace and case: `Text` covers ASCII only. Python's `strip()` and `lower()` also handle Unicode whitespace and letters.
- Exceptions: the Python exception classes and messages are replaced by the four error kinds. Missing fields in stored records raise `KeyError` in the source; the model names that `CorruptStore`.
- `get_available_seats` is a plain getter. It is the field `availableSeats`.
- `BookingSystem(store=None)`: creating a default store is not modelled; the store is an argument of `Booking.Init`.
- `Booking.Book` requires every bus in the catalog to be valid. This holds for every `Bus` object the source can build, and it keeps the price of a new ticket positive.
- `Booking.Cancel`: the ticket id's `int()` conversion is not modelled. The id is already an integer.
- `Admins.Login`: it is a pure function, so it cannot change the registry.
- Load errors: a stored record that has every field but fails the constructor's checks (for example a negative seat count) reports `InvalidArgument`, as the source's `ValueError` does. It is not classed as a corrupt store.
