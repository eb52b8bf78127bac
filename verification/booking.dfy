/**
 The orchestrator (`BookingSystem` in booking_system.py): the live
 catalog, the live ticket list and the store they are persisted to, with
 the queries and the two transactions that couple buses and tickets.
 */
module Booking {
  import opened Results
  import opened Text
  import opened Seqs
  import opened Store
  import Buses
  import Tickets

  datatype System = System(buses: seq<Buses.Bus>, tickets: seq<Tickets.Ticket>, store: DataStore)

  /** The state after a transaction together with what it returned. */
  datatype Step<+T> = Step(state: System, result: Result<T>)

  /** The store holds exactly the live catalog and the live ticket list. */
  predicate Synced(sys: System) {
    && sys.store.buses == DumpBuses(sys.buses)
    && sys.store.tickets == DumpTickets(sys.tickets)
  }

  /** `save_buses` followed by `save_tickets`: the live state with a store
      that mirrors it; the counter is untouched. */
  function Persist(store: DataStore, buses: seq<Buses.Bus>, tickets: seq<Tickets.Ticket>): (r: System)
    ensures r.buses == buses && r.tickets == tickets
    ensures Synced(r) && r.store.nextTicketId == store.nextTicketId
  {
    System(buses, tickets, SaveTickets(SaveBuses(store, buses), tickets))
  }

  /** Ticket ids strictly increase along the ticket list (so they are unique). */
  predicate IdsIncreasing(ts: seq<Tickets.Ticket>) {
    forall i, j | 0 <= i < j < |ts| :: ts[i].ticketId < ts[j].ticketId
  }

  /** Every bus and ticket is valid, ids are unique and increasing and all
      below the store's counter, and the store mirrors the live state. */
  predicate Inv(sys: System) {
    && (forall b | b in sys.buses :: Buses.Valid(b))
    && (forall t | t in sys.tickets :: Tickets.Valid(t))
    && IdsIncreasing(sys.tickets)
    && (forall t | t in sys.tickets :: t.ticketId < sys.store.nextTicketId)
    && Synced(sys)
  }

  // ---------------------------------------------------------------- seeding

  /** One entry of the demo catalog: name, route, departure, seats, price. */
  datatype DemoRow = DemoRow(name: string, origin: string, destination: string,
                             departure: string, seats: int, price: int)

  /** The demo list, in order. The four chunks have no meaning of their own:
      they only let the solver check the rows a few at a time. */
  const DemoRows: seq<DemoRow> := DemoRowsA + DemoRowsB + DemoRowsC + DemoRowsD

  const DemoRowsA: seq<DemoRow> := [
    DemoRow("Ena Transport", "Sylhet", "Dhaka", "08:00", 40, 800),
    DemoRow("Hanif Enterprise", "Sylhet", "Chittagong", "09:00", 40, 900),
    DemoRow("Shyamoli Paribahan", "Dhaka", "Chittagong", "10:30", 40, 1000),
    DemoRow("Desh Travels", "Dhaka", "Sylhet", "11:00", 40, 850),
    DemoRow("London Express", "Sylhet", "Cumilla", "14:00", 40, 700),
    DemoRow("Saudia Coach", "Sylhet", "Feni", "15:30", 40, 650)
  ]

  const DemoRowsB: seq<DemoRow> := [
    DemoRow("Green Line Paribahan", "Dhaka", "Chittagong", "07:30", 40, 1200),
    DemoRow("Shohagh Paribahan", "Dhaka", "Cox's Bazar", "21:00", 40, 1400),
    DemoRow("SilkLine", "Sylhet", "Dhaka", "17:45", 40, 800),
    DemoRow("Unique Paribahan", "Sylhet", "Chittagong", "06:30", 40, 900),
    DemoRow("Year-71 Express", "Sylhet", "Khulna", "16:00", 40, 1300),
    DemoRow("Shyamoli NR Travels", "Sylhet", "Jessore", "20:00", 40, 1350)
  ]

  const DemoRowsC: seq<DemoRow> := [
    DemoRow("Ena Transport", "Sylhet", "Rajshahi", "07:45", 40, 1400),
    DemoRow("London Express", "Sylhet", "Bogra", "12:30", 40, 1100),
    DemoRow("Hanif Enterprise", "Sylhet", "Feni", "13:45", 40, 700),
    DemoRow("Desh Travels", "Dhaka", "Rajshahi", "09:15", 40, 1000),
    DemoRow("Tungipara Express", "Dhaka", "Gopalganj", "06:45", 40, 600),
    DemoRow("S Alam Paribahan", "Chittagong", "Cox's Bazar", "05:30", 40, 900)
  ]

  const DemoRowsD: seq<DemoRow> := [
    DemoRow("Ena Transport", "Sylhet", "Cox's Bazar", "22:15", 40, 1700),
    DemoRow("Saintmartin Paribahan", "Dhaka", "Teknaf", "23:00", 40, 1800),
    DemoRow("Green Line Paribahan", "Sylhet", "Dhaka", "15:00", 40, 1200),
    DemoRow("Shohagh Paribahan", "Sylhet", "Dhaka", "23:45", 40, 900),
    DemoRow("Haque Enterprise", "Sylhet", "Moulvibazar", "10:00", 40, 400)
  ]


  /** A row the bus constructor accepts and stores verbatim. */
  predicate RowOk(row: DemoRow) {
    && row.name != [] && Trimmed(row.name)
    && row.origin != [] && Trimmed(row.origin)
    && row.destination != [] && Trimmed(row.destination)
    && Trimmed(row.departure)
    && row.seats > 0 && row.price > 0
  }

  /** Every row of `rows` is accepted by the constructor and has 40 seats. */
  predicate RowsOk(rows: seq<DemoRow>) {
    forall i | 0 <= i < |rows| :: RowOk(rows[i]) && rows[i].seats == 40
  }

  lemma DemoRowsOk()
    ensures |DemoRows| == 23
    ensures forall i | 0 <= i < |DemoRows| :: RowOk(DemoRows[i]) && DemoRows[i].seats == 40
  {
    DemoRowsAOk();
    DemoRowsBOk();
    DemoRowsCOk();
    DemoRowsDOk();
  }

  lemma DemoRowsAOk() ensures RowsOk(DemoRowsA) {}
  lemma DemoRowsBOk() ensures RowsOk(DemoRowsB) {}
  lemma DemoRowsCOk() ensures RowsOk(DemoRowsC) {}
  lemma DemoRowsDOk() ensures RowsOk(DemoRowsD) {}

  /** The bus built from a demo row, with its seat count left to the default. */
  function SeedBus(row: DemoRow): (b: Buses.Bus)
    requires RowOk(row)
    ensures Buses.Valid(b)
    ensures b.name == row.name && b.origin == row.origin && b.destination == row.destination
    ensures b.departureTime == row.departure && b.pricePerTicket == row.price
    ensures b.totalSeats == row.seats && b.availableSeats == row.seats
  {
    Buses.New(row.name, row.origin, row.destination, row.departure, row.seats, row.price, None).value
  }

  /** The 23-bus demo catalog, every bus with 40 of 40 seats free. */
  function DemoCatalog(): (r: seq<Buses.Bus>)
    ensures |r| == |DemoRows| == 23
    ensures forall i | 0 <= i < |r| :: Buses.Valid(r[i])
    ensures forall i | 0 <= i < |r| :: r[i].totalSeats == 40 && r[i].availableSeats == 40
    ensures forall i | 0 <= i < |r| :: r[i].name == DemoRows[i].name && r[i].pricePerTicket == DemoRows[i].price
    ensures forall i | 0 <= i < |r| ::
      && r[i].origin == DemoRows[i].origin && r[i].destination == DemoRows[i].destination
      && r[i].departureTime == DemoRows[i].departure
  {
    DemoRowsOk();
    seq(|DemoRows|, i requires 0 <= i < |DemoRows| => SeedBus(DemoRows[i]))
  }

  /** `_preload_if_empty`: an empty catalog is replaced by the demo catalog
      and persisted; a non-empty one is left alone. */
  function PreloadIfEmpty(sys: System): (r: System)
    ensures |sys.buses| > 0 ==> r == sys
    ensures |sys.buses| == 0 ==> r.buses == DemoCatalog() && r.store.buses == DumpBuses(r.buses)
    ensures r.tickets == sys.tickets
    ensures r.store.tickets == sys.store.tickets && r.store.nextTicketId == sys.store.nextTicketId
  {
    if |sys.buses| > 0 then sys
    else
      var buses := DemoCatalog();
      System(buses, sys.tickets, SaveBuses(sys.store, buses))
  }

  /** `BookingSystem(store)`: load the buses, then the tickets, then seed if needed. */
  function Init(store: DataStore): (r: Result<System>)
    ensures r.Ok? <==> LoadBuses(store).Ok? && LoadTickets(store).Ok?
    ensures r.Ok? ==> r.value.tickets == LoadTickets(store).value
    ensures r.Ok? ==> |r.value.buses| > 0 && forall b | b in r.value.buses :: Buses.Valid(b)
    ensures r.Ok? && |store.buses| > 0 ==> r.value.buses == LoadBuses(store).value && r.value.store == store
    ensures r.Ok? && |store.buses| == 0 ==> r.value.buses == DemoCatalog()
    ensures r.Ok? && |store.buses| == 0 ==> r.value.store == SaveBuses(store, r.value.buses)
    ensures r.Ok? ==> r.value.store.nextTicketId == store.nextTicketId
    ensures r.Err? ==> r.error == (if LoadBuses(store).Err? then LoadBuses(store).error else LoadTickets(store).error)
  {
    match LoadBuses(store)
    case Err(e) => Err(e)
    case Ok(buses) =>
      match LoadTickets(store)
      case Err(e) => Err(e)
      case Ok(tickets) => Ok(PreloadIfEmpty(System(buses, tickets, store)))
  }

  /** Starting from a fresh store seeds the catalog and establishes the invariant. */
  lemma FreshInit()
    ensures Init(Fresh()).Ok?
    ensures var sys := Init(Fresh()).value;
      && Inv(sys) && sys.buses == DemoCatalog() && sys.tickets == [] && sys.store.nextTicketId == 1
  {
    var sys := Init(Fresh()).value;
    assert sys.store.tickets == [] == DumpTickets([]);
  }

  // ---------------------------------------------------------------- queries

  /** `list_buses`: the whole catalog, in catalog order. */
  function ListBuses(sys: System): (r: seq<Buses.Bus>)
    ensures r == sys.buses
  {
    sys.buses
  }

  predicate HasFreeSeat(b: Buses.Bus) {
    b.availableSeats > 0
  }

  /** `list_available_buses`: the buses with a free seat, in catalog order. */
  function ListAvailableBuses(sys: System): (r: seq<Buses.Bus>)
    ensures forall b | b in r :: b in sys.buses && b.availableSeats > 0
    ensures forall b | b in sys.buses && b.availableSeats > 0 :: b in r
    ensures forall b | b in sys.buses :: multiset(r)[b] == if b.availableSeats > 0 then multiset(sys.buses)[b] else 0
    ensures IsSubseq(r, sys.buses)
  {
    Filter(sys.buses, HasFreeSeat)
  }

  /** The buses whose lower-cased route equals the given keys, in catalog order. */
  function SearchByKeys(buses: seq<Buses.Bus>, o: string, d: string): (r: seq<Buses.Bus>)
    ensures forall b | b in r :: b in buses && Lower(b.origin) == o && Lower(b.destination) == d
    ensures forall b | b in buses && Lower(b.origin) == o && Lower(b.destination) == d :: b in r
    ensures forall b | b in buses ::
      multiset(r)[b] == if Lower(b.origin) == o && Lower(b.destination) == d then multiset(buses)[b] else 0
    ensures IsSubseq(r, buses)
  {
    Filter(buses, (b: Buses.Bus) => Lower(b.origin) == o && Lower(b.destination) == d)
  }

  /** `search_buses`: exact route match ignoring case and surrounding whitespace of the query. */
  function SearchBuses(sys: System, origin: string, destination: string): (r: seq<Buses.Bus>)
    ensures forall b | b in r :: b in sys.buses && Lower(b.origin) == Key(origin) && Lower(b.destination) == Key(destination)
    ensures forall b | b in sys.buses && Lower(b.origin) == Key(origin) && Lower(b.destination) == Key(destination) :: b in r
    ensures forall b | b in sys.buses ::
      multiset(r)[b] == if Lower(b.origin) == Key(origin) && Lower(b.destination) == Key(destination) then multiset(sys.buses)[b] else 0
    ensures IsSubseq(r, sys.buses)
  {
    SearchByKeys(sys.buses, Key(origin), Key(destination))
  }

  /** Queries that normalise to the same keys find the same buses. */
  lemma SearchNormalizes(sys: System, o1: string, d1: string, o2: string, d2: string)
    requires Key(o1) == Key(o2) && Key(d1) == Key(d2)
    ensures SearchBuses(sys, o1, d1) == SearchBuses(sys, o2, d2)
  {
  }

  /** Searching with a query that was already normalised gives the same result. */
  lemma SearchKeyIdempotent(sys: System, origin: string, destination: string)
    ensures SearchBuses(sys, Key(origin), Key(destination)) == SearchBuses(sys, origin, destination)
  {
    KeyIdempotent(origin);
    KeyIdempotent(destination);
  }

  /** The index of the first bus whose lower-cased name equals the normalised `name`. */
  function FindBus(buses: seq<Buses.Bus>, name: string): (r: Option<nat>)
    ensures r.Some? ==> r.value < |buses| && Lower(buses[r.value].name) == Key(name)
    ensures r.Some? ==> forall j | 0 <= j < r.value :: Lower(buses[j].name) != Key(name)
    ensures r.None? <==> forall j | 0 <= j < |buses| :: Lower(buses[j].name) != Key(name)
  {
    var key := Key(name);
    FirstIndex(buses, (b: Buses.Bus) => Lower(b.name) == key)
  }

  /** `get_bus_by_name`: the first bus with a matching name, or none. */
  function GetBusByName(sys: System, name: string): (r: Option<Buses.Bus>)
    ensures r.Some? ==> r.value in sys.buses && Lower(r.value.name) == Key(name)
    ensures r.None? <==> forall b | b in sys.buses :: Lower(b.name) != Key(name)
    ensures r.Some? ==>
      exists i | 0 <= i < |sys.buses| ::
        && sys.buses[i] == r.value
        && forall j | 0 <= j < i :: Lower(sys.buses[j].name) != Key(name)
  {
    match FindBus(sys.buses, name)
    case None => None
    case Some(i) => Some(sys.buses[i])
  }

  /** Buses with the same names in the same order resolve every lookup identically. */
  lemma FindBusSameNames(buses: seq<Buses.Bus>, buses': seq<Buses.Bus>, name: string, name': string)
    requires |buses| == |buses'|
    requires forall j | 0 <= j < |buses| :: buses[j].name == buses'[j].name
    requires Key(name) == Key(name')
    ensures FindBus(buses, name) == FindBus(buses', name')
  {
    var key := Key(name);
    FirstIndexAgree(buses, (b: Buses.Bus) => Lower(b.name) == key, buses', (b: Buses.Bus) => Lower(b.name) == key);
  }

  /** The index of the first ticket with the given id. */
  function FindTicket(ts: seq<Tickets.Ticket>, ticketId: int): (r: Option<nat>)
    ensures r.Some? ==> r.value < |ts| && ts[r.value].ticketId == ticketId
    ensures r.Some? ==> forall j | 0 <= j < r.value :: ts[j].ticketId != ticketId
    ensures r.None? <==> forall j | 0 <= j < |ts| :: ts[j].ticketId != ticketId
  {
    FirstIndex(ts, (t: Tickets.Ticket) => t.ticketId == ticketId)
  }

  // ----------------------------------------------------------- transactions

  /** `book_ticket`. Validation runs in the source's order and the first
      failure is reported; a failure leaves the system exactly as it was. */
  function Book(sys: System, busName: string, passengerName: string, contact: string, seatCount: int)
    : (r: Step<Tickets.Ticket>)
    requires forall b | b in sys.buses :: Buses.Valid(b)
    ensures r.result.Err? ==> r.state == sys
    ensures Strip(passengerName) == [] || Strip(contact) == [] ==> r.result == Err(InvalidArgument)
    ensures Strip(passengerName) != [] && Strip(contact) != [] && seatCount <= 0
            ==> r.result == Err(InvalidArgument)
    ensures Strip(passengerName) != [] && Strip(contact) != [] && seatCount > 0
            && (forall b | b in sys.buses :: Lower(b.name) != Key(busName))
            ==> r.result == Err(NotFound)
    ensures Strip(passengerName) != [] && Strip(contact) != [] && seatCount > 0
            && FindBus(sys.buses, busName).Some?
            && sys.buses[FindBus(sys.buses, busName).value].availableSeats < seatCount
            ==> r.result == Err(InsufficientInventory)
    ensures Strip(passengerName) != [] && Strip(contact) != [] && seatCount > 0
            && FindBus(sys.buses, busName).Some?
            && seatCount <= sys.buses[FindBus(sys.buses, busName).value].availableSeats
            ==> r.result.Ok?
    ensures r.result.Ok? ==>
      && Strip(passengerName) != [] && Strip(contact) != [] && seatCount > 0
      && FindBus(sys.buses, busName).Some?
      && seatCount <= sys.buses[FindBus(sys.buses, busName).value].availableSeats
      && BookedAt(sys, r, FindBus(sys.buses, busName).value, seatCount)
      && r.result.value.passengerName == Strip(passengerName)
      && r.result.value.contactNumber == Strip(contact)
  {
    if Strip(passengerName) == [] || Strip(contact) == [] then Step(sys, Err(InvalidArgument))
    else if seatCount <= 0 then Step(sys, Err(InvalidArgument))
    else
      match FindBus(sys.buses, busName)
      case None => Step(sys, Err(NotFound))
      case Some(i) =>
        if !Buses.BookSeat(sys.buses[i], seatCount).1 then Step(sys, Err(InsufficientInventory))
        else
          assert sys.buses[i] in sys.buses;
          Sell(sys, i, passengerName, contact, seatCount)
  }

  /** The success path of `book_ticket` once bus `i` has accepted the seats:
      take an id, build the ticket from the bus snapshot, append it and
      persist both sections. */
  function Sell(sys: System, i: nat, passengerName: string, contact: string, seatCount: int)
    : (r: Step<Tickets.Ticket>)
    requires i < |sys.buses| && Buses.Valid(sys.buses[i])
    requires 0 < seatCount <= sys.buses[i].availableSeats
    ensures r.result.Ok? && BookedAt(sys, r, i, seatCount)
    ensures r.result.value.passengerName == Strip(passengerName)
    ensures r.result.value.contactNumber == Strip(contact)
  {
    var bus := sys.buses[i];
    var booked := Buses.BookSeat(bus, seatCount).0;
    var (id, store1) := NextTicketId(sys.store);
    var ticket := Snapshot(bus, id, passengerName, contact, seatCount);
    var buses := sys.buses[i := booked];
    var tickets := sys.tickets + [ticket];
    Step(Persist(store1, buses, tickets), Ok(ticket))
  }

  /** The ticket `book_ticket` issues: the bus's name, route and departure
      copied onto it and the price of `n` seats. */
  function Snapshot(bus: Buses.Bus, id: int, passengerName: string, contact: string, n: int)
    : (t: Tickets.Ticket)
    requires Buses.Valid(bus) && n > 0
    ensures Tickets.Valid(t)
    ensures t.ticketId == id && t.seatCount == n && t.pricePaid == n * bus.pricePerTicket
    ensures t.busId == bus.name && t.busName == bus.name
    ensures t.origin == bus.origin && t.destination == bus.destination
    ensures t.departureTime == bus.departureTime
    ensures t.passengerName == Strip(passengerName) && t.contactNumber == Strip(contact)
  {
    ProductPositive(n, bus.pricePerTicket);
    Tickets.New(id, bus.name, passengerName, contact, bus.name, bus.origin,
                bus.destination, bus.departureTime, n, n * bus.pricePerTicket).value
  }

  lemma ProductPositive(a: int, b: int)
    requires a > 0 && b > 0
    ensures a * b > 0
  {
  }

  /** What a successful booking against bus `i` did: bus `i` lost exactly
      `n` free seats and nothing else about the catalog changed; one valid
      ticket was appended carrying the counter's id, a snapshot of the bus and the
      price `n * price_per_ticket`; the counter advanced; the store mirrors
      the new state. */
  predicate BookedAt(sys: System, r: Step<Tickets.Ticket>, i: nat, n: int)
    requires r.result.Ok?
  {
    var t := r.result.value;
    && i < |sys.buses| == |r.state.buses|
    && r.state.buses[i] == sys.buses[i].(availableSeats := sys.buses[i].availableSeats - n)
    && (forall j | 0 <= j < |sys.buses| && j != i :: r.state.buses[j] == sys.buses[j])
    && r.state.tickets == sys.tickets + [t]
    && Tickets.Valid(t)
    && t.ticketId == sys.store.nextTicketId
    && t.seatCount == n
    && t.pricePaid == n * sys.buses[i].pricePerTicket
    && t.busId == sys.buses[i].name && t.busName == sys.buses[i].name
    && t.origin == sys.buses[i].origin && t.destination == sys.buses[i].destination
    && t.departureTime == sys.buses[i].departureTime
    && r.state.store.nextTicketId == sys.store.nextTicketId + 1
    && Synced(r.state)
  }

  /** `cancel_ticket`: removes the first ticket with the id and refunds its
      seats to the first bus named like the ticket's bus, when there is one
      and the refund fits; reports whether a ticket was found. */
  function Cancel(sys: System, ticketId: int): (r: (System, bool))
    ensures r.1 <==> exists t | t in sys.tickets :: t.ticketId == ticketId
    ensures !r.1 ==> r.0 == sys
    ensures r.1 ==> FindTicket(sys.tickets, ticketId).Some? && CancelledAt(sys, r.0, FindTicket(sys.tickets, ticketId).value)
  {
    match FindTicket(sys.tickets, ticketId)
    case None => (sys, false)
    case Some(k) => (Remove(sys, k), true)
  }

  /** The state after ticket `k` is cancelled: the ticket is dropped, its
      seats go back to the first bus answering to its bus name, and both
      sections are saved. */
  function Remove(sys: System, k: nat): (r: System)
    requires k < |sys.tickets|
    ensures CancelledAt(sys, r, k)
  {
    var t := sys.tickets[k];
    var buses :=
      match FindBus(sys.buses, t.busName)
      case None => sys.buses
      case Some(i) => sys.buses[i := Buses.RefundSeat(sys.buses[i], t.seatCount).0];
    var tickets := sys.tickets[..k] + sys.tickets[k + 1..];
    Persist(sys.store, buses, tickets)
  }

  /** Whether cancelling ticket `k` can give its seats back to bus `i`. */
  predicate RefundFits(sys: System, k: nat, i: nat)
    requires k < |sys.tickets| && i < |sys.buses|
  {
    var t := sys.tickets[k];
    0 < t.seatCount && sys.buses[i].availableSeats + t.seatCount <= sys.buses[i].totalSeats
  }

  /** What a successful cancellation of ticket `k` did: exactly that ticket
      is gone; the bus the ticket names got its seats back if the refund
      fits and is otherwise untouched; no other bus changed; the counter is
      unchanged; the store mirrors the new state. */
  predicate CancelledAt(sys: System, s': System, k: nat)
    requires k < |sys.tickets|
  {
    var t := sys.tickets[k];
    && s'.tickets == sys.tickets[..k] + sys.tickets[k + 1..]
    && |s'.buses| == |sys.buses|
    && (forall j | 0 <= j < |sys.buses| && Some(j) != FindBus(sys.buses, t.busName) :: s'.buses[j] == sys.buses[j])
    && (FindBus(sys.buses, t.busName).Some? ==>
          var i := FindBus(sys.buses, t.busName).value;
          s'.buses[i] == sys.buses[i].(availableSeats :=
            if RefundFits(sys, k, i) then sys.buses[i].availableSeats + t.seatCount else sys.buses[i].availableSeats))
    && s'.store.nextTicketId == sys.store.nextTicketId
    && Synced(s')
  }
}
