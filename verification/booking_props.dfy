/**
 Properties relating several booking-engine operations: the system
 invariant is kept by both transactions, seats are conserved, and a
 cancellation undoes the booking it cancels.
 */
module BookingProperties {
  import opened Results
  import opened Text
  import opened Seqs
  import opened Store
  import opened Booking
  import Buses
  import Tickets

  function Free(b: Buses.Bus): int {
    b.availableSeats
  }

  function Sold(t: Tickets.Ticket): int {
    t.seatCount
  }

  /** Free seats on the catalog plus seats held by live tickets. */
  function SeatTotal(sys: System): int {
    SumOf(sys.buses, Free) + SumOf(sys.tickets, Sold)
  }

  /** A booking keeps the invariant. */
  lemma BookPreservesInv(sys: System, busName: string, passengerName: string, contact: string, seatCount: int)
    requires Inv(sys)
    ensures Inv(Book(sys, busName, passengerName, contact, seatCount).state)
  {
    var r := Book(sys, busName, passengerName, contact, seatCount);
    if r.result.Ok? {
      BookedPreservesInv(sys, r, FindBus(sys.buses, busName).value, seatCount);
    }
  }

  /** Any state change of the shape a successful booking makes keeps the invariant. */
  lemma BookedPreservesInv(sys: System, r: Step<Tickets.Ticket>, i: nat, n: int)
    requires Inv(sys)
    requires r.result.Ok? && BookedAt(sys, r, i, n)
    requires 0 < n <= sys.buses[i].availableSeats
    ensures Inv(r.state)
  {
    var s' := r.state;
    var t := r.result.value;
    assert sys.buses[i] in sys.buses;
    forall b | b in s'.buses
      ensures Buses.Valid(b)
    {
      var j :| 0 <= j < |s'.buses| && s'.buses[j] == b;
      if j != i {
        assert sys.buses[j] in sys.buses;
      }
    }
    assert forall x | x in s'.tickets :: x in sys.tickets || x == t;
    assert IdsIncreasing(s'.tickets) by {
      forall a, b | 0 <= a < b < |s'.tickets|
        ensures s'.tickets[a].ticketId < s'.tickets[b].ticketId
      {
        assert s'.tickets[a] in sys.tickets;
        if b == |sys.tickets| {
          assert s'.tickets[b] == t;
        }
      }
    }
  }

  /** A cancellation keeps the invariant. */
  lemma CancelPreservesInv(sys: System, ticketId: int)
    requires Inv(sys)
    ensures Inv(Cancel(sys, ticketId).0)
  {
    var (s', found) := Cancel(sys, ticketId);
    if found {
      CancelledPreservesInv(sys, s', FindTicket(sys.tickets, ticketId).value);
    }
  }

  /** Any state change of the shape a successful cancellation makes keeps the invariant. */
  lemma CancelledPreservesInv(sys: System, s': System, k: nat)
    requires Inv(sys)
    requires k < |sys.tickets| && CancelledAt(sys, s', k)
    ensures Inv(s')
  {
    RemoveKeeps(sys.tickets, k);
    forall b | b in s'.buses
      ensures Buses.Valid(b)
    {
      var j :| 0 <= j < |s'.buses| && s'.buses[j] == b;
      assert sys.buses[j] in sys.buses;
    }
  }

  /** Removing one ticket keeps only tickets that were there, in increasing id order. */
  lemma RemoveKeeps(ts: seq<Tickets.Ticket>, k: nat)
    requires k < |ts|
    ensures forall t | t in ts[..k] + ts[k + 1..] :: t in ts
    ensures IdsIncreasing(ts) ==> IdsIncreasing(ts[..k] + ts[k + 1..])
  {
    var ts' := ts[..k] + ts[k + 1..];
    forall i | 0 <= i < |ts'|
      ensures ts'[i] == ts[if i < k then i else i + 1]
    {
    }
    forall t | t in ts'
      ensures t in ts
    {
      var i :| 0 <= i < |ts'| && ts'[i] == t;
      assert ts[if i < k then i else i + 1] in ts;
    }
  }

  /** A booking moves seats from the catalog onto a ticket: the total is unchanged. */
  lemma BookConservesSeats(sys: System, busName: string, passengerName: string, contact: string, seatCount: int)
    requires forall b | b in sys.buses :: Buses.Valid(b)
    ensures SeatTotal(Book(sys, busName, passengerName, contact, seatCount).state) == SeatTotal(sys)
  {
    var r := Book(sys, busName, passengerName, contact, seatCount);
    if r.result.Ok? {
      var i := FindBus(sys.buses, busName).value;
      assert r.state.buses == sys.buses[i := r.state.buses[i]];
      SumUpdate(sys.buses, i, r.state.buses[i], Free);
      SumAppend(sys.tickets, [r.result.value], Sold);
    }
  }

  /** A cancellation whose refund fits moves the ticket's seats back to the
      catalog; when the bus is gone or the refund does not fit, the seats
      are dropped with the ticket. */
  lemma CancelConservesSeats(sys: System, ticketId: int)
    ensures var (s', found) := Cancel(sys, ticketId);
      found ==>
        var k := FindTicket(sys.tickets, ticketId).value;
        var i := FindBus(sys.buses, sys.tickets[k].busName);
        SeatTotal(s') == SeatTotal(sys) - (if i.Some? && RefundFits(sys, k, i.value) then 0 else sys.tickets[k].seatCount)
  {
    var (s', found) := Cancel(sys, ticketId);
    if found {
      var k := FindTicket(sys.tickets, ticketId).value;
      SumRemove(sys.tickets, k, Sold);
      var i := FindBus(sys.buses, sys.tickets[k].busName);
      if i.Some? {
        assert s'.buses == sys.buses[i.value := s'.buses[i.value]];
        SumUpdate(sys.buses, i.value, s'.buses[i.value], Free);
      } else {
        assert s'.buses == sys.buses;
      }
    }
  }

  /** Cancelling the ticket a booking just issued restores the catalog, the
      ticket list and the store; only the id counter stays advanced. */
  lemma BookThenCancel(sys: System, busName: string, passengerName: string, contact: string, seatCount: int)
    requires Inv(sys)
    requires Book(sys, busName, passengerName, contact, seatCount).result.Ok?
    ensures var r := Book(sys, busName, passengerName, contact, seatCount);
      Cancel(r.state, r.result.value.ticketId)
        == (System(sys.buses, sys.tickets, sys.store.(nextTicketId := sys.store.nextTicketId + 1)), true)
  {
    var r := Book(sys, busName, passengerName, contact, seatCount);
    var i := FindBus(sys.buses, busName).value;
    assert Key(sys.buses[i].name) == Key(busName) by {
      assert sys.buses[i] in sys.buses;
      assert Strip(sys.buses[i].name) == sys.buses[i].name;
    }
    FindBusSameNames(sys.buses, sys.buses, busName, sys.buses[i].name);
    BookedThenCancel(sys, r, i, seatCount);
  }

  /** The same round trip for any state change of the shape a successful
      booking against bus `i` makes, `i` being the first bus answering to
      its own name. */
  lemma BookedThenCancel(sys: System, r: Step<Tickets.Ticket>, i: nat, n: int)
    requires Synced(sys) && forall t | t in sys.tickets :: t.ticketId < sys.store.nextTicketId
    requires r.result.Ok? && BookedAt(sys, r, i, n)
    requires Buses.Valid(sys.buses[i])
    requires 0 < n <= sys.buses[i].availableSeats
    requires FindBus(sys.buses, sys.buses[i].name) == Some(i)
    ensures Cancel(r.state, r.result.value.ticketId)
      == (System(sys.buses, sys.tickets, sys.store.(nextTicketId := sys.store.nextTicketId + 1)), true)
  {
    var t := r.result.value;
    var s1 := r.state;
    FindAppended(sys.tickets, t);
    BusRestored(sys.buses, s1.buses, i, n);
    assert t.busName == sys.buses[i].name && t.seatCount == n;
    var k := |sys.tickets|;
    assert Cancel(s1, t.ticketId) == (Remove(s1, k), true);
    assert Remove(s1, k) == Persist(s1.store, sys.buses, sys.tickets);
    // Both sections are rewritten with what they held before the booking.
    Resaved(sys, s1.store);
    assert s1.store.nextTicketId == sys.store.nextTicketId + 1;
  }

  /** Saving a state that is already in sync rewrites nothing but the counter. */
  lemma Resaved(sys: System, store: DataStore)
    requires Synced(sys)
    ensures Persist(store, sys.buses, sys.tickets)
      == System(sys.buses, sys.tickets, sys.store.(nextTicketId := store.nextTicketId))
  {
  }

  /** Bus `i` after a booking of `n` seats from it is still the first bus
      answering to its name, and refunding the `n` seats restores the
      earlier catalog. */
  lemma BusRestored(buses: seq<Buses.Bus>, buses': seq<Buses.Bus>, i: nat, n: int)
    requires i < |buses| == |buses'| && Buses.Valid(buses[i])
    requires 0 < n <= buses[i].availableSeats
    requires buses'[i] == buses[i].(availableSeats := buses[i].availableSeats - n)
    requires forall j | 0 <= j < |buses| && j != i :: buses'[j] == buses[j]
    requires FindBus(buses, buses[i].name) == Some(i)
    ensures FindBus(buses', buses[i].name) == Some(i)
    ensures buses'[i := Buses.RefundSeat(buses'[i], n).0] == buses
  {
    FindBusSameNames(buses, buses', buses[i].name, buses[i].name);
    Buses.BookThenRefund(buses[i], n);
    assert Buses.RefundSeat(buses'[i], n).0 == buses[i];
  }

  /** A ticket appended with an id above every earlier id is found at the
      end, and removing it gives back the earlier list. */
  lemma FindAppended(ts: seq<Tickets.Ticket>, t: Tickets.Ticket)
    requires forall x | x in ts :: x.ticketId < t.ticketId
    ensures FindTicket(ts + [t], t.ticketId) == Some(|ts|)
    ensures var ts' := ts + [t]; ts'[..|ts|] + ts'[|ts| + 1..] == ts
  {
    var ts' := ts + [t];
    assert ts'[..|ts|] == ts && ts'[|ts| + 1..] == [];
    forall j | 0 <= j < |ts|
      ensures ts'[j].ticketId != t.ticketId
    {
      assert ts'[j] == ts[j] && ts[j] in ts;
    }
    assert ts'[|ts|] == t;
  }

  /** A bus preceded by another bus of the same name can never be found by
      name, so it can never be booked. */
  lemma ShadowedByEarlier(buses: seq<Buses.Bus>, j: nat, k: nat, name: string)
    requires j < k < |buses| && buses[j].name == buses[k].name
    ensures FindBus(buses, name) != Some(k)
  {
  }

  /** In the demo catalog the Sylhet-Rajshahi and Sylhet-Cox's Bazar
      "Ena Transport" trips (entries 12 and 18) share the name of entry 0,
      so every booking by that name lands on the Sylhet-Dhaka trip. */
  lemma DemoCatalogShadowing(name: string)
    ensures FindBus(DemoCatalog(), name) != Some(12)
    ensures FindBus(DemoCatalog(), name) != Some(18)
  {
    var c := DemoCatalog();
    EnaRows();
    assert c[0].name == c[12].name == c[18].name;
    ShadowedByEarlier(c, 0, 12, name);
    ShadowedByEarlier(c, 0, 18, name);
  }

  /** Rows 0, 12 and 18 of the demo list carry the same operator name. */
  lemma EnaRows()
    ensures |DemoRows| == 23
    ensures DemoRows[0].name == DemoRows[12].name == DemoRows[18].name == "Ena Transport"
  {
    assert DemoRows[0] == DemoRowsA[0];
    assert DemoRows[12] == DemoRowsC[0];
    assert DemoRows[18] == DemoRowsD[0];
  }

  /** The first entry of the demo catalog. */
  lemma CatalogHead()
    ensures DemoCatalog()[0] == Buses.Bus("Ena Transport", "Sylhet", "Dhaka", "08:00", 40, 800, 40)
  {
    DemoRowsOk();
    assert DemoRows[0] == DemoRow("Ena Transport", "Sylhet", "Dhaka", "08:00", 40, 800);
  }

  /** Booking three seats on "Ena Transport" in a freshly seeded system
      issues ticket 1 and charges 3 * 800. */
  lemma EnaTransportTicket()
    ensures var r := Book(Init(Fresh()).value, "Ena Transport", "Alice", "017...", 3);
      && r.result.Ok?
      && r.result.value.pricePaid == 2400
      && r.result.value.ticketId == 1
  {
    FreshInit();
    CatalogHead();
    EnaTransportFirst(Init(Fresh()).value);
  }

  /** The same booking leaves 37 of the bus's 40 seats free. */
  lemma EnaTransportSeats()
    ensures var r := Book(Init(Fresh()).value, "Ena Transport", "Alice", "017...", 3);
      r.result.Ok? && r.state.buses[0].availableSeats == 37
  {
    FreshInit();
    CatalogHead();
    EnaTransportFirst(Init(Fresh()).value);
  }

  /** The same booking against any valid catalog headed by the seeded
      "Ena Transport" bus, with the id counter at 1. */
  lemma EnaTransportFirst(sys: System)
    requires forall b | b in sys.buses :: Buses.Valid(b)
    requires |sys.buses| > 0 && sys.buses[0] == Buses.Bus("Ena Transport", "Sylhet", "Dhaka", "08:00", 40, 800, 40)
    requires sys.store.nextTicketId == 1
    ensures var r := Book(sys, "Ena Transport", "Alice", "017...", 3);
      && r.result.Ok?
      && r.result.value.pricePaid == 2400
      && r.result.value.ticketId == 1
      && r.state.buses[0].availableSeats == 37
  {
    PassengerStrings();
    BookOnFirst(sys, "Ena Transport", "Alice", "017...", 3);
  }

  /** A valid request naming the first bus of the catalog books on it. */
  lemma BookOnFirst(sys: System, busName: string, passengerName: string, contact: string, n: int)
    requires forall b | b in sys.buses :: Buses.Valid(b)
    requires |sys.buses| > 0 && Lower(sys.buses[0].name) == Key(busName)
    requires Strip(passengerName) != [] && Strip(contact) != []
    requires 0 < n <= sys.buses[0].availableSeats
    ensures var r := Book(sys, busName, passengerName, contact, n);
      r.result.Ok? && BookedAt(sys, r, 0, n)
  {
    assert FindBus(sys.buses, busName) == Some(0);
  }

  lemma PassengerStrings()
    ensures Strip("Alice") == "Alice" && Strip("017...") == "017..."
    ensures Strip("Ena Transport") == "Ena Transport"
  {
    assert Trimmed("Alice");
    assert Trimmed("017...");
    assert Trimmed("Ena Transport");
  }

  // The keys of the two queries in `SearchExample`, one literal per lemma:
  // the solver settles each in isolation but not all of them together.
  lemma PaddedSylhetKey()
    ensures Key(" sylhet ") == "sylhet"
  {
    PaddedSylhetStrip();
    SylhetLower();
  }

  lemma PaddedSylhetStrip()
    ensures Strip(" sylhet ") == "sylhet"
  {
    StripOfPadded(" sylhet ", 1, 7);
  }

  lemma SylhetLower()
    ensures Lower("sylhet") == "sylhet"
  {
  }

  lemma SylhetKey()
    ensures Key("Sylhet") == "sylhet"
  {
  }

  lemma UpperDhakaKey()
    ensures Key("DHAKA") == "dhaka"
  {
  }

  lemma DhakaKey()
    ensures Key("dhaka") == "dhaka"
  {
  }

  /** Route search ignores case and surrounding whitespace of the query. */
  lemma SearchExample(sys: System)
    ensures SearchBuses(sys, " sylhet ", "DHAKA") == SearchBuses(sys, "Sylhet", "dhaka")
  {
    PaddedSylhetKey();
    SylhetKey();
    UpperDhakaKey();
    DhakaKey();
    SearchNormalizes(sys, " sylhet ", "DHAKA", "Sylhet", "dhaka");
  }
}
