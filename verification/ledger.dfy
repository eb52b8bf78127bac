/**
 The per-bus seat ledger of a booking session. Every live ticket names a
 bus that a lookup by name finds, and each bus's free seats plus the seats
 of the live tickets resolving to it add up to its capacity. A fresh
 start establishes the ledger and both transactions keep it, so in any
 session that starts from a fresh store, cancelling a live ticket gives
 its seats back in full.
 */
module SeatLedger {
  import opened Results
  import opened Text
  import opened Store
  import opened Booking
  import opened BookingProperties
  import Buses
  import Tickets

  /** The seats ticket `t` holds against bus `i`: all of them when its bus
      name resolves to `i`, none otherwise. */
  function Owed(buses: seq<Buses.Bus>, i: nat, t: Tickets.Ticket): int {
    if FindBus(buses, t.busName) == Some(i) then t.seatCount else 0
  }

  /** The seats the tickets `ts` hold against bus `i`. */
  function Held(buses: seq<Buses.Bus>, ts: seq<Tickets.Ticket>, i: nat): int
    decreases |ts|
  {
    if ts == [] then 0 else Owed(buses, i, ts[0]) + Held(buses, ts[1..], i)
  }

  /** Each bus's free seats plus what the tickets hold against it make up
      its capacity. */
  predicate Ledger(buses: seq<Buses.Bus>, ts: seq<Tickets.Ticket>) {
    forall i | 0 <= i < |buses| :: buses[i].availableSeats + Held(buses, ts, i) == buses[i].totalSeats
  }

  /** Every live ticket resolves to a bus, and no seat is lost or invented. */
  predicate Balanced(sys: System) {
    && (forall t | t in sys.tickets :: FindBus(sys.buses, t.busName).Some?)
    && Ledger(sys.buses, sys.tickets)
  }

  /** `buses'` is `buses` with `d` more seats free on bus `i`. */
  predicate Shifted(buses: seq<Buses.Bus>, buses': seq<Buses.Bus>, i: nat, d: int) {
    && i < |buses| == |buses'|
    && buses'[i] == buses[i].(availableSeats := buses[i].availableSeats + d)
    && forall j | 0 <= j < |buses| && j != i :: buses'[j] == buses[j]
  }

  /** Whether two catalogs carry the same names at the same positions. */
  predicate SameNames(buses: seq<Buses.Bus>, buses': seq<Buses.Bus>) {
    |buses| == |buses'| && forall j | 0 <= j < |buses| :: buses[j].name == buses'[j].name
  }

  // ------------------------------------------------------------- holdings

  /** What tickets hold depends only on the names in the catalog. */
  lemma {:induction false} HeldSameNames(buses: seq<Buses.Bus>, buses': seq<Buses.Bus>, ts: seq<Tickets.Ticket>, i: nat)
    requires SameNames(buses, buses')
    ensures Held(buses, ts, i) == Held(buses', ts, i)
    decreases |ts|
  {
    if ts != [] {
      FindBusSameNames(buses, buses', ts[0].busName, ts[0].busName);
      HeldSameNames(buses, buses', ts[1..], i);
    }
  }

  /** Holdings add up over a concatenation. */
  lemma {:induction false} HeldConcat(buses: seq<Buses.Bus>, a: seq<Tickets.Ticket>, b: seq<Tickets.Ticket>, i: nat)
    ensures Held(buses, a + b, i) == Held(buses, a, i) + Held(buses, b, i)
    decreases |a|
  {
    if a == [] {
      assert a + b == b;
    } else {
      assert (a + b)[1..] == a[1..] + b;
      HeldConcat(buses, a[1..], b, i);
    }
  }

  /** Dropping ticket `k` lowers every holding by exactly that ticket's share. */
  lemma HeldRemove(buses: seq<Buses.Bus>, ts: seq<Tickets.Ticket>, k: nat, i: nat)
    requires k < |ts|
    ensures Held(buses, ts[..k] + ts[k + 1..], i) == Held(buses, ts, i) - Owed(buses, i, ts[k])
  {
    assert ts == ts[..k] + ([ts[k]] + ts[k + 1..]);
    HeldConcat(buses, ts[..k], [ts[k]] + ts[k + 1..], i);
    HeldConcat(buses, [ts[k]], ts[k + 1..], i);
    HeldConcat(buses, ts[..k], ts[k + 1..], i);
  }

  /** No ticket with a positive seat count makes a holding negative. */
  lemma {:induction false} HeldNonNegative(buses: seq<Buses.Bus>, ts: seq<Tickets.Ticket>, i: nat)
    requires forall j | 0 <= j < |ts| :: ts[j].seatCount > 0
    ensures Held(buses, ts, i) >= 0
    decreases |ts|
  {
    if ts != [] {
      HeldTail(buses, ts, i);
      HeldNonNegative(buses, ts[1..], i);
    }
  }

  /** The first ticket's share, then the rest: the holding never shrinks by
      adding a ticket in front. */
  lemma HeldTail(buses: seq<Buses.Bus>, ts: seq<Tickets.Ticket>, i: nat)
    requires forall j | 0 <= j < |ts| :: ts[j].seatCount > 0
    requires ts != []
    ensures Held(buses, ts, i) == Owed(buses, i, ts[0]) + Held(buses, ts[1..], i)
    ensures Owed(buses, i, ts[0]) >= 0
    ensures forall j | 0 <= j < |ts[1..]| :: ts[1..][j].seatCount > 0
  {
  }

  /** Each ticket's share is part of the holding, when every ticket holds
      a positive number of seats. */
  lemma {:induction false} HeldCovers(buses: seq<Buses.Bus>, ts: seq<Tickets.Ticket>, k: nat, i: nat)
    requires forall j | 0 <= j < |ts| :: ts[j].seatCount > 0
    requires k < |ts|
    ensures Held(buses, ts, i) >= Owed(buses, i, ts[k]) >= 0
    decreases |ts|
  {
    HeldTail(buses, ts, i);
    if k == 0 {
      HeldNonNegative(buses, ts[1..], i);
    } else {
      assert ts[1..][k - 1] == ts[k];
      HeldCovers(buses, ts[1..], k - 1, i);
    }
  }

  /** Lookups that succeed keep succeeding in a catalog with the same names. */
  lemma ResolvesSameNames(buses: seq<Buses.Bus>, buses': seq<Buses.Bus>, ts: seq<Tickets.Ticket>)
    requires SameNames(buses, buses')
    requires forall t | t in ts :: FindBus(buses, t.busName).Some?
    ensures forall t | t in ts :: FindBus(buses', t.busName).Some?
  {
    forall t | t in ts
      ensures FindBus(buses', t.busName).Some?
    {
      FindBusSameNames(buses, buses', t.busName, t.busName);
    }
  }

  /** Appending ticket `t`, which resolves to bus `i`, adds its seats to
      what bus `i` holds and nothing to any other bus. */
  lemma HeldAppend(buses: seq<Buses.Bus>, buses': seq<Buses.Bus>, ts: seq<Tickets.Ticket>, t: Tickets.Ticket, i: nat)
    requires SameNames(buses, buses') && FindBus(buses, t.busName) == Some(i)
    ensures forall j: nat :: Held(buses', ts + [t], j) == Held(buses, ts, j) + (if j == i then t.seatCount else 0)
  {
    forall j: nat
      ensures Held(buses', ts + [t], j) == Held(buses, ts, j) + (if j == i then t.seatCount else 0)
    {
      HeldSameNames(buses, buses', ts + [t], j);
      HeldConcat(buses, ts, [t], j);
      assert Held(buses, [t], j) == Owed(buses, j, t) + Held(buses, [], j);
    }
  }

  /** Dropping ticket `k`, which resolves to bus `i`, takes its seats off
      what bus `i` holds and nothing off any other bus. */
  lemma HeldDrop(buses: seq<Buses.Bus>, buses': seq<Buses.Bus>, ts: seq<Tickets.Ticket>, k: nat, i: nat)
    requires SameNames(buses, buses') && k < |ts| && FindBus(buses, ts[k].busName) == Some(i)
    ensures forall j: nat :: Held(buses', ts[..k] + ts[k + 1..], j) == Held(buses, ts, j) - (if j == i then ts[k].seatCount else 0)
  {
    forall j: nat
      ensures Held(buses', ts[..k] + ts[k + 1..], j) == Held(buses, ts, j) - (if j == i then ts[k].seatCount else 0)
    {
      HeldSameNames(buses, buses', ts[..k] + ts[k + 1..], j);
      HeldRemove(buses, ts, k, j);
    }
  }

  /** Moving `d` seats from the tickets' holding on bus `i` to its free
      seats keeps the ledger. */
  lemma LedgerShift(buses: seq<Buses.Bus>, buses': seq<Buses.Bus>, ts: seq<Tickets.Ticket>, ts': seq<Tickets.Ticket>, i: nat, d: int)
    requires Ledger(buses, ts) && Shifted(buses, buses', i, d)
    requires forall j: nat :: Held(buses', ts', j) == Held(buses, ts, j) - (if j == i then d else 0)
    ensures Ledger(buses', ts')
  {
  }

  /** Changing free seats leaves the names alone. */
  lemma ShiftedSameNames(buses: seq<Buses.Bus>, buses': seq<Buses.Bus>, i: nat, d: int)
    requires Shifted(buses, buses', i, d)
    ensures SameNames(buses, buses')
  {
  }

  /** Issuing ticket `t` against bus `i`, which loses the ticket's seats,
      keeps every ticket resolving and keeps the ledger. */
  lemma AppendLedger(buses: seq<Buses.Bus>, buses': seq<Buses.Bus>, ts: seq<Tickets.Ticket>, t: Tickets.Ticket, i: nat)
    requires forall x | x in ts :: FindBus(buses, x.busName).Some?
    requires Ledger(buses, ts) && Shifted(buses, buses', i, -t.seatCount)
    requires FindBus(buses, t.busName) == Some(i)
    ensures forall x | x in ts + [t] :: FindBus(buses', x.busName).Some?
    ensures Ledger(buses', ts + [t])
  {
    ShiftedSameNames(buses, buses', i, -t.seatCount);
    ResolvesSameNames(buses, buses', ts + [t]);
    HeldAppend(buses, buses', ts, t, i);
    LedgerShift(buses, buses', ts, ts + [t], i, -t.seatCount);
  }

  /** Dropping ticket `k` of bus `i`, which gets the ticket's seats back,
      keeps every remaining ticket resolving and keeps the ledger. */
  lemma DropLedger(buses: seq<Buses.Bus>, buses': seq<Buses.Bus>, ts: seq<Tickets.Ticket>, k: nat, i: nat)
    requires forall x | x in ts :: FindBus(buses, x.busName).Some?
    requires k < |ts| && FindBus(buses, ts[k].busName) == Some(i)
    requires Ledger(buses, ts) && Shifted(buses, buses', i, ts[k].seatCount)
    ensures forall x | x in ts[..k] + ts[k + 1..] :: FindBus(buses', x.busName).Some?
    ensures Ledger(buses', ts[..k] + ts[k + 1..])
  {
    ShiftedSameNames(buses, buses', i, ts[k].seatCount);
    RemoveKeeps(ts, k);
    ResolvesSameNames(buses, buses', ts[..k] + ts[k + 1..]);
    HeldDrop(buses, buses', ts, k, i);
    LedgerShift(buses, buses', ts, ts[..k] + ts[k + 1..], i, ts[k].seatCount);
  }

  // --------------------------------------------------------- transactions

  /** A fresh start is balanced: no tickets, every demo bus 40 of 40 free. */
  lemma FreshBalanced()
    ensures Init(Fresh()).Ok? && Balanced(Init(Fresh()).value)
  {
    FreshInit();
  }

  /** A successful booking against bus `i`, the first bus answering to its
      own name, keeps the ledger. */
  lemma BookedKeepsBalance(sys: System, r: Step<Tickets.Ticket>, i: nat, n: int)
    requires Balanced(sys)
    requires r.result.Ok? && BookedAt(sys, r, i, n)
    requires FindBus(sys.buses, sys.buses[i].name) == Some(i)
    ensures Balanced(r.state)
  {
    var t := r.result.value;
    var s' := r.state;
    assert t.busName == sys.buses[i].name && t.seatCount == n;
    assert Shifted(sys.buses, s'.buses, i, -n);
    AppendLedger(sys.buses, s'.buses, sys.tickets, t, i);
  }

  /** `book_ticket` keeps the ledger. */
  lemma BookKeepsBalance(sys: System, busName: string, passengerName: string, contact: string, seatCount: int)
    requires Inv(sys) && Balanced(sys)
    ensures Balanced(Book(sys, busName, passengerName, contact, seatCount).state)
  {
    var r := Book(sys, busName, passengerName, contact, seatCount);
    if r.result.Ok? {
      var i := FindBus(sys.buses, busName).value;
      assert Key(sys.buses[i].name) == Key(busName) by {
        assert sys.buses[i] in sys.buses;
        assert Strip(sys.buses[i].name) == sys.buses[i].name;
      }
      FindBusSameNames(sys.buses, sys.buses, busName, sys.buses[i].name);
      BookedKeepsBalance(sys, r, i, seatCount);
    }
  }

  /** In a balanced state every live ticket's refund fits its bus. */
  lemma BalancedRefundFits(sys: System, k: nat)
    requires Balanced(sys) && forall t | t in sys.tickets :: Tickets.Valid(t)
    requires k < |sys.tickets|
    ensures FindBus(sys.buses, sys.tickets[k].busName).Some?
    ensures RefundFits(sys, k, FindBus(sys.buses, sys.tickets[k].busName).value)
  {
    var ts := sys.tickets;
    assert ts[k] in ts;
    var i := FindBus(sys.buses, ts[k].busName).value;
    assert forall j | 0 <= j < |ts| :: ts[j] in ts;
    HeldCovers(sys.buses, ts, k, i);
    assert Owed(sys.buses, i, ts[k]) == ts[k].seatCount;
  }

  /** A cancellation of ticket `k` keeps the ledger. */
  lemma CancelledKeepsBalance(sys: System, s': System, k: nat)
    requires Balanced(sys) && forall t | t in sys.tickets :: Tickets.Valid(t)
    requires k < |sys.tickets| && CancelledAt(sys, s', k)
    ensures Balanced(s')
  {
    var t := sys.tickets[k];
    BalancedRefundFits(sys, k);
    var i := FindBus(sys.buses, t.busName).value;
    assert Shifted(sys.buses, s'.buses, i, t.seatCount);
    DropLedger(sys.buses, s'.buses, sys.tickets, k, i);
  }

  /** `cancel_ticket` keeps the ledger. */
  lemma CancelKeepsBalance(sys: System, ticketId: int)
    requires Inv(sys) && Balanced(sys)
    ensures Balanced(Cancel(sys, ticketId).0)
  {
    var (s', found) := Cancel(sys, ticketId);
    if found {
      CancelledKeepsBalance(sys, s', FindTicket(sys.tickets, ticketId).value);
    }
  }

  /** In a balanced state, cancelling a live ticket gives its bus back
      exactly the ticket's seats, and no seat leaves the system. */
  lemma CancelRefundsSeats(sys: System, ticketId: int)
    requires Inv(sys) && Balanced(sys)
    ensures var (s', found) := Cancel(sys, ticketId);
      found ==>
        var t := sys.tickets[FindTicket(sys.tickets, ticketId).value];
        && FindBus(sys.buses, t.busName).Some?
        && s'.buses[FindBus(sys.buses, t.busName).value].availableSeats
             == sys.buses[FindBus(sys.buses, t.busName).value].availableSeats + t.seatCount
        && SeatTotal(s') == SeatTotal(sys)
  {
    var (s', found) := Cancel(sys, ticketId);
    if found {
      BalancedRefundFits(sys, FindTicket(sys.tickets, ticketId).value);
      CancelConservesSeats(sys, ticketId);
    }
  }

  // -------------------------------------------------------------- sessions

  /** One call a client makes against the booking system. */
  datatype Request =
    | BookRequest(busName: string, passengerName: string, contact: string, seatCount: int)
    | CancelRequest(ticketId: int)

  /** The state after one request; the invariant and the ledger survive it. */
  function Serve(sys: System, req: Request): (r: System)
    requires Inv(sys) && Balanced(sys)
    ensures Inv(r) && Balanced(r)
  {
    match req
    case BookRequest(busName, passengerName, contact, seatCount) =>
      BookPreservesInv(sys, busName, passengerName, contact, seatCount);
      BookKeepsBalance(sys, busName, passengerName, contact, seatCount);
      Book(sys, busName, passengerName, contact, seatCount).state
    case CancelRequest(ticketId) =>
      CancelPreservesInv(sys, ticketId);
      CancelKeepsBalance(sys, ticketId);
      Cancel(sys, ticketId).0
  }

  /** The state after a whole session of requests, in order. */
  function Run(sys: System, reqs: seq<Request>): (r: System)
    requires Inv(sys) && Balanced(sys)
    ensures Inv(r) && Balanced(r)
    decreases |reqs|
  {
    if reqs == [] then sys else Run(Serve(sys, reqs[0]), reqs[1..])
  }

  /** The state a fresh store starts in. */
  function FreshSystem(): (r: System)
    ensures Inv(r) && Balanced(r)
    ensures r.tickets == [] && r.store.nextTicketId == 1
  {
    FreshInit();
    FreshBalanced();
    Init(Fresh()).value
  }

  /** Whatever a session did since a fresh start, cancelling a live ticket
      hands its bus back exactly the ticket's seats. */
  lemma SessionRefunds(reqs: seq<Request>, ticketId: int)
    ensures var sys := Run(FreshSystem(), reqs);
      var (s', found) := Cancel(sys, ticketId);
      found ==>
        var t := sys.tickets[FindTicket(sys.tickets, ticketId).value];
        && FindBus(sys.buses, t.busName).Some?
        && s'.buses[FindBus(sys.buses, t.busName).value].availableSeats
             == sys.buses[FindBus(sys.buses, t.busName).value].availableSeats + t.seatCount
  {
    CancelRefundsSeats(Run(FreshSystem(), reqs), ticketId);
  }
}
