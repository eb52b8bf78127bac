/**
 The durable store (`DataStore` in booking_system.py), modelled as an
 in-memory record of its three sections: the bus records, the ticket
 records and the next ticket id.
 */
module Store {
  import opened Results
  import opened Records
  import opened Seqs
  import Buses
  import Tickets

  datatype DataStore = DataStore(buses: seq<Dict>, tickets: seq<Dict>, nextTicketId: int)

  /** The store written when no backing file exists yet. */
  function Fresh(): DataStore {
    DataStore([], [], 1)
  }

  /** The bus section as `save_buses` writes it. */
  function DumpBuses(bs: seq<Buses.Bus>): seq<Dict> {
    if bs == [] then [] else [Buses.Entries(bs[0])] + DumpBuses(bs[1..])
  }

  /** The ticket section as `save_tickets` writes it. */
  function DumpTickets(ts: seq<Tickets.Ticket>): seq<Dict> {
    if ts == [] then [] else [Tickets.Entries(ts[0])] + DumpTickets(ts[1..])
  }

  /** `load_buses`: decodes every record; the first bad record aborts the load. */
  function LoadBuses(s: DataStore): (r: Result<seq<Buses.Bus>>)
    ensures r.Ok? <==> forall i | 0 <= i < |s.buses| :: Buses.FromDict(s.buses[i]).Ok?
    ensures r.Ok? ==> |r.value| == |s.buses|
    ensures r.Ok? ==> forall i | 0 <= i < |s.buses| :: Buses.FromDict(s.buses[i]) == Ok(r.value[i])
    ensures r.Ok? ==> forall b | b in r.value :: Buses.Valid(b)
    ensures r.Err? ==> exists i | 0 <= i < |s.buses| ::
      Buses.FromDict(s.buses[i]) == Err(r.error) && forall j | 0 <= j < i :: Buses.FromDict(s.buses[j]).Ok?
  {
    MapResult(s.buses, Buses.FromDict)
  }

  /** `load_tickets`: decodes every record; the first bad record aborts the load. */
  function LoadTickets(s: DataStore): (r: Result<seq<Tickets.Ticket>>)
    ensures r.Ok? <==> forall i | 0 <= i < |s.tickets| :: Tickets.FromDict(s.tickets[i]).Ok?
    ensures r.Ok? ==> |r.value| == |s.tickets|
    ensures r.Ok? ==> forall i | 0 <= i < |s.tickets| :: Tickets.FromDict(s.tickets[i]) == Ok(r.value[i])
    ensures r.Ok? ==> forall t | t in r.value :: Tickets.Valid(t)
    ensures r.Err? ==> exists i | 0 <= i < |s.tickets| ::
      Tickets.FromDict(s.tickets[i]) == Err(r.error) && forall j | 0 <= j < i :: Tickets.FromDict(s.tickets[j]).Ok?
  {
    MapResult(s.tickets, Tickets.FromDict)
  }

  /** `save_buses`: replaces the bus section and nothing else. */
  function SaveBuses(s: DataStore, bs: seq<Buses.Bus>): (r: DataStore)
    ensures |r.buses| == |bs|
    ensures r.tickets == s.tickets && r.nextTicketId == s.nextTicketId
  {
    DumpBusesAt(bs);
    s.(buses := DumpBuses(bs))
  }

  /** `save_tickets`: replaces the ticket section and nothing else. */
  function SaveTickets(s: DataStore, ts: seq<Tickets.Ticket>): (r: DataStore)
    ensures |r.tickets| == |ts|
    ensures r.buses == s.buses && r.nextTicketId == s.nextTicketId
  {
    DumpTicketsAt(ts);
    s.(tickets := DumpTickets(ts))
  }

  /** The bus section holds one record per bus, in order. */
  lemma {:induction false} DumpBusesAt(bs: seq<Buses.Bus>)
    ensures |DumpBuses(bs)| == |bs|
    ensures forall i | 0 <= i < |bs| :: DumpBuses(bs)[i] == Buses.ToDict(bs[i])
  {
    if bs != [] {
      DumpBusesAt(bs[1..]);
      var r := DumpBuses(bs);
      assert r == [Buses.Entries(bs[0])] + DumpBuses(bs[1..]);
      forall i | 0 < i < |bs|
        ensures r[i] == Buses.ToDict(bs[i])
      {
        assert bs[1..][i - 1] == bs[i];
      }
    }
  }

  /** The ticket section holds one record per ticket, in order. */
  lemma {:induction false} DumpTicketsAt(ts: seq<Tickets.Ticket>)
    ensures |DumpTickets(ts)| == |ts|
    ensures forall i | 0 <= i < |ts| :: DumpTickets(ts)[i] == Tickets.ToDict(ts[i])
  {
    if ts != [] {
      DumpTicketsAt(ts[1..]);
      var r := DumpTickets(ts);
      assert r == [Tickets.Entries(ts[0])] + DumpTickets(ts[1..]);
      forall i | 0 < i < |ts|
        ensures r[i] == Tickets.ToDict(ts[i])
      {
        assert ts[1..][i - 1] == ts[i];
      }
    }
  }

  /** Saving valid buses and loading them back yields the same sequence. */
  lemma LoadSaveBuses(s: DataStore, bs: seq<Buses.Bus>)
    requires forall b | b in bs :: Buses.Valid(b)
    ensures LoadBuses(SaveBuses(s, bs)) == Ok(bs)
  {
    var d := SaveBuses(s, bs).buses;
    DumpBusesAt(bs);
    forall i | 0 <= i < |bs|
      ensures Buses.FromDict(d[i]) == Ok(bs[i])
    {
      Buses.RoundTrip(bs[i]);
    }
    MapResultAllOk(d, Buses.FromDict, bs);
  }

  /** Saving valid tickets and loading them back yields the same sequence. */
  lemma LoadSaveTickets(s: DataStore, ts: seq<Tickets.Ticket>)
    requires forall t | t in ts :: Tickets.Valid(t)
    ensures LoadTickets(SaveTickets(s, ts)) == Ok(ts)
  {
    var d := SaveTickets(s, ts).tickets;
    DumpTicketsAt(ts);
    forall i | 0 <= i < |ts|
      ensures Tickets.FromDict(d[i]) == Ok(ts[i])
    {
      Tickets.RoundTrip(ts[i]);
    }
    MapResultAllOk(d, Tickets.FromDict, ts);
  }

  /** `get_next_ticket_id`: hands out the current counter and advances it by one;
      the two record sections are untouched. */
  function NextTicketId(s: DataStore): (r: (int, DataStore))
    ensures r.0 == s.nextTicketId && r.1.nextTicketId == r.0 + 1
    ensures r.1.buses == s.buses && r.1.tickets == s.tickets
  {
    (s.nextTicketId, s.(nextTicketId := s.nextTicketId + 1))
  }

  /** The ids handed out by `n` successive `get_next_ticket_id` calls, and the store after them. */
  function IssueIds(s: DataStore, n: nat): (r: (seq<int>, DataStore))
    ensures |r.0| == n
    ensures forall k | 0 <= k < n :: r.0[k] == s.nextTicketId + k
    ensures forall i, j | 0 <= i < j < n :: r.0[i] < r.0[j]
    ensures r.1 == s.(nextTicketId := s.nextTicketId + n)
    decreases n
  {
    if n == 0 then ([], s)
    else
      var (id, s1) := NextTicketId(s);
      var (rest, s2) := IssueIds(s1, n - 1);
      ([id] + rest, s2)
  }

  /** A fresh store hands out 1, 2, 3, ... */
  lemma FreshIssuesFromOne(n: nat)
    ensures IssueIds(Fresh(), n).0 == seq(n, k => k + 1)
  {
  }
}
