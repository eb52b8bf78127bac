/**
 One completed booking (`Ticket` in ticket.py): a value record that
 freezes a snapshot of the bus it was sold against.
 */
module Tickets {
  import opened Results
  import opened Text
  import opened Records

  datatype Ticket = Ticket(
    ticketId: int,
    busId: string,
    passengerName: string,
    contactNumber: string,
    busName: string,
    origin: string,
    destination: string,
    departureTime: string,
    seatCount: int,
    pricePaid: int)

  /** What every constructed ticket satisfies: a positive seat count, a
      non-negative price and six trimmed text fields. The bus id is kept
      verbatim and is not constrained. */
  predicate Valid(t: Ticket) {
    && t.seatCount > 0
    && t.pricePaid >= 0
    && Trimmed(t.passengerName) && Trimmed(t.contactNumber)
    && Trimmed(t.busName) && Trimmed(t.origin)
    && Trimmed(t.destination) && Trimmed(t.departureTime)
  }

  /** The constructor `Ticket(...)`. Only the seat count and the price are
      validated; empty passenger or contact strings are accepted. */
  function New(ticketId: int, busId: string, passengerName: string, contactNumber: string,
               busName: string, origin: string, destination: string, departureTime: string,
               seatCount: int, pricePaid: int): (r: Result<Ticket>)
    ensures r.Ok? <==> seatCount > 0 && pricePaid >= 0
    ensures r.Err? ==> r.error == InvalidArgument
    ensures r.Ok? ==> Valid(r.value)
    ensures r.Ok? ==>
      && r.value.ticketId == ticketId && r.value.busId == busId
      && r.value.seatCount == seatCount && r.value.pricePaid == pricePaid
    ensures r.Ok? ==>
      && r.value.passengerName == Strip(passengerName) && r.value.contactNumber == Strip(contactNumber)
      && r.value.busName == Strip(busName) && r.value.origin == Strip(origin)
      && r.value.destination == Strip(destination) && r.value.departureTime == Strip(departureTime)
  {
    if seatCount <= 0 then Err(InvalidArgument)
    else if pricePaid < 0 then Err(InvalidArgument)
    else Ok(Ticket(ticketId, busId, Strip(passengerName), Strip(contactNumber), Strip(busName),
                   Strip(origin), Strip(destination), Strip(departureTime), seatCount, pricePaid))
  }

  /** Reconstructing a valid ticket from its own fields gives it back unchanged. */
  lemma NewOfValid(t: Ticket)
    requires Valid(t)
    ensures New(t.ticketId, t.busId, t.passengerName, t.contactNumber, t.busName,
                t.origin, t.destination, t.departureTime, t.seatCount, t.pricePaid) == Ok(t)
  {
  }

  /** The ten keys `to_dict` writes. */
  const Fields: set<string> :=
    {"ticket_id", "bus_id", "passenger_name", "contact_number", "bus_name",
     "origin", "destination", "departure_time", "seat_count", "price_paid"}

  /** The stored form of a record, one entry per attribute; the persisted
      sections are lists of these. */
  function Entries(t: Ticket): Dict
  {
    map[
      "ticket_id" := Int(t.ticketId),
      "bus_id" := Str(t.busId),
      "passenger_name" := Str(t.passengerName),
      "contact_number" := Str(t.contactNumber),
      "bus_name" := Str(t.busName),
      "origin" := Str(t.origin),
      "destination" := Str(t.destination),
      "departure_time" := Str(t.departureTime),
      "seat_count" := Int(t.seatCount),
      "price_paid" := Int(t.pricePaid)]
  }

  /** `to_dict`: one entry per attribute, holding that attribute's value. */
  function ToDict(t: Ticket): (d: Dict)
    ensures d.Keys == Fields
    ensures d["ticket_id"] == Int(t.ticketId) && d["bus_id"] == Str(t.busId)
    ensures d["passenger_name"] == Str(t.passengerName) && d["contact_number"] == Str(t.contactNumber)
    ensures d["bus_name"] == Str(t.busName) && d["origin"] == Str(t.origin)
    ensures d["destination"] == Str(t.destination) && d["departure_time"] == Str(t.departureTime)
    ensures d["seat_count"] == Int(t.seatCount) && d["price_paid"] == Int(t.pricePaid)
  {
    Entries(t)
  }

  /** The numeric fields `from_dict` passes through `int(...)` are present integers. */
  predicate NumbersOk(d: Dict) {
    HasInt(d, "ticket_id") && HasInt(d, "seat_count") && HasInt(d, "price_paid")
  }

  /** The seven text fields are present strings. */
  predicate TextOk(d: Dict) {
    && HasStr(d, "bus_id")
    && HasStr(d, "passenger_name") && HasStr(d, "contact_number")
    && HasStr(d, "bus_name") && HasStr(d, "origin")
    && HasStr(d, "destination") && HasStr(d, "departure_time")
  }

  /** All ten fields are present with the kind of value the ticket stores. */
  predicate WellShaped(d: Dict) {
    NumbersOk(d) && TextOk(d)
  }

  /** `from_dict`. A missing key or a non-integer count fails while the
      arguments are gathered, as a corrupt record; the constructor then
      checks the seat count and the price before it strips any text field,
      so those two checks win over a text field that is not a string. */
  function FromDict(d: Dict): (r: Result<Ticket>)
    ensures !(NumbersOk(d) && Fields <= d.Keys) ==> r == Err(CorruptStore)
    ensures NumbersOk(d) && Fields <= d.Keys && (d["seat_count"].i <= 0 || d["price_paid"].i < 0)
            ==> r == Err(InvalidArgument)
    ensures NumbersOk(d) && Fields <= d.Keys && d["seat_count"].i > 0 && d["price_paid"].i >= 0 && !TextOk(d)
            ==> r == Err(CorruptStore)
    ensures r.Ok? <==> WellShaped(d) && d["seat_count"].i > 0 && d["price_paid"].i >= 0
    ensures r.Ok? ==> Valid(r.value)
    ensures r.Ok? ==>
      && r.value.ticketId == d["ticket_id"].i && r.value.busId == d["bus_id"].s
      && r.value.seatCount == d["seat_count"].i && r.value.pricePaid == d["price_paid"].i
    ensures r.Ok? ==>
      && r.value.passengerName == Strip(d["passenger_name"].s)
      && r.value.contactNumber == Strip(d["contact_number"].s)
      && r.value.busName == Strip(d["bus_name"].s)
      && r.value.origin == Strip(d["origin"].s)
      && r.value.destination == Strip(d["destination"].s)
      && r.value.departureTime == Strip(d["departure_time"].s)
  {
    if !(NumbersOk(d) && Fields <= d.Keys) then Err(CorruptStore)
    else if d["seat_count"].i <= 0 || d["price_paid"].i < 0 then Err(InvalidArgument)
    else if !TextOk(d) then Err(CorruptStore)
    else
      New(d["ticket_id"].i, d["bus_id"].s, d["passenger_name"].s, d["contact_number"].s,
          d["bus_name"].s, d["origin"].s, d["destination"].s, d["departure_time"].s,
          d["seat_count"].i, d["price_paid"].i)
  }

  /** `from_dict(to_dict(t)) == t` for every valid ticket. */
  lemma RoundTrip(t: Ticket)
    requires Valid(t)
    ensures FromDict(ToDict(t)) == Ok(t)
  {
    assert WellShaped(ToDict(t));
    NewOfValid(t);
  }
}
