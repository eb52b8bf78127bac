/**
 One scheduled trip and its seat inventory (`Bus` in bus.py).
 */
module Buses {
  import opened Results
  import opened Text
  import opened Records

  datatype Bus = Bus(
    name: string,
    origin: string,
    destination: string,
    departureTime: string,
    totalSeats: int,
    pricePerTicket: int,
    availableSeats: int)

  /** What every constructed bus satisfies: non-empty trimmed name and
      route, trimmed departure label, positive capacity and price, and
      `0 <= availableSeats <= totalSeats`. */
  predicate Valid(b: Bus) {
    && b.name != [] && Trimmed(b.name)
    && b.origin != [] && Trimmed(b.origin)
    && b.destination != [] && Trimmed(b.destination)
    && Trimmed(b.departureTime)
    && b.totalSeats > 0
    && b.pricePerTicket > 0
    && 0 <= b.availableSeats <= b.totalSeats
  }

  /** The free-seat count a new bus starts with: the count given, or the
      whole capacity when the caller passed `None`. */
  function InitialSeats(availableSeats: Option<int>, totalSeats: int): int {
    if availableSeats.Some? then availableSeats.value else totalSeats
  }

  /** The constructor `Bus(...)`: validates, trims the four text fields and
      defaults an omitted seat count to the full capacity. */
  function New(name: string, origin: string, destination: string, departureTime: string,
               totalSeats: int, pricePerTicket: int, availableSeats: Option<int>): (r: Result<Bus>)
    ensures r.Ok? <==>
      && (exists k | 0 <= k < |name| :: !IsSpace(name[k]))
      && (exists k | 0 <= k < |origin| :: !IsSpace(origin[k]))
      && (exists k | 0 <= k < |destination| :: !IsSpace(destination[k]))
      && totalSeats > 0
      && pricePerTicket > 0
      && 0 <= InitialSeats(availableSeats, totalSeats) <= totalSeats
    ensures r.Err? ==> r.error == InvalidArgument
    ensures r.Ok? ==> Valid(r.value)
    ensures r.Ok? ==>
      && r.value.name == Strip(name) && r.value.origin == Strip(origin)
      && r.value.destination == Strip(destination) && r.value.departureTime == Strip(departureTime)
    ensures r.Ok? ==> r.value.totalSeats == totalSeats && r.value.pricePerTicket == pricePerTicket
    ensures r.Ok? && availableSeats.None? ==> r.value.availableSeats == totalSeats
    ensures r.Ok? && availableSeats.Some? ==> r.value.availableSeats == availableSeats.value
  {
    if Strip(name) == [] then Err(InvalidArgument)
    else if Strip(origin) == [] || Strip(destination) == [] then Err(InvalidArgument)
    else if totalSeats <= 0 then Err(InvalidArgument)
    else if pricePerTicket <= 0 then Err(InvalidArgument)
    else
      var seats := InitialSeats(availableSeats, totalSeats);
      if seats < 0 || seats > totalSeats then Err(InvalidArgument)
      else Ok(Bus(Strip(name), Strip(origin), Strip(destination), Strip(departureTime),
                  totalSeats, pricePerTicket, seats))
  }

  /** Reconstructing a valid bus from its own fields gives it back unchanged. */
  lemma NewOfValid(b: Bus)
    requires Valid(b)
    ensures New(b.name, b.origin, b.destination, b.departureTime,
                b.totalSeats, b.pricePerTicket, Some(b.availableSeats)) == Ok(b)
  {
  }

  /** `book_seat(count)`: the updated bus and whether the booking succeeded. */
  function BookSeat(b: Bus, count: int): (r: (Bus, bool))
    ensures r.1 <==> 0 < count <= b.availableSeats
    ensures r.1 ==> r.0.availableSeats == b.availableSeats - count
    ensures r.0 == b.(availableSeats := r.0.availableSeats)
    ensures !r.1 ==> r.0 == b
    ensures Valid(b) ==> Valid(r.0)
  {
    if count <= 0 then (b, false)
    else if b.availableSeats >= count then (b.(availableSeats := b.availableSeats - count), true)
    else (b, false)
  }

  /** `refund_seat(count)`: the updated bus and whether the refund succeeded. */
  function RefundSeat(b: Bus, count: int): (r: (Bus, bool))
    ensures r.1 <==> 0 < count && b.availableSeats + count <= b.totalSeats
    ensures r.1 ==> r.0.availableSeats == b.availableSeats + count
    ensures r.0 == b.(availableSeats := r.0.availableSeats)
    ensures !r.1 ==> r.0 == b
    ensures Valid(b) ==> Valid(r.0)
  {
    if count <= 0 then (b, false)
    else if b.availableSeats + count <= b.totalSeats then (b.(availableSeats := b.availableSeats + count), true)
    else (b, false)
  }

  /** A successful booking can always be refunded, and the refund restores the bus exactly. */
  lemma BookThenRefund(b: Bus, n: int)
    requires Valid(b)
    requires BookSeat(b, n).1
    ensures RefundSeat(BookSeat(b, n).0, n) == (b, true)
  {
  }

  /** The seven keys `to_dict` writes. */
  const Fields: set<string> :=
    {"name", "origin", "destination", "departure_time", "total_seats", "price_per_ticket", "available_seats"}

  /** The stored form of a record, one entry per attribute; the persisted
      sections are lists of these. */
  function Entries(b: Bus): Dict
  {
    map[
      "name" := Str(b.name),
      "origin" := Str(b.origin),
      "destination" := Str(b.destination),
      "departure_time" := Str(b.departureTime),
      "total_seats" := Int(b.totalSeats),
      "price_per_ticket" := Int(b.pricePerTicket),
      "available_seats" := Int(b.availableSeats)]
  }

  /** `to_dict`: one entry per attribute, holding that attribute's value. */
  function ToDict(b: Bus): (d: Dict)
    ensures d.Keys == Fields
    ensures d["name"] == Str(b.name) && d["origin"] == Str(b.origin)
    ensures d["destination"] == Str(b.destination) && d["departure_time"] == Str(b.departureTime)
    ensures d["total_seats"] == Int(b.totalSeats) && d["price_per_ticket"] == Int(b.pricePerTicket)
    ensures d["available_seats"] == Int(b.availableSeats)
  {
    Entries(b)
  }

  /** The six keys `from_dict` reads unconditionally. */
  predicate Present(d: Dict) {
    && "name" in d && "origin" in d && "destination" in d && "departure_time" in d
    && "total_seats" in d && "price_per_ticket" in d
  }

  /** The numeric fields `from_dict` passes through `int(...)` are integers. */
  predicate NumbersOk(d: Dict) {
    && HasInt(d, "total_seats") && HasInt(d, "price_per_ticket")
    && ("available_seats" in d ==> d["available_seats"].Int?)
  }

  /** Every field is present with the kind of value the bus stores. */
  predicate WellShaped(d: Dict) {
    && Present(d) && NumbersOk(d)
    && d["name"].Str? && d["origin"].Str? && d["destination"].Str? && d["departure_time"].Str?
  }

  /** The text field under `key` is a string that is not blank. */
  predicate Filled(d: Dict, key: string)
    requires key in d
  {
    d[key].Str? && Strip(d[key].s) != []
  }

  /** The seat count `from_dict` passes on: the stored one, else the capacity. */
  function StoredSeats(d: Dict): int
    requires NumbersOk(d)
  {
    if "available_seats" in d then d["available_seats"].i else d["total_seats"].i
  }

  /** `from_dict`. A missing key or a non-integer count fails while the
      arguments are gathered, as a corrupt record. The constructor then
      meets the text fields in its own order: a field that is not a string
      is a corrupt record when it is reached, a blank one is an invalid
      argument, and `departure_time` is reached only after the numeric
      checks. */
  function FromDict(d: Dict): (r: Result<Bus>)
    ensures !(Present(d) && NumbersOk(d)) ==> r == Err(CorruptStore)
    ensures Present(d) && NumbersOk(d) && !d["name"].Str? ==> r == Err(CorruptStore)
    ensures Present(d) && NumbersOk(d) && d["name"].Str? && Strip(d["name"].s) == []
            ==> r == Err(InvalidArgument)
    ensures Present(d) && NumbersOk(d) && Filled(d, "name") && !d["origin"].Str?
            ==> r == Err(CorruptStore)
    ensures Present(d) && NumbersOk(d) && Filled(d, "name") && d["origin"].Str? && Strip(d["origin"].s) == []
            ==> r == Err(InvalidArgument)
    ensures Present(d) && NumbersOk(d) && Filled(d, "name") && Filled(d, "origin") && !d["destination"].Str?
            ==> r == Err(CorruptStore)
    ensures Present(d) && NumbersOk(d) && Filled(d, "name") && Filled(d, "origin")
            && d["destination"].Str? && Strip(d["destination"].s) == []
            ==> r == Err(InvalidArgument)
    ensures Present(d) && NumbersOk(d) && Filled(d, "name") && Filled(d, "origin") && Filled(d, "destination")
            && (d["total_seats"].i <= 0 || d["price_per_ticket"].i <= 0)
            ==> r == Err(InvalidArgument)
    ensures Present(d) && NumbersOk(d) && Filled(d, "name") && Filled(d, "origin") && Filled(d, "destination")
            && d["total_seats"].i > 0 && d["price_per_ticket"].i > 0 && !d["departure_time"].Str?
            ==> r == Err(CorruptStore)
    ensures WellShaped(d) && r.Err? ==> r.error == InvalidArgument
    ensures r.Ok? <==>
      && WellShaped(d)
      && Strip(d["name"].s) != [] && Strip(d["origin"].s) != [] && Strip(d["destination"].s) != []
      && d["total_seats"].i > 0 && d["price_per_ticket"].i > 0
      && 0 <= StoredSeats(d) <= d["total_seats"].i
    ensures r.Ok? ==> Valid(r.value)
    ensures r.Ok? ==>
      && r.value.name == Strip(d["name"].s) && r.value.origin == Strip(d["origin"].s)
      && r.value.destination == Strip(d["destination"].s)
      && r.value.departureTime == Strip(d["departure_time"].s)
    ensures r.Ok? ==>
      && r.value.totalSeats == d["total_seats"].i && r.value.pricePerTicket == d["price_per_ticket"].i
      && r.value.availableSeats == StoredSeats(d)
  {
    if !(Present(d) && NumbersOk(d)) then Err(CorruptStore)
    else if !d["name"].Str? then Err(CorruptStore)
    else if Strip(d["name"].s) == [] then Err(InvalidArgument)
    else if !d["origin"].Str? then Err(CorruptStore)
    else if Strip(d["origin"].s) == [] then Err(InvalidArgument)
    else if !d["destination"].Str? then Err(CorruptStore)
    else if Strip(d["destination"].s) == [] then Err(InvalidArgument)
    else if d["total_seats"].i <= 0 || d["price_per_ticket"].i <= 0 then Err(InvalidArgument)
    else if !d["departure_time"].Str? then Err(CorruptStore)
    else
      New(d["name"].s, d["origin"].s, d["destination"].s, d["departure_time"].s,
          d["total_seats"].i, d["price_per_ticket"].i, Some(StoredSeats(d)))
  }

  /** `from_dict(to_dict(b)) == b` for every valid bus. */
  lemma RoundTrip(b: Bus)
    requires Valid(b)
    ensures FromDict(ToDict(b)) == Ok(b)
  {
    var d := ToDict(b);
    assert WellShaped(d) && StoredSeats(d) == b.availableSeats;
    NewOfValid(b);
  }

  /** A record without `available_seats` loads as a bus whose every seat is free. */
  lemma FromDictDefaultsSeats(d: Dict)
    requires "available_seats" !in d
    requires HasInt(d, "total_seats")
    ensures FromDict(d) == FromDict(d["available_seats" := d["total_seats"]])
  {
    var d' := d["available_seats" := d["total_seats"]];
    assert forall key | key != "available_seats" :: (key in d <==> key in d') && (key in d ==> d[key] == d'[key]);
    assert Present(d) == Present(d');
    assert NumbersOk(d) == NumbersOk(d');
    assert NumbersOk(d) ==> StoredSeats(d) == StoredSeats(d');
  }
}
