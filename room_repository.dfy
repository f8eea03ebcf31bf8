/** The room repository: lookups over the rooms table and its absolute availability write. */
module RoomRepository {
  import opened Domain

  /** Every row is stored under its own id. */
  predicate KeyedById(rooms: map<Id, Room>) {
    forall id | id in rooms :: rooms[id].id == id
  }

  /** Every id in the table is below `n`. */
  predicate IdsBelow(rooms: map<Id, Room>, n: nat) {
    forall id | id in rooms :: id < n
  }

  /** The default of the availability column. Create leaves a zero-valued field that has a default
      out of the insert, so the database stores the default and it is written back. */
  const AvailabilityDefault: int := 1

  /** The row Create stores for `r`: a zero availability is replaced by the column default. */
  function WithDefaults(r: Room): Room {
    if r.availability == 0 then r.(availability := AvailabilityDefault) else r
  }

  /** FindByID: the row stored under `id`, or the store's not-found error. */
  function FindByID(rooms: map<Id, Room>, id: Id): (r: Result<Room, StoreError>)
    ensures r.Ok? <==> id in rooms
    ensures r.Ok? ==> r.value == rooms[id]
  {
    if id in rooms then Ok(rooms[id]) else Err(RecordNotFound)
  }

  /** FindByHotel: the hotel's rooms with an id below `n`, in increasing id order. */
  function FindByHotel(rooms: map<Id, Room>, hotelId: Id, n: nat): (r: seq<Room>)
    ensures forall i | 0 <= i < |r| :: r[i].hotelId == hotelId
  {
    if n == 0 then []
    else
      var k := n - 1;
      FindByHotel(rooms, hotelId, k) + (if k in rooms && rooms[k].hotelId == hotelId then [rooms[k]] else [])
  }

  /** Over a table whose ids are all below `n`, FindByHotel lists exactly the stored rows of that
      hotel, each once (the ids strictly increase). */
  lemma {:induction false} FindByHotelExact(rooms: map<Id, Room>, hotelId: Id, n: nat)
    requires KeyedById(rooms)
    ensures var r := FindByHotel(rooms, hotelId, n);
      && (forall x :: x in r <==> x.id < n && x.id in rooms && rooms[x.id] == x && x.hotelId == hotelId)
      && (forall i, j | 0 <= i < j < |r| :: r[i].id < r[j].id)
  {
    if n > 0 {
      FindByHotelExact(rooms, hotelId, n - 1);
      var r' := FindByHotel(rooms, hotelId, n - 1);
      forall i | 0 <= i < |r'| ensures r'[i].id < n - 1 {
        assert r'[i] in r';
      }
    }
  }

  /** UpdateAvailability: sets the row's availability to exactly `v` (an absolute value, not a
      delta); no other column and no other row changes, and an unknown id changes nothing. */
  function SetAvailability(rooms: map<Id, Room>, id: Id, v: int): (r: map<Id, Room>)
    ensures r.Keys == rooms.Keys
    ensures id in rooms ==> r[id] == rooms[id].(availability := v)
    ensures forall k | k in rooms && k != id :: r[k] == rooms[k]
  {
    if id in rooms then rooms[id := rooms[id].(availability := v)] else rooms
  }
}
