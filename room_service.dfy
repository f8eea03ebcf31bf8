/** The room service: field validation on create and update, lookups by hotel and by id, the
    availability filter and the availability check. */
module RoomService {
  import opened Domain
  import opened Store
  import RR = RoomRepository
  import HR = HotelRepository

  /** The service's failures; the comments give the messages. */
  datatype RoomError =
    | HotelNotFound         // "hotel not found"
    | InvalidPrice          // "price per night must be greater than 0"
    | NegativeAvailability  // "availability cannot be negative"
    | RoomTypeRequired      // "room type is required"
    | RoomNotFound          // "room not found"

  /** What every room written through the service satisfies. */
  predicate WellFormedRoom(r: Room) {
    r.pricePerNight > 0 && r.availability >= 0 && r.roomType != ""
  }

  /** The field checks shared by CreateRoom and UpdateRoom, in their order: price, then
      availability, then room type; the first that fails decides the error. */
  function CheckFields(r: Room): (e: Option<RoomError>)
    ensures e.None? <==> WellFormedRoom(r)
    ensures e == Some(InvalidPrice) <==> r.pricePerNight <= 0
    ensures e == Some(NegativeAvailability) <==> r.pricePerNight > 0 && r.availability < 0
    ensures e == Some(RoomTypeRequired) <==> r.pricePerNight > 0 && r.availability >= 0 && r.roomType == ""
  {
    if r.pricePerNight <= 0 then Some(InvalidPrice)
    else if r.availability < 0 then Some(NegativeAvailability)
    else if r.roomType == "" then Some(RoomTypeRequired)
    else None
  }

  /** CreateRoom with the hotel lookup preloading `preload`: any lookup error is reported as
      HotelNotFound, then the field checks; on success the room is stored under a fresh id. */
  function CreateRoomWith(s: State, room: Room, preload: string): (o: Step<Id, RoomError>)
    ensures o.result.Err? ==> o.state == s
    ensures o.result == Err(HotelNotFound) <==> HR.FindByID(s.hotels, room.hotelId, preload).Err?
  {
    if HR.FindByID(s.hotels, room.hotelId, preload).Err? then Step(s, Err(HotelNotFound))
    else
      match CheckFields(room)
      case Some(e) => Step(s, Err(e))
      case None =>
        var id := s.nextId;
        Step(s.(rooms := s.rooms[id := RR.WithDefaults(room).(id := id)], nextId := id + 1), Ok(id))
  }

  /** CreateRoom as written: its hotel lookup preloads an association Hotel does not have, so
      every call is answered HotelNotFound and nothing is stored. */
  function CreateRoomAsWritten(s: State, room: Room): (o: Step<Id, RoomError>)
    ensures o == Step(s, Err(HotelNotFound))
  {
    HR.AsWrittenNeverFinds(s.hotels, room.hotelId);
    CreateRoomWith(s, room, HR.PreloadAsWritten)
  }

  /** The net effect of CreateRoom with the lookup it evidently means: the hotel must exist, then
      the field checks; on success the room is stored under a fresh id, with a zero
      availability replaced by the column default. */
  function CreateRoomStep(s: State, room: Room): (o: Step<Id, RoomError>)
    ensures o.result.Err? ==> o.state == s
    ensures o.result == Err(HotelNotFound) <==> room.hotelId !in s.hotels
    ensures room.hotelId in s.hotels && CheckFields(room).Some? ==> o.result == Err(CheckFields(room).value)
    ensures o.result.Ok? <==> room.hotelId in s.hotels && WellFormedRoom(room)
    ensures o.result.Ok? ==>
      var id := o.result.value;
      && id == s.nextId
      && o.state == s.(rooms := s.rooms[id := RR.WithDefaults(room).(id := id)], nextId := id + 1)
      && o.state.rooms[id].availability == (if room.availability == 0 then RR.AvailabilityDefault else room.availability)
      && WellFormedRoom(o.state.rooms[id])
  {
    HR.IntendedFindsStored(s.hotels, room.hotelId);
    CreateRoomWith(s, room, HR.PreloadIntended)
  }

  /** The two differ exactly when the hotel exists: the as-written call still refuses a
      well-formed room that the intended one stores. */
  lemma CreateRoomAsWrittenRefusesStoredHotel(s: State, room: Room)
    requires room.hotelId in s.hotels && WellFormedRoom(room)
    ensures CreateRoomAsWritten(s, room).result == Err(HotelNotFound)
    ensures CreateRoomStep(s, room).result == Ok(s.nextId)
  {
  }

  /** The net effect of UpdateRoom: the room must exist, then the field checks; on success the
      row is replaced, keeping the stored hotel whatever the input said. */
  function UpdateRoomStep(s: State, room: Room): (o: Step<(), RoomError>)
    ensures o.result.Err? ==> o.state == s
    ensures o.result == Err(RoomNotFound) <==> room.id !in s.rooms
    ensures room.id in s.rooms && CheckFields(room).Some? ==> o.result == Err(CheckFields(room).value)
    ensures o.result.Ok? <==> room.id in s.rooms && WellFormedRoom(room)
    ensures o.result.Ok? ==>
      && o.state == s.(rooms := s.rooms[room.id := room.(hotelId := s.rooms[room.id].hotelId)])
      && WellFormedRoom(o.state.rooms[room.id])
  {
    match RR.FindByID(s.rooms, room.id)
    case Err(_) => Step(s, Err(RoomNotFound))
    case Ok(existing) =>
      match CheckFields(room)
      case Some(e) => Step(s, Err(e))
      case None => Step(s.(rooms := s.rooms[room.id := room.(hotelId := existing.hotelId)]), Ok(()))
  }

  /** Room writes keep the store's structure, availability non-negative, and touch no booking. */
  lemma RoomWritesPreserveInvariants(s: State, room: Room)
    requires Valid(s)
    ensures var c := CreateRoomStep(s, room).state;
      Valid(c) && (AvailabilityNonNegative(s) ==> AvailabilityNonNegative(c)) && c.bookings == s.bookings
    ensures var u := UpdateRoomStep(s, room).state;
      Valid(u) && (AvailabilityNonNegative(s) ==> AvailabilityNonNegative(u)) && u.bookings == s.bookings
  {
  }

  /** CreateRoom: the checks, then the repository's Create. */
  method CreateRoom(db: Database, room: Room) returns (r: Result<Id, RoomError>)
    requires Valid(db.Snapshot())
    modifies db
    ensures Step(db.Snapshot(), r) == CreateRoomStep(old(db.Snapshot()), room)
    ensures Valid(db.Snapshot())
  {
    RoomWritesPreserveInvariants(db.Snapshot(), room);
    if HR.FindByID(db.hotels, room.hotelId, HR.PreloadIntended).Err? {
      return Err(HotelNotFound);
    }
    var invalid := CheckFields(room);
    if invalid.Some? {
      return Err(invalid.value);
    }
    var id := db.InsertRoom(room);
    r := Ok(id);
  }

  /** UpdateRoom: load the existing row, the checks, copy the stored hotel id into the input,
      then the repository's Update. */
  method UpdateRoom(db: Database, room: Room) returns (r: Result<(), RoomError>)
    requires Valid(db.Snapshot())
    modifies db
    ensures Step(db.Snapshot(), r) == UpdateRoomStep(old(db.Snapshot()), room)
    ensures Valid(db.Snapshot())
  {
    RoomWritesPreserveInvariants(db.Snapshot(), room);
    var existing := RR.FindByID(db.rooms, room.id);
    if existing.Err? {
      return Err(RoomNotFound);
    }
    var invalid := CheckFields(room);
    if invalid.Some? {
      return Err(invalid.value);
    }
    var updated := room.(hotelId := existing.value.hotelId);
    db.SaveRoom(updated);
    r := Ok(());
  }

  /** GetRoomsByHotel with the hotel lookup preloading `preload`: HotelNotFound when the lookup
      fails, otherwise the hotel's rooms. */
  function GetRoomsByHotelWith(s: State, hotelId: Id, preload: string): (r: Result<seq<Room>, RoomError>)
    ensures r.Err? <==> HR.FindByID(s.hotels, hotelId, preload).Err?
    ensures r.Err? ==> r.error == HotelNotFound
  {
    if HR.FindByID(s.hotels, hotelId, preload).Err? then Err(HotelNotFound)
    else Ok(RR.FindByHotel(s.rooms, hotelId, s.nextId))
  }

  /** GetRoomsByHotel as written: HotelNotFound for every hotel. */
  function GetRoomsByHotelAsWritten(s: State, hotelId: Id): (r: Result<seq<Room>, RoomError>)
    ensures r == Err(HotelNotFound)
  {
    HR.AsWrittenNeverFinds(s.hotels, hotelId);
    GetRoomsByHotelWith(s, hotelId, HR.PreloadAsWritten)
  }

  /** GetRoomsByHotel with the lookup it evidently means: an error for an unknown hotel,
      otherwise exactly the hotel's rooms. */
  function GetRoomsByHotel(s: State, hotelId: Id): (r: Result<seq<Room>, RoomError>)
    requires Valid(s)
    ensures r.Err? <==> hotelId !in s.hotels
    ensures r.Err? ==> r.error == HotelNotFound
    ensures r.Ok? ==> forall x :: x in r.value <==> x.id in s.rooms && s.rooms[x.id] == x && x.hotelId == hotelId
  {
    HR.IntendedFindsStored(s.hotels, hotelId);
    RR.FindByHotelExact(s.rooms, hotelId, s.nextId);
    GetRoomsByHotelWith(s, hotelId, HR.PreloadIntended)
  }

  /** For a stored hotel the as-written call refuses, where the intended one lists the rooms. */
  lemma GetRoomsByHotelAsWrittenRefusesStoredHotel(s: State, hotelId: Id)
    requires Valid(s) && hotelId in s.hotels
    ensures GetRoomsByHotelAsWritten(s, hotelId) == Err(HotelNotFound)
    ensures GetRoomsByHotel(s, hotelId).Ok?
  {
  }

  /** GetRoomByID: the stored room, or RoomNotFound. */
  function GetRoomByID(s: State, id: Id): (r: Result<Room, RoomError>)
    ensures r.Ok? <==> id in s.rooms
    ensures r.Ok? ==> r.value == s.rooms[id]
    ensures r.Err? ==> r.error == RoomNotFound
  {
    match RR.FindByID(s.rooms, id)
    case Ok(room) => Ok(room)
    case Err(_) => Err(RoomNotFound)
  }

  /** The rooms of `rooms` with availability above zero, in their original order. */
  function AvailableOnly(rooms: seq<Room>): (r: seq<Room>)
    ensures |r| <= |rooms|
    ensures forall x :: x in r <==> x in rooms && x.availability > 0
  {
    if rooms == [] then []
    else
      var init := rooms[..|rooms| - 1];
      var last := rooms[|rooms| - 1];
      assert rooms == init + [last];
      AvailableOnly(init) + (if last.availability > 0 then [last] else [])
  }

  /** SearchAvailableRooms: the hotel's rooms, kept in order when their availability is above
      zero. The dates are not looked at, and an unknown hotel gives an empty list. */
  method SearchAvailableRooms(s: State, hotelId: Id, checkIn: int, checkOut: int) returns (r: seq<Room>)
    ensures r == AvailableOnly(RR.FindByHotel(s.rooms, hotelId, s.nextId))
  {
    var rooms := RR.FindByHotel(s.rooms, hotelId, s.nextId);
    r := [];
    for i := 0 to |rooms|
      invariant r == AvailableOnly(rooms[..i])
    {
      assert rooms[..i + 1][..i] == rooms[..i];
      if rooms[i].availability > 0 {
        r := r + [rooms[i]];
      }
    }
    assert rooms[..|rooms|] == rooms;
  }

  /** CheckAvailability: an error for an unknown room, otherwise whether a unit is left. */
  function CheckAvailability(s: State, roomId: Id, checkIn: int, checkOut: int): (r: Result<bool, RoomError>)
    ensures r.Err? <==> roomId !in s.rooms
    ensures r.Err? ==> r.error == RoomNotFound
    ensures r.Ok? ==> (r.value <==> s.rooms[roomId].availability > 0)
  {
    match RR.FindByID(s.rooms, roomId)
    case Err(_) => Err(RoomNotFound)
    case Ok(room) => if room.availability <= 0 then Ok(false) else Ok(true)
  }

  /** The search result holds exactly the hotel's rooms for which CheckAvailability says yes. */
  lemma SearchAgreesWithCheck(s: State, hotelId: Id, checkIn: int, checkOut: int)
    requires Valid(s)
    ensures forall x :: x in AvailableOnly(RR.FindByHotel(s.rooms, hotelId, s.nextId)) <==>
      x.id in s.rooms && s.rooms[x.id] == x && x.hotelId == hotelId &&
      CheckAvailability(s, x.id, checkIn, checkOut) == Ok(true)
  {
    RR.FindByHotelExact(s.rooms, hotelId, s.nextId);
  }
}
