/** The hotel repository's lookup by id, as the room service uses it. The call reads the row and
    then preloads a named association; GORM fails the whole call when the name is not an
    association of the Hotel record. */
module HotelRepository {
  import opened Domain

  /** The association fields of the Hotel record: its rooms, declared under the field name `Room`. */
  const Relations: set<string> := {"Room"}

  /** The association FindByID preloads as written, and the one its callers evidently mean. */
  const PreloadAsWritten: string := "Rooms"
  const PreloadIntended: string := "Room"

  /** A missing row, or a preload of a name that is not an association. */
  datatype LookupError = RowNotFound | UnsupportedRelations

  /** FindByID with the given preload: the row is looked up first, then the association. */
  function FindByID(hotels: set<Id>, id: Id, preload: string): (r: Result<(), LookupError>)
    ensures r.Ok? <==> id in hotels && preload in Relations
    ensures r == Err(RowNotFound) <==> id !in hotels
    ensures r == Err(UnsupportedRelations) <==> id in hotels && preload !in Relations
  {
    if id !in hotels then Err(RowNotFound)
    else if preload !in Relations then Err(UnsupportedRelations)
    else Ok(())
  }

  /** As written, the lookup fails for every id, existing hotels included. */
  lemma AsWrittenNeverFinds(hotels: set<Id>, id: Id)
    ensures FindByID(hotels, id, PreloadAsWritten).Err?
    ensures id in hotels ==> FindByID(hotels, id, PreloadAsWritten) == Err(UnsupportedRelations)
  {
  }

  /** With the association's own name, the lookup succeeds exactly for the stored hotels. */
  lemma IntendedFindsStored(hotels: set<Id>, id: Id)
    ensures FindByID(hotels, id, PreloadIntended).Ok? <==> id in hotels
  {
  }
}
