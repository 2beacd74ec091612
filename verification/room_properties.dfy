/** What the rooms route and the room schema guarantee across requests. */
module RoomProperties {
  import opened Wrappers
  import opened Http
  import opened Documents
  import opened RoomSchema
  import opened RoomsRoute

  /** A room created by `POST` is then listed by `GET` with the submitted
      fields, and every earlier room is still listed unchanged. */
  lemma CreatedRoomIsListed(rooms: seq<Room>, input: RoomInput, parseInt: string -> Option<int>, freshId: Id)
    requires PostRoom(rooms, input, parseInt, freshId, false).reply.status == CREATED
    ensures
      var stored := PostRoom(rooms, input, parseInt, freshId, false).store;
      var listing := GetRooms(stored, false).reply.body.value;
      && (exists room :: room in listing && room.id == freshId
            && room.name == input.name.value
            && parseInt(input.capacity.value) == Some(room.capacity)
            && room.resources == input.resources.GetOr(""))
      && (forall room :: room in rooms ==> room in listing)
  {
  }

  /** Without a name, or with an empty one, no room is created. */
  lemma RoomWithoutNameIsRefused(rooms: seq<Room>, input: RoomInput, parseInt: string -> Option<int>, freshId: Id, storeFails: bool)
    requires input.name.None? || input.name.value == ""
    ensures PostRoom(rooms, input, parseInt, freshId, storeFails).reply == InternalError()
    ensures PostRoom(rooms, input, parseInt, freshId, storeFails).store == rooms
  {
  }

  /** Without a capacity, or with one `parseInt` cannot read, no room is
      created. */
  lemma RoomWithoutCapacityIsRefused(rooms: seq<Room>, input: RoomInput, parseInt: string -> Option<int>, freshId: Id, storeFails: bool)
    requires input.capacity.None? || parseInt(input.capacity.value).None?
    ensures PostRoom(rooms, input, parseInt, freshId, storeFails).reply == InternalError()
    ensures PostRoom(rooms, input, parseInt, freshId, storeFails).store == rooms
  {
  }

  /** The schema asks for a capacity, not a positive one: zero and negative
      capacities are stored as given. */
  lemma AnyCapacityIsAccepted(name: string, capacity: int, resources: Option<string>)
    requires name != ""
    ensures Validate(RoomDraft(Some(name), Some(capacity), resources)).Some?
    ensures Validate(RoomDraft(Some(name), Some(capacity), resources)).value.capacity == capacity
  {
  }

  /** Room identifiers stay distinct when each insert gets a fresh one. */
  predicate DistinctRoomIds(rooms: seq<Room>)
  {
    forall i, j :: 0 <= i < j < |rooms| ==> rooms[i].id != rooms[j].id
  }

  lemma PostRoomKeepsIdsDistinct(rooms: seq<Room>, input: RoomInput, parseInt: string -> Option<int>, freshId: Id, storeFails: bool)
    requires DistinctRoomIds(rooms)
    requires forall room :: room in rooms ==> room.id != freshId
    ensures DistinctRoomIds(PostRoom(rooms, input, parseInt, freshId, storeFails).store)
  {
  }
}
