/** The `/api/rooms` route: `GET` lists the room collection, `POST` adds a
    room after the schema's field rules. */
module RoomsRoute {
  import opened Wrappers
  import opened Http
  import opened Documents
  import opened RoomSchema

  /** A stored room document. */
  datatype Room = Room(id: Id, name: string, capacity: int, resources: string)

  /** The JSON body of a create request. The form sends `capacity` as text. */
  datatype RoomInput = RoomInput(name: Option<string>, capacity: Option<string>, resources: Option<string>)

  /** `parseInt` applied to the submitted capacity; missing text parses to `NaN`. */
  function ParsedCapacity(input: RoomInput, parseInt: string -> Option<int>): (capacity: Option<int>)
  {
    match input.capacity
    case Some(text) => parseInt(text)
    case None => None
  }

  /** The document the route asks the schema to create. */
  function DraftOf(input: RoomInput, parseInt: string -> Option<int>): (draft: RoomDraft)
  {
    RoomDraft(input.name, ParsedCapacity(input, parseInt), input.resources)
  }

  /** `GET /api/rooms`: every stored room, unfiltered, in store order. */
  function GetRooms(rooms: seq<Room>, storeFails: bool): (out: Step<seq<Room>, seq<Room>>)
    ensures out.store == rooms
    ensures storeFails ==> out.reply == InternalError()
    ensures !storeFails ==> out.reply.status == OK && out.reply.body.Json?
    ensures !storeFails ==> multiset(out.reply.body.value) == multiset(rooms)
  {
    if storeFails then Step(InternalError(), rooms) else Step(Reply(OK, Json(rooms)), rooms)
  }

  /** `POST /api/rooms`. A schema violation throws inside the insert, so it
      surfaces, like a store failure, as the generic 500 reply. */
  function PostRoom(rooms: seq<Room>, input: RoomInput, parseInt: string -> Option<int>, freshId: Id, storeFails: bool)
    : (out: Step<Room, seq<Room>>)
    ensures out.reply.status == CREATED <==> !storeFails && Validate(DraftOf(input, parseInt)).Some?
    ensures out.reply.status == CREATED ==>
      && out.reply.body.Json?
      && out.store == rooms + [out.reply.body.value]
      && out.reply.body.value.id == freshId
      && out.reply.body.value.name == input.name.value
      && Some(out.reply.body.value.capacity) == parseInt(input.capacity.value)
      && out.reply.body.value.resources == input.resources.GetOr("")
    ensures out.reply.status != CREATED ==> out.reply == InternalError() && out.store == rooms
  {
    if storeFails then
      Step(InternalError(), rooms)
    else
      match Validate(DraftOf(input, parseInt))
      case None => Step(InternalError(), rooms)
      case Some(fields) =>
        var room := Room(freshId, fields.name, fields.capacity, fields.resources);
        Step(Reply(CREATED, Json(room)), rooms + [room])
  }
}
