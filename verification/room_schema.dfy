/** The field rules of the room document schema: `name` and `capacity` are
    required, `resources` defaults to the empty string. */
module RoomSchema {
  import opened Wrappers

  /** The fields of a valid room document. */
  datatype RoomFields = RoomFields(name: string, capacity: int, resources: string)

  /** The values handed to the schema. An absent `capacity` stands for the
      `NaN` that `parseInt` yields for missing or non-numeric text; the schema
      cannot cast `NaN` to a number. */
  datatype RoomDraft = RoomDraft(name: Option<string>, capacity: Option<int>, resources: Option<string>)

  /** A required string is present and non-empty; a required number is
      present. */
  function Validate(draft: RoomDraft): (r: Option<RoomFields>)
    ensures r.Some? <==> draft.name.Some? && draft.name.value != "" && draft.capacity.Some?
    ensures r.Some? ==> r.value.name == draft.name.value && r.value.capacity == draft.capacity.value
    ensures r.Some? && draft.resources.None? ==> r.value.resources == ""
    ensures r.Some? && draft.resources.Some? ==> r.value.resources == draft.resources.value
  {
    match (draft.name, draft.capacity)
    case (Some(name), Some(capacity)) =>
      if name == "" then None else Some(RoomFields(name, capacity, draft.resources.GetOr("")))
    case _ => None
  }
}
