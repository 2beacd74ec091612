/** The `/api/auth/register` route: creates an account unless the email is
    already registered. Password hashing and token signing are external
    functions passed in as parameters. */
module RegisterRoute {
  import opened Wrappers
  import opened Http
  import opened Documents

  const USER_EXISTS: string := "Usuário já existe"
  const REGISTERED: string := "Usuário registrado com sucesso"
  const DEFAULT_ROLE: string := "user"

  /** A stored user document; `password` holds the hash, never the clear text. */
  datatype User = User(id: Id, name: string, email: string, password: string, role: string)

  /** The JSON body of a registration request; `role` may be absent. */
  datatype RegisterInput = RegisterInput(name: string, email: string, password: string, role: Option<string>)

  /** The public view of a user sent back to the client: no password field. */
  datatype UserSummary = UserSummary(id: Id, name: string, email: string, role: string)

  /** The success body: a message, the signed session token and the summary. */
  datatype Registration = Registration(message: string, token: string, user: UserSummary)

  /** `role || 'user'`: an absent or empty role falls back to the default;
      any other value, `"admin"` included, is kept. */
  function RoleOrDefault(role: Option<string>): (r: string)
    ensures r != ""
    ensures role.Some? && role.value != "" ==> r == role.value
    ensures role.None? || role.value == "" ==> r == DEFAULT_ROLE
  {
    if role.Some? && role.value != "" then role.value else DEFAULT_ROLE
  }

  function Summary(user: User): (s: UserSummary)
  {
    UserSummary(user.id, user.name, user.email, user.role)
  }

  predicate EmailTaken(users: seq<User>, email: string)
  {
    exists i :: 0 <= i < |users| && users[i].email == email
  }

  predicate DistinctEmails(users: seq<User>)
  {
    forall i, j :: 0 <= i < j < |users| ==> users[i].email != users[j].email
  }

  /** The store's lookup by email: the position of a user with that email. */
  function FindByEmail(users: seq<User>, email: string): (r: Option<nat>)
    ensures r.Some? ==> r.value < |users| && users[r.value].email == email
    ensures r.None? <==> !EmailTaken(users, email)
  {
    if |users| == 0 then None
    else if users[0].email == email then Some(0)
    else
      match FindByEmail(users[1..], email)
      case None => None
      case Some(k) => Some(k + 1)
  }

  /** `POST /api/auth/register`. `hash` stands for the salted password hash
      and `sign` for the token signer, given the new user's id, email and
      role; a signer that throws (a missing secret) is `FailsAfterInsert`. */
  function Register(
    users: seq<User>,
    input: RegisterInput,
    hash: string -> string,
    sign: (Id, string, string) -> string,
    freshId: Id,
    fault: Fault)
    : (out: Step<Registration, seq<User>>)
    ensures fault == FailsOnConnect ==> out.reply == InternalError() && out.store == users
    ensures fault != FailsOnConnect ==>
      (out.reply.status == BAD_REQUEST <==> EmailTaken(users, input.email))
    ensures out.reply.status == BAD_REQUEST ==>
      out.reply.body == Error(USER_EXISTS) && out.store == users
    ensures out.reply.status == OK <==> fault == NoFault && !EmailTaken(users, input.email)
    ensures out.reply.status in {OK, BAD_REQUEST, INTERNAL_ERROR}
    ensures out.reply.status == INTERNAL_ERROR ==> out.reply.body == Error(INTERNAL_ERROR_MESSAGE)
    ensures out.store == users || |out.store| == |users| + 1
    ensures |out.store| == |users| + 1 ==>
      var user := out.store[|users|];
      && out.store[..|users|] == users
      && !EmailTaken(users, input.email)
      && user.id == freshId
      && user.name == input.name
      && user.email == input.email
      && user.password == hash(input.password)
      && user.role == RoleOrDefault(input.role)
    ensures out.reply.status == OK ==>
      && |out.store| == |users| + 1
      && out.reply.body.Json?
      && out.reply.body.value.message == REGISTERED
      && out.reply.body.value.user == Summary(out.store[|users|])
      && out.reply.body.value.token == sign(freshId, input.email, RoleOrDefault(input.role))
    ensures fault == FailsOnInsert ==> out.store == users
    ensures fault == FailsAfterInsert && !EmailTaken(users, input.email) ==>
      out.reply.status == INTERNAL_ERROR && |out.store| == |users| + 1
  {
    if fault == FailsOnConnect then
      Step(InternalError(), users)
    else if FindByEmail(users, input.email).Some? then
      Step(Reply(BAD_REQUEST, Error(USER_EXISTS)), users)
    else if fault == FailsOnInsert then
      Step(InternalError(), users)
    else
      var user := User(freshId, input.name, input.email, hash(input.password), RoleOrDefault(input.role));
      var stored := users + [user];
      assert stored[..|users|] == users;
      if fault == FailsAfterInsert then
        Step(InternalError(), stored)
      else
        assert fault == NoFault;
        var token := sign(user.id, user.email, user.role);
        Step(Reply(OK, Json(Registration(REGISTERED, token, Summary(user)))), stored)
  }
}
