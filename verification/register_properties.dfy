/** What the registration route guarantees across requests. */
module RegisterProperties {
  import opened Wrappers
  import opened Http
  import opened Documents
  import opened RegisterRoute

  /** No request, whatever its outcome, lets two users share an email. */
  lemma RegisterKeepsEmailsDistinct(
    users: seq<User>, input: RegisterInput, hash: string -> string,
    sign: (Id, string, string) -> string, freshId: Id, fault: Fault)
    requires DistinctEmails(users)
    ensures DistinctEmails(Register(users, input, hash, sign, freshId, fault).store)
  {
  }

  /** Registering an email a second time is refused and stores nothing. */
  lemma SecondRegistrationIsRefused(
    users: seq<User>, first: RegisterInput, second: RegisterInput, hash: string -> string,
    sign: (Id, string, string) -> string, firstId: Id, secondId: Id, fault: Fault)
    requires first.email == second.email
    requires Register(users, first, hash, sign, firstId, NoFault).reply.status == OK
    requires fault != FailsOnConnect
    ensures
      var registered := Register(users, first, hash, sign, firstId, NoFault).store;
      var again := Register(registered, second, hash, sign, secondId, fault);
      again.reply == Reply(BAD_REQUEST, Error(USER_EXISTS)) && again.store == registered
  {
  }

  /** The request alone decides the role: asking for `"admin"` with a new
      email creates an administrator. */
  lemma AnyoneMayRegisterAsAdmin(
    users: seq<User>, input: RegisterInput, hash: string -> string,
    sign: (Id, string, string) -> string, freshId: Id)
    requires input.role == Some("admin")
    requires !EmailTaken(users, input.email)
    ensures Register(users, input, hash, sign, freshId, NoFault).reply.status == OK
    ensures Register(users, input, hash, sign, freshId, NoFault).reply.body.value.user.role == "admin"
    ensures Register(users, input, hash, sign, freshId, NoFault).store[|users|].role == "admin"
  {
  }

  /** The stored password is the hash of the submitted one, and the reply
      carries the stored user's id, name, email and role. */
  lemma ReplyDescribesStoredUser(
    users: seq<User>, input: RegisterInput, hash: string -> string,
    sign: (Id, string, string) -> string, freshId: Id)
    requires !EmailTaken(users, input.email)
    ensures
      var out := Register(users, input, hash, sign, freshId, NoFault);
      var stored := out.store[|users|];
      var summary := out.reply.body.value.user;
      && stored.password == hash(input.password)
      && summary.id == stored.id == freshId
      && summary.name == stored.name == input.name
      && summary.email == stored.email == input.email
      && summary.role == stored.role == RoleOrDefault(input.role)
  {
  }
}
