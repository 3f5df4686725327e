/**
 * The HTTP layer under `/users`: five routes that hand their path id and body
 * to the service unchanged and wrap its outcome in a status and a body, and
 * the two exception handlers that turn the domain errors into fixed replies.
 */
module Controller {
  import opened Wrappers
  import opened Entity
  import opened Repository
  import opened Service

  const OK: int := 200
  const BAD_REQUEST: int := 400
  const NOT_FOUND: int := 404

  const USER_DOES_NOT_EXIST_MESSAGE: string := "User does not exist!"
  const USER_ID_MISMATCH_MESSAGE: string := "User id and pathId do not match!"

  /** A response body: one user, a list of users, or a plain message. */
  datatype Body = UserJson(user: User) | UserListJson(users: seq<User>) | Text(message: string)

  datatype Response = Response(status: int, body: Body)

  /** The handler for UserDoesNotExist: a constant reply. */
  function HandleUserDoesNotExist(): (resp: Response)
    ensures resp.status == NOT_FOUND && resp.body == Text(USER_DOES_NOT_EXIST_MESSAGE)
  {
    Response(NOT_FOUND, Text(USER_DOES_NOT_EXIST_MESSAGE))
  }

  /** The handler for UserIdMismatch: a constant reply. */
  function HandleUserIdMismatch(): (resp: Response)
    ensures resp.status == BAD_REQUEST && resp.body == Text(USER_ID_MISMATCH_MESSAGE)
  {
    Response(BAD_REQUEST, Text(USER_ID_MISMATCH_MESSAGE))
  }

  /**
   * The reply to a single-user route: 200 with the user on success (POST
   * included: 200, not 201), otherwise the handler of the error kind.
   */
  function Respond(r: Outcome): (resp: Response)
    ensures resp.status in {OK, BAD_REQUEST, NOT_FOUND}
    ensures resp.status == OK <==> r.Ok?
    ensures resp.status == NOT_FOUND <==> r.UserDoesNotExist?
    ensures resp.status == BAD_REQUEST <==> r.UserIdMismatch?
    ensures r.Ok? ==> resp.body == UserJson(r.user)
    ensures r.UserDoesNotExist? ==> resp == HandleUserDoesNotExist()
    ensures r.UserIdMismatch? ==> resp == HandleUserIdMismatch()
  {
    match r
    case Ok(u) => Response(OK, UserJson(u))
    case UserDoesNotExist => HandleUserDoesNotExist()
    case UserIdMismatch => HandleUserIdMismatch()
  }

  /** Different outcomes never get the same reply: the reply tells the outcome. */
  lemma RespondInjective(r1: Outcome, r2: Outcome)
    ensures Respond(r1) == Respond(r2) ==> r1 == r2
  {
  }

  /**
   * An error reply is fixed by the error kind alone: it does not depend on
   * the route, the path id or the body of the request.
   */
  lemma ErrorReplyDependsOnKindOnly(r1: Outcome, r2: Outcome)
    requires !r1.Ok? && !r2.Ok?
    ensures Respond(r1) == Respond(r2) <==> r1 == r2
    ensures Respond(r1).body.Text?
    ensures Respond(r1).body.message in {USER_DOES_NOT_EXIST_MESSAGE, USER_ID_MISMATCH_MESSAGE}
  {
  }

  class UserController {
    const service: UserService

    constructor (service: UserService)
      ensures this.service == service
    {
      this.service := service;
    }

    /** GET /users/ : always 200, with the service's list as body. */
    method GetAllUsers() returns (resp: Response)
      requires service.Valid()
      ensures resp.status == OK && resp.body.UserListJson?
      ensures |resp.body.users| == |service.users|
      ensures forall u :: u in resp.body.users <==> u in service.users.Values
    {
      var list := service.GetUsers();
      resp := Response(OK, UserListJson(list));
    }

    /** GET /users/{id} : the path id goes to getUser unchanged. */
    method GetUser(id: string) returns (resp: Response)
      requires service.Valid()
      ensures resp == Respond(service.GetUser(id))
      ensures id in service.users ==> resp == Response(OK, UserJson(service.users[id]))
      ensures id !in service.users ==> resp == HandleUserDoesNotExist()
    {
      var r := service.GetUser(id);
      resp := Respond(r);
    }

    /** POST /users/ : 200 with what addUser returned. */
    method AddUser(body: User) returns (resp: Response)
      requires service.Valid()
      modifies service
      ensures service.Valid()
      ensures resp.status == OK && resp.body.UserJson?
      ensures resp.body.user.id.Some? && resp.body.user.name == body.name
      ensures body.id.Some? ==> resp.body.user == body
      ensures body.id.None? ==> resp.body.user.id.value !in old(service.users)
      ensures service.users == old(service.users)[resp.body.user.id.value := resp.body.user]
    {
      var saved := service.AddUser(body);
      resp := Respond(Ok(saved));
    }

    /** PUT /users/{id} : 200, 400 or 404 as updateUser decides. */
    method UpdateUser(id: string, body: User) returns (resp: Response)
      requires service.Valid()
      modifies service
      ensures service.Valid()
      ensures body.id != Some(id) ==>
        resp == HandleUserIdMismatch() && service.users == old(service.users)
      ensures body.id == Some(id) && id !in old(service.users) ==>
        resp == HandleUserDoesNotExist() && service.users == old(service.users)
      ensures body.id == Some(id) && id in old(service.users) ==>
        resp == Response(OK, UserJson(body)) && service.users == old(service.users)[id := body]
    {
      var r := service.UpdateUser(id, body);
      resp := Respond(r);
    }

    /** DELETE /users/{id} : 200 echoing the deleted user, or 404. */
    method DeleteUser(id: string) returns (resp: Response)
      requires service.Valid()
      modifies service
      ensures service.Valid()
      ensures resp == Respond(old(service.GetUser(id)))
      ensures service.users == old(service.users) - {id}
    {
      var r := service.DeleteUser(id);
      resp := Respond(r);
    }
  }

}
