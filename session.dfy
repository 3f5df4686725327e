/**
 * A client of the contracts: a sample session through the controller (get,
 * get of a missing id, create, update, mismatching update, delete, get after
 * delete). Every assertion follows from the
 * contracts of the handlers and the service alone.
 */
module Session {
  import opened Wrappers
  import opened Entity
  import opened Service
  import opened Controller

  method ExampleSession()
  {
    var andrei := User(Some("A"), "Andrei");
    var service := new UserService(map["A" := andrei]);
    var controller := new UserController(service);

    var resp := controller.GetUser("A");
    assert resp == Response(OK, UserJson(andrei));
    resp := controller.GetUser("Z");
    assert resp.status == NOT_FOUND;

    resp := controller.AddUser(NamedUser("Alex"));
    assert resp.status == OK && resp.body.user.name == "Alex" && resp.body.user.id.Some?;
    assert resp.body.user.id.value != "A";

    var dan := User(Some("A"), "Dan");
    resp := controller.UpdateUser("A", dan);
    assert resp == Response(OK, UserJson(dan));
    resp := controller.UpdateUser("A", User(Some("B"), "Dan"));
    assert resp == Response(BAD_REQUEST, Text(USER_ID_MISMATCH_MESSAGE));
    resp := controller.UpdateUser("A", NamedUser("Dan"));
    assert resp.status == BAD_REQUEST;

    resp := controller.DeleteUser("A");
    assert resp == Response(OK, UserJson(dan));
    resp := controller.GetUser("A");
    assert resp == Response(NOT_FOUND, Text(USER_DOES_NOT_EXIST_MESSAGE));
    resp := controller.DeleteUser("A");
    assert resp.status == NOT_FOUND;
  }

}
