/**
 * The user service: the two domain rules (existence, id match) on top of the
 * store. The store's collection is the map field `users`; the writes the
 * service issues to the store are kept, in order, in the ghost field `writes`.
 */
module Service {
  import opened Wrappers
  import opened Entity
  import opened Repository

  /** What a service call yields: the user, or one of the two domain errors. */
  datatype Outcome = Ok(user: User) | UserDoesNotExist | UserIdMismatch

  /** A write to the store: save(user) or delete(user), with its argument. */
  datatype StoreWrite = Save(user: User) | Delete(user: User)

  /**
   * A Java `String` reference: the characters it holds and the identity of
   * the object, so that the id check can be stated as the code writes it.
   */
  datatype StringRef = StringRef(contents: string, identity: nat)

  /**
   * The id check of updateUser as written: `!=` on two `String` references is
   * true unless both denote the same object (a null body id is no object).
   */
  /** One object holds one string: equal identities mean equal contents. */
  predicate OneStringPerObject(bodyId: Option<StringRef>, pathId: StringRef)
  {
    bodyId.Some? && bodyId.value.identity == pathId.identity ==> bodyId.value.contents == pathId.contents
  }

  /** The characters of an optional reference; a null reference has none. */
  function ContentsOf(bodyId: Option<StringRef>): (r: Option<string>)
    ensures r.Some? <==> bodyId.Some?
    ensures r.Some? ==> r.value == bodyId.value.contents
  {
    if bodyId.Some? then Some(bodyId.value.contents) else None
  }

  predicate MismatchAsWritten(bodyId: Option<StringRef>, pathId: StringRef)
    requires OneStringPerObject(bodyId, pathId)
  {
    bodyId.None? || bodyId.value.identity != pathId.identity
  }

  /**
   * Two distinct objects holding the same characters: the check as written
   * rejects them, although the ids are equal.
   */
  lemma AsWrittenRejectsEqualIds()
    ensures MismatchAsWritten(Some(StringRef("A", 1)), StringRef("A", 2))
    ensures !IdsMismatch(Some("A"), "A")
  {
  }

  /** The id check as intended: the body's id differs in value from the path id. */
  predicate IdsMismatch(bodyId: Option<string>, pathId: string)
  {
    bodyId != Some(pathId)
  }

  /**
   * The intended check depends only on the characters: it fails exactly when
   * the body has no id or an id with other contents, whatever the objects;
   * and on the very same object both checks agree.
   */
  lemma IdsMismatchByContents(bodyId: Option<StringRef>, pathId: StringRef)
    requires OneStringPerObject(bodyId, pathId)
    ensures IdsMismatch(ContentsOf(bodyId), pathId.contents)
            <==> (bodyId.None? || bodyId.value.contents != pathId.contents)
    ensures bodyId == Some(pathId) ==>
            !MismatchAsWritten(bodyId, pathId) && !IdsMismatch(Some(pathId.contents), pathId.contents)
  {
  }

  /**
   * The check as written rejects everything the intended check rejects;
   * AsWrittenRejectsEqualIds shows that it rejects more.
   */
  lemma AsWrittenRejectsEveryValueMismatch(bodyId: Option<StringRef>, pathId: StringRef)
    requires OneStringPerObject(bodyId, pathId)
    ensures IdsMismatch(ContentsOf(bodyId), pathId.contents) ==> MismatchAsWritten(bodyId, pathId)
  {
  }

  class UserService {
    var users: Table
    ghost var writes: seq<StoreWrite>

    ghost predicate Valid()
      reads this
    {
      Keyed(users)
    }

    /** A service over a collection that already holds `initial`. */
    constructor (initial: Table)
      requires Keyed(initial)
      ensures Valid()
      ensures users == initial && writes == []
    {
      users := initial;
      writes := [];
    }

    /** getUser: the stored user with that id, or UserDoesNotExist. */
    function GetUser(id: string): (r: Outcome)
      reads this
      requires Valid()
      ensures r.Ok? <==> id in users
      ensures r.Ok? ==> r.user == users[id] && r.user.id == Some(id)
      ensures r.UserDoesNotExist? <==> id !in users
    {
      match FindById(users, id)
      case Some(u) => Ok(u)
      case None => UserDoesNotExist
    }

    /**
     * addUser: no existence or id check; the body goes to save unchanged.
     * A body with an id is upserted under that id; a body without one is
     * inserted under a key the store generates. The generated key is only
     * assumed to be non-empty and not in use: the generator belongs to the
     * store and is not modelled beyond that.
     */
    method AddUser(u: User) returns (saved: User)
      requires Valid()
      modifies this
      ensures Valid()
      ensures saved.id.Some? && saved.name == u.name
      ensures u.id.Some? ==> saved == u
      ensures u.id.None? ==> saved.id.value !in old(users) && saved.id.value != ""
      ensures users == old(users)[saved.id.value := saved]
      ensures writes == old(writes) + [Save(u)]
      ensures GetUser(saved.id.value) == Ok(saved)
    {
      if u.id.Some? {
        saved := u;
      } else {
        FreshKeyExists(users);
        var key :| key !in users && key != "";
        saved := User(Some(key), u.name);
      }
      users := Upsert(users, saved);
      writes := writes + [Save(u)];
    }

    /**
     * updateUser: the id rule is checked first, before the store is touched;
     * then existence; then the body replaces the stored document wholesale
     * (the loaded current user is discarded) and is returned.
     *
     * The Java code compares the ids with `!=`, which on `String` compares
     * references, not contents (MismatchAsWritten). The model compares values
     * (IdsMismatch), which is what the rule means and what agrees with the
     * callers that pass the very same string object. As a consequence a body
     * without an id never matches.
     */
    method UpdateUser(pathId: string, u: User) returns (r: Outcome)
      requires Valid()
      modifies this
      ensures Valid()
      ensures u.id != Some(pathId) ==>
        r == UserIdMismatch && users == old(users) && writes == old(writes)
      ensures u.id == Some(pathId) && pathId !in old(users) ==>
        r == UserDoesNotExist && users == old(users) && writes == old(writes)
      ensures u.id == Some(pathId) && pathId in old(users) ==>
        r == Ok(u) && users == old(users)[pathId := u] && writes == old(writes) + [Save(u)]
    {
      if IdsMismatch(u.id, pathId) {
        return UserIdMismatch;
      }
      match FindById(users, pathId) {
        case None =>
          r := UserDoesNotExist;
        case Some(_) =>
          users := Upsert(users, u);
          writes := writes + [Save(u)];
          r := Ok(u);
      }
    }

    /**
     * deleteUser: loads the user (UserDoesNotExist if absent), deletes that
     * entity and returns the snapshot taken before the deletion.
     */
    method DeleteUser(id: string) returns (r: Outcome)
      requires Valid()
      modifies this
      ensures Valid()
      ensures id !in old(users) ==>
        r == UserDoesNotExist && users == old(users) && writes == old(writes)
      ensures id in old(users) ==>
        && r == Ok(old(users)[id])
        && users == old(users) - {id}
        && writes == old(writes) + [Delete(old(users)[id])]
      ensures GetUser(id) == UserDoesNotExist
    {
      match FindById(users, id) {
        case None =>
          r := UserDoesNotExist;
        case Some(user) =>
          users := Remove(users, user);
          writes := writes + [Delete(user)];
          r := Ok(user);
      }
    }

    /**
     * getUsers: every stored user exactly once. The store lists them in an
     * order of its own, so the model promises no order.
     */
    method GetUsers() returns (list: seq<User>)
      requires Valid()
      ensures |list| == |users|
      ensures forall u :: u in list <==> u in users.Values
      ensures forall i, j :: 0 <= i < j < |list| ==> list[i] != list[j]
    {
      list := [];
      var pending := users.Keys;
      while pending != {}
        invariant pending <= users.Keys
        invariant |list| + |pending| == |users|
        invariant forall i :: 0 <= i < |list| ==>
          list[i].id.Some? && list[i].id.value in users && list[i].id.value !in pending
          && users[list[i].id.value] == list[i]
        invariant forall k :: k in users && k !in pending ==> users[k] in list
        invariant forall i, j :: 0 <= i < j < |list| ==> list[i] != list[j]
        decreases pending
      {
        var k :| k in pending;
        list := list + [users[k]];
        pending := pending - {k};
      }
    }
  }

}
