/** The one entity of the system: a document of the `users` collection. */
module Entity {
  import opened Wrappers

  /**
   * A user document. `id` is absent (Java `null`) until the store assigns one.
   * Equality is field-wise, as with Lombok's generated `equals`; Dafny's
   * datatype equality is exactly that.
   */
  datatype User = User(id: Option<string>, name: string)

  /** The name-only constructor: it sets the name and leaves the id absent. */
  function NamedUser(name: string): (u: User)
    ensures u.id == None && u.name == name
  {
    User(None, name)
  }

}
