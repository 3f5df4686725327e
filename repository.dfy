/**
 * The behaviour of the document store that the service relies on: a
 * collection of user documents keyed by id, with find-by-id, upsert and
 * delete-by-entity. The collection is a map from id to document.
 */
module Repository {
  import opened Wrappers
  import opened Entity

  type Table = map<string, User>

  /** Every stored document carries its own key as its id. */
  predicate Keyed(t: Table)
  {
    forall k :: k in t ==> t[k].id == Some(k)
  }

  /** find-by-id: absence is a value, not an error. */
  function FindById(t: Table, id: string): (r: Option<User>)
    ensures r.Some? <==> id in t
    ensures r.Some? ==> r.value == t[id]
    ensures Keyed(t) && r.Some? ==> r.value.id == Some(id)
  {
    if id in t then Some(t[id]) else None
  }

  /**
   * save of a document that carries an id: it overwrites the document with
   * that id, or inserts it when there is none.
   */
  function Upsert(t: Table, doc: User): (t': Table)
    requires doc.id.Some?
    ensures t'.Keys == t.Keys + {doc.id.value}
    ensures t'[doc.id.value] == doc
    ensures forall k :: k in t && k != doc.id.value ==> t'[k] == t[k]
    ensures Keyed(t) ==> Keyed(t')
  {
    t[doc.id.value := doc]
  }

  /** delete of an entity: removes the document with the entity's id, if any. */
  function Remove(t: Table, doc: User): (t': Table)
    ensures doc.id.Some? ==> t'.Keys == t.Keys - {doc.id.value}
    ensures doc.id.None? ==> t' == t
    ensures forall k :: k in t' ==> k in t && t'[k] == t[k]
    ensures Keyed(t) ==> Keyed(t')
  {
    if doc.id.Some? then t - {doc.id.value} else t
  }

  /** Some length exceeds the length of every key in a finite set of keys. */
  lemma {:induction false} KeyLengthBound(keys: set<string>) returns (n: nat)
    ensures forall k :: k in keys ==> |k| < n
  {
    if keys == {} {
      n := 0;
    } else {
      var x :| x in keys;
      var m := KeyLengthBound(keys - {x});
      n := if |x| < m then m else |x| + 1;
    }
  }

  /**
   * However many documents the collection holds, a non-empty key is still
   * free; this is what lets the store generate an id on insert.
   */
  lemma FreshKeyExists(t: Table)
    ensures exists k :: k !in t && k != ""
  {
    var n := KeyLengthBound(t.Keys);
    var candidate := seq(n + 1, _ => '0');
    assert |candidate| == n + 1;
    assert candidate !in t;
  }

}
