/** The note entity and the notes table it lives in. */
module Notes {

  /** One row of the `notes` table. Timestamps are readings of an external
      clock, kept as integers. A stored note always has its id. */
  datatype Note = Note(id: int, title: string, content: string, createdAt: int, updatedAt: int)

  /** The notes table: rows keyed by primary key, and the AUTOINCREMENT
      counter, which is the id the next insert receives. Deleting a row
      never lowers the counter, so an id is never handed out twice. */
  datatype Store = Store(notes: map<int, Note>, nextId: int)

  /** AUTOINCREMENT hands out 1 for the first row of a fresh table. */
  const FirstId := 1

  /** The representation invariant every reachable store keeps: each key
      lies below the counter, and each row carries its own key as id. */
  ghost predicate Valid(s: Store) {
    && FirstId <= s.nextId
    && forall k :: k in s.notes ==> FirstId <= k < s.nextId && s.notes[k].id == k
  }

  /** A freshly created table. */
  function Empty(): (s: Store)
    ensures Valid(s)
    ensures s.notes == map[] && s.nextId == FirstId
  {
    Store(map[], FirstId)
  }
}
