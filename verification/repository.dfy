/** Create, read, update and delete of single notes over the notes table. */
module Repository {
  import opened Wrappers
  import opened Notes

  /** The table after an operation, together with what the operation returns. */
  datatype Step<+T> = Step(store: Store, value: T)

  /** Looks a row up by primary key; `None` is the ordinary "not found". */
  function GetById(s: Store, id: int): (r: Option<Note>)
    ensures r.Some? <==> id in s.notes
    ensures r.Some? ==> r.value == s.notes[id]
    ensures Valid(s) && r.Some? ==> r.value.id == id
  {
    if id in s.notes then Some(s.notes[id]) else None
  }

  /** Inserts a note stamped `now` under the next AUTOINCREMENT id, then
      reads the row back by that id, as the service does. */
  function Create(s: Store, title: string, content: string, now: int): (r: Step<Option<Note>>)
    requires Valid(s)
    ensures Valid(r.store)
    ensures r.value.Some?
    ensures r.value.value.id !in s.notes
    ensures s.nextId <= r.value.value.id < r.store.nextId
    ensures r.value.value.title == title && r.value.value.content == content
    ensures r.value.value.createdAt == now && r.value.value.updatedAt == now
    ensures GetById(r.store, r.value.value.id) == r.value
    ensures r.store.notes.Keys == s.notes.Keys + {r.value.value.id}
    ensures forall k :: k in s.notes ==> k in r.store.notes && r.store.notes[k] == s.notes[k]
  {
    var id := s.nextId;
    var inserted := Store(s.notes[id := Note(id, title, content, now, now)], id + 1);
    Step(inserted, GetById(inserted, id))
  }

  /** Merges the provided fields into an existing note and stamps it `now`;
      a missing id is reported as `None` and changes nothing. */
  function Update(s: Store, id: int, title: Option<string>, content: Option<string>, now: int): (r: Step<Option<Note>>)
    ensures id !in s.notes <==> r.value.None?
    ensures id !in s.notes ==> r.store == s
    ensures id in s.notes ==> GetById(r.store, id) == r.value
    ensures id in s.notes ==>
      var prev, n := s.notes[id], r.value.value;
      && n.id == prev.id
      && n.createdAt == prev.createdAt
      && n.updatedAt == now
      && (title.Some? ==> n.title == title.value)
      && (title.None? ==> n.title == prev.title)
      && (content.Some? ==> n.content == content.value)
      && (content.None? ==> n.content == prev.content)
    ensures r.store.notes.Keys == s.notes.Keys && r.store.nextId == s.nextId
    ensures forall k :: k in s.notes && k != id ==> r.store.notes[k] == s.notes[k]
    ensures Valid(s) ==> Valid(r.store)
  {
    match GetById(s, id)
    case None => Step(s, None)
    case Some(existing) =>
      var merged := existing.(title := title.GetOr(existing.title),
                              content := content.GetOr(existing.content),
                              updatedAt := now);
      var written := s.(notes := s.notes[id := merged]);
      Step(written, GetById(written, id))
  }

  /** Removes a row; the result says whether a row was removed (the
      statement's row count is positive). The counter is left alone. */
  function Delete(s: Store, id: int): (r: Step<bool>)
    ensures r.value <==> id in s.notes
    ensures id !in r.store.notes
    ensures r.store.notes.Keys == s.notes.Keys - {id}
    ensures forall k :: k in r.store.notes ==> r.store.notes[k] == s.notes[k]
    ensures r.store.nextId == s.nextId
    ensures Valid(s) ==> Valid(r.store)
  {
    var rowCount := if id in s.notes then 1 else 0;
    Step(Store(s.notes - {id}, s.nextId), rowCount > 0)
  }

  /** Reading back a created note yields exactly what was stored, with both
      timestamps equal. */
  lemma CreateThenGet(s: Store, title: string, content: string, now: int)
    requires Valid(s)
    ensures var c := Create(s, title, content, now);
      GetById(c.store, c.value.value.id) == Some(Note(c.value.value.id, title, content, now, now))
  {
  }

  /** After a delete the id is gone: reading it yields `None`, and a second
      delete reports false and leaves the table as it was. */
  lemma DeleteIsTerminal(s: Store, id: int)
    ensures var d := Delete(s, id);
      && GetById(d.store, id) == None
      && !Delete(d.store, id).value
      && Delete(d.store, id).store == d.store
  {
  }

  /** An update with a later clock reading moves `updatedAt` strictly
      forward and never touches `createdAt`. */
  lemma UpdateAdvancesStamp(s: Store, id: int, title: Option<string>, content: Option<string>, now: int)
    requires id in s.notes && now > s.notes[id].updatedAt
    ensures var u := Update(s, id, title, content, now);
      && u.value.value.updatedAt > s.notes[id].updatedAt
      && u.value.value.createdAt == s.notes[id].createdAt
  {
  }
}
