/** The write endpoints: each request body is validated, and only an
    accepted body reaches the repository. Replaying a sequence of requests
    shows what holds of every table the service can reach. */
module Service {
  import opened Wrappers
  import opened Notes
  import opened Schema
  import opened Repository

  /** A write request with its unvalidated body; `now` is the clock reading
      the repository takes when it runs. */
  datatype Request =
    | CreateNote(payload: NoteCreate, now: int)
    | UpdateNote(id: int, patch: NoteUpdate, now: int)
    | DeleteNote(id: int)

  /** Handles one request. A rejected body leaves the table unchanged; an
      accepted body reaches the repository operation it names. The result
      is the id a successful create handed out. */
  function Apply(s: Store, req: Request): (r: Step<Option<int>>)
    requires Valid(s)
    ensures Valid(r.store)
    ensures s.nextId <= r.store.nextId
    ensures r.value.Some? <==> req.CreateNote? && ValidateCreate(req.payload).Ok?
    ensures r.value.Some? ==> r.value.value !in s.notes && s.nextId <= r.value.value < r.store.nextId
    ensures req.CreateNote? && ValidateCreate(req.payload).Err? ==> r.store == s
    ensures req.UpdateNote? && ValidateUpdate(req.patch).Err? ==> r.store == s
    ensures req.CreateNote? && ValidateCreate(req.payload).Ok? ==>
      var c := Create(s, req.payload.title, req.payload.content, req.now);
      r.store == c.store && r.value == Some(c.value.value.id)
    ensures req.UpdateNote? && ValidateUpdate(req.patch).Ok? ==>
      r.store == Update(s, req.id, req.patch.title, req.patch.content, req.now).store
    ensures req.DeleteNote? ==> r.store == Delete(s, req.id).store
  {
    match req
    case CreateNote(payload, now) =>
      if ValidateCreate(payload).Err? then Step(s, None)
      else
        var c := Create(s, payload.title, payload.content, now);
        Step(c.store, Some(c.value.value.id))
    case UpdateNote(id, patch, now) =>
      if ValidateUpdate(patch).Err? then Step(s, None)
      else Step(Update(s, id, patch.title, patch.content, now).store, None)
    case DeleteNote(id) =>
      Step(Delete(s, id).store, None)
  }

  /** The table after handling `reqs` in order. */
  function Run(s: Store, reqs: seq<Request>): (r: Store)
    requires Valid(s)
    ensures Valid(r)
    ensures s.nextId <= r.nextId
    decreases |reqs|
  {
    if reqs == [] then s else Run(Apply(s, reqs[0]).store, reqs[1..])
  }

  /** The ids handed out while handling `reqs`, in order. They are strictly
      increasing, at least the counter at the start, and below the counter
      at the end: AUTOINCREMENT never hands an id out twice. */
  function Issued(s: Store, reqs: seq<Request>): (ids: seq<int>)
    requires Valid(s)
    ensures forall i :: 0 <= i < |ids| ==> s.nextId <= ids[i] < Run(s, reqs).nextId
    ensures forall i, j :: 0 <= i < j < |ids| ==> ids[i] < ids[j]
    decreases |reqs|
  {
    if reqs == [] then []
    else
      var step := Apply(s, reqs[0]);
      var rest := Issued(step.store, reqs[1..]);
      match step.value
      case None => rest
      case Some(id) => [id] + rest
  }

  /** An id that was in the table and then deleted is never handed out
      again, however the service continues. */
  lemma DeletedIdNeverReissued(s: Store, id: int, reqs: seq<Request>)
    requires Valid(s) && id in s.notes
    ensures id !in Issued(Delete(s, id).store, reqs)
  {
  }

  /** Every stored title satisfies the length bounds. */
  ghost predicate TitlesValid(s: Store) {
    forall k :: k in s.notes ==> ValidTitle(s.notes[k].title)
  }

  /** Because bodies are validated before they are written, a table whose
      titles are valid keeps them valid under any requests. */
  lemma {:induction false} RunKeepsTitlesValid(s: Store, reqs: seq<Request>)
    requires Valid(s) && TitlesValid(s)
    ensures TitlesValid(Run(s, reqs))
    decreases |reqs|
  {
    if reqs != [] {
      var next := Apply(s, reqs[0]).store;
      if reqs[0].UpdateNote? && ValidateUpdate(reqs[0].patch).Ok? {
        var patch := reqs[0].patch;
        assert patch.title.Some? ==> ValidTitle(patch.title.value);
      }
      RunKeepsTitlesValid(next, reqs[1..]);
    }
  }

  /** Every stored note was created no later than its last update, and both
      happened no later than `t`. */
  ghost predicate StampedBy(s: Store, t: int) {
    forall k :: k in s.notes ==> s.notes[k].createdAt <= s.notes[k].updatedAt <= t
  }

  /** The clock readings carried by `reqs` never go back, starting from `t`. */
  ghost predicate ClockFrom(reqs: seq<Request>, t: int)
    decreases |reqs|
  {
    reqs == [] ||
      match reqs[0]
      case DeleteNote(_) => ClockFrom(reqs[1..], t)
      case CreateNote(_, now) => t <= now && ClockFrom(reqs[1..], now)
      case UpdateNote(_, _, now) => t <= now && ClockFrom(reqs[1..], now)
  }

  /** The clock is not guaranteed to be monotonic; when it is, every note's
      creation time stays at or before its update time. */
  lemma {:induction false} RunKeepsStampsOrdered(s: Store, reqs: seq<Request>, t: int)
    requires Valid(s) && StampedBy(s, t) && ClockFrom(reqs, t)
    ensures forall k :: k in Run(s, reqs).notes ==>
      Run(s, reqs).notes[k].createdAt <= Run(s, reqs).notes[k].updatedAt
    decreases |reqs|
  {
    if reqs == [] {
    } else {
      var next := Apply(s, reqs[0]).store;
      match reqs[0]
      case DeleteNote(_) =>
        RunKeepsStampsOrdered(next, reqs[1..], t);
      case CreateNote(_, now) =>
        RunKeepsStampsOrdered(next, reqs[1..], now);
      case UpdateNote(_, _, now) =>
        RunKeepsStampsOrdered(next, reqs[1..], now);
    }
  }

  /** Starting from an empty table, every table the service reaches is
      valid, has valid titles, and never reuses an id. */
  lemma ReachableTables(reqs: seq<Request>)
    ensures Valid(Run(Empty(), reqs))
    ensures TitlesValid(Run(Empty(), reqs))
    ensures forall i :: 0 <= i < |Issued(Empty(), reqs)| ==> FirstId <= Issued(Empty(), reqs)[i]
  {
    RunKeepsTitlesValid(Empty(), reqs);
  }
}
