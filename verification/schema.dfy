/** Validation of the request bodies for creating and updating a note,
    before either reaches the repository. */
module Schema {
  import opened Wrappers

  /** Bounds on a title's length, counted in characters. */
  const MinTitleLength := 1
  const MaxTitleLength := 255

  /** Body of a create request: both fields required. */
  datatype NoteCreate = NoteCreate(title: string, content: string)

  /** Body of an update request: each field may be omitted. */
  datatype NoteUpdate = NoteUpdate(title: Option<string>, content: Option<string>)

  /** Why a body was rejected. */
  datatype ValidationError = TitleTooShort | TitleTooLong

  /** A title the create body accepts: 1 to 255 characters. */
  predicate ValidTitle(t: string) {
    MinTitleLength <= |t| <= MaxTitleLength
  }

  /** The length check applied to a present title: the minimum is tested
      first, then the maximum. */
  function CheckTitle(t: string): (r: Option<ValidationError>)
    ensures r.None? <==> ValidTitle(t)
    ensures r == Some(TitleTooShort) <==> |t| < MinTitleLength
    ensures r == Some(TitleTooLong) <==> |t| > MaxTitleLength
  {
    if |t| < MinTitleLength then Some(TitleTooShort)
    else if |t| > MaxTitleLength then Some(TitleTooLong)
    else None
  }

  /** Validates a create body. Only the title is constrained; an accepted
      body passes through unchanged. */
  function ValidateCreate(p: NoteCreate): (r: Result<NoteCreate, ValidationError>)
    ensures r.Ok? <==> ValidTitle(p.title)
    ensures r.Ok? ==> r.value == p
    ensures r.Err? ==> r.error == (if |p.title| < MinTitleLength then TitleTooShort else TitleTooLong)
  {
    match CheckTitle(p.title)
    case None => Ok(p)
    case Some(e) => Err(e)
  }

  /** Validates an update body. An omitted title is accepted; a present one
      must satisfy the same bounds as on create. */
  function ValidateUpdate(p: NoteUpdate): (r: Result<NoteUpdate, ValidationError>)
    ensures r.Ok? <==> (p.title.None? || ValidTitle(p.title.value))
    ensures r.Ok? ==> r.value == p
    ensures r.Err? ==> p.title.Some? && r.error == (if |p.title.value| < MinTitleLength then TitleTooShort else TitleTooLong)
  {
    match p.title
    case None => Ok(p)
    case Some(t) =>
      match CheckTitle(t)
      case None => Ok(p)
      case Some(e) => Err(e)
  }

  /** Content never decides whether a create body is accepted: the empty
      content and any other content get the same verdict. */
  lemma CreateContentUnconstrained(title: string, c1: string, c2: string)
    ensures ValidateCreate(NoteCreate(title, c1)).Ok? == ValidateCreate(NoteCreate(title, c2)).Ok?
    ensures ValidTitle(title) ==> ValidateCreate(NoteCreate(title, [])).Ok?
  {
  }

  /** Content never decides whether an update body is accepted, and a body
      with both fields omitted is accepted. */
  lemma UpdateFieldsOptional(title: Option<string>, c1: Option<string>, c2: Option<string>)
    ensures ValidateUpdate(NoteUpdate(title, c1)).Ok? == ValidateUpdate(NoteUpdate(title, c2)).Ok?
    ensures ValidateUpdate(NoteUpdate(None, None)).Ok?
    ensures ValidateUpdate(NoteUpdate(None, c1)).Ok?
  {
  }
}
