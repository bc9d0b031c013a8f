/**
 * Request and response shapes of the notes API and the field bounds their
 * validation enforces (backend/app/schemas/note.py). A schema object exists
 * only once its fields have passed validation, so the validated shapes are
 * subset types and validation is a function from raw fields to either a
 * validated value or the list of field errors.
 */
module Schemas {
  import opened Wrappers
  import opened Models

  /** Largest accepted importance (`le=9`); the smallest is 0 (`ge=0`). */
  const ImportanceMax: int := 9

  /** `min_length=1, max_length=200` on a title. */
  predicate TitleLengthOk(title: string)
  {
    1 <= |title| <= TitleMaxLength
  }

  /** `ge=0, le=9` on an importance that is present. */
  predicate ImportanceInRange(importance: int)
  {
    0 <= importance <= ImportanceMax
  }

  /** The reasons validation gives for rejecting a field. */
  datatype FieldError = TitleTooShort | TitleTooLong | ImportanceOutOfRange

  /** The errors a supplied title draws. */
  function TitleErrors(title: string): (r: seq<FieldError>)
    ensures r == [] <==> TitleLengthOk(title)
    ensures TitleTooShort in r <==> |title| < 1
    ensures TitleTooLong in r <==> |title| > TitleMaxLength
    ensures ImportanceOutOfRange !in r
  {
    if |title| < 1 then [TitleTooShort]
    else if |title| > TitleMaxLength then [TitleTooLong]
    else []
  }

  /** The errors a supplied importance draws. */
  function ImportanceErrors(importance: int): (r: seq<FieldError>)
    ensures r == [] <==> ImportanceInRange(importance)
    ensures r == [] || r == [ImportanceOutOfRange]
  {
    if ImportanceInRange(importance) then [] else [ImportanceOutOfRange]
  }

  // ---------------------------------------------------------------------
  // NoteCreate
  // ---------------------------------------------------------------------

  /** The fields of a creation request as they arrive. */
  datatype NoteCreateFields = NoteCreateFields(
    title: string,
    content: Option<string>,
    importance: Option<int>)

  /** The constraints `NoteBase` declares; `content` has none. */
  predicate NoteCreateOk(f: NoteCreateFields)
  {
    TitleLengthOk(f.title) && (f.importance.Some? ==> ImportanceInRange(f.importance.value))
  }

  /** A validated `NoteCreate`. */
  type NoteCreate = f: NoteCreateFields | NoteCreateOk(f)
    witness NoteCreateFields("-", None, None)

  /**
   * Building a `NoteCreate`: succeeds with the very same fields exactly when
   * the title has 1..200 characters and the importance is absent or in 0..9;
   * otherwise reports every offending field.
   */
  function ValidateNoteCreate(f: NoteCreateFields): (r: Result<NoteCreate, seq<FieldError>>)
    ensures r.Ok? <==> 1 <= |f.title| <= TitleMaxLength && (f.importance.None? || 0 <= f.importance.value <= ImportanceMax)
    ensures r.Ok? ==> r.value == f
    ensures r.Err? ==> r.error != []
    ensures r.Err? ==> (ImportanceOutOfRange in r.error <==> f.importance.Some? && !(0 <= f.importance.value <= ImportanceMax))
    ensures r.Err? ==> (TitleTooShort in r.error <==> |f.title| < 1)
    ensures r.Err? ==> (TitleTooLong in r.error <==> |f.title| > TitleMaxLength)
  {
    var errors := TitleErrors(f.title)
      + (if f.importance.Some? then ImportanceErrors(f.importance.value) else []);
    if errors == [] then Ok(f) else Err(errors)
  }

  /** The keys `NoteCreate.model_dump()` hands to the `Note` constructor: every field, absent ones as None. */
  const CreateDumpKeys: set<string> := {"title", "content", "importance"}

  /** `content` is free text: whatever it holds, it never decides validation. */
  lemma {:induction false} CreateContentUnconstrained(f: NoteCreateFields, content: Option<string>)
    ensures ValidateNoteCreate(f).Ok? == ValidateNoteCreate(f.(content := content)).Ok?
  {
  }

  /**
   * A title of spaces only has a valid length, so validation lets it through;
   * only the table's check constraint turns it away.
   */
  lemma BlankTitlePassesValidation()
    ensures ValidateNoteCreate(NoteCreateFields("   ", None, None)).Ok?
    ensures !StoredTitleOk("   ")
  {
    var blank := "   ";
    assert Blank(blank);
    BtrimSpec(blank);
  }

  // ---------------------------------------------------------------------
  // NoteUpdate
  // ---------------------------------------------------------------------

  /**
   * One field of a partial update. `model_dump(exclude_unset=True)` keeps a
   * field the request did not mention out of the UPDATE (`Unset`); a field
   * sent as null is written as NULL (`SetNull`).
   */
  datatype Patch<+T> = Unset | SetNull | SetTo(value: T)

  /** The fields of an update request as they arrive. */
  datatype NoteUpdateFields = NoteUpdateFields(
    title: Patch<string>,
    content: Patch<string>,
    importance: Patch<int>)

  /** The constraints `NoteUpdate` declares: only values actually supplied are checked. */
  predicate NoteUpdateOk(u: NoteUpdateFields)
  {
    (u.title.SetTo? ==> TitleLengthOk(u.title.value))
    && (u.importance.SetTo? ==> ImportanceInRange(u.importance.value))
  }

  /** A validated `NoteUpdate`. */
  type NoteUpdate = u: NoteUpdateFields | NoteUpdateOk(u)
    witness NoteUpdateFields(Unset, Unset, Unset)

  /**
   * Building a `NoteUpdate`: every field is optional; a supplied title must
   * have 1..200 characters and a supplied importance must lie in 0..9.
   */
  function ValidateNoteUpdate(u: NoteUpdateFields): (r: Result<NoteUpdate, seq<FieldError>>)
    ensures r.Ok? <==>
      (u.title.SetTo? ==> 1 <= |u.title.value| <= TitleMaxLength)
      && (u.importance.SetTo? ==> 0 <= u.importance.value <= ImportanceMax)
    ensures r.Ok? ==> r.value == u
    ensures r.Err? ==> r.error != []
    ensures NoteUpdateFields(Unset, u.content, Unset) == u ==> r.Ok?
  {
    var errors := (if u.title.SetTo? then TitleErrors(u.title.value) else [])
      + (if u.importance.SetTo? then ImportanceErrors(u.importance.value) else []);
    if errors == [] then Ok(u) else Err(errors)
  }

  /**
   * The keys `model_dump(exclude_unset=True)` hands to the UPDATE: exactly
   * the fields the request supplied, null or not.
   */
  function UpdateDumpKeys(u: NoteUpdateFields): (r: set<string>)
    ensures "title" in r <==> !u.title.Unset?
    ensures "content" in r <==> !u.content.Unset?
    ensures "importance" in r <==> !u.importance.Unset?
    ensures r <= CreateDumpKeys
  {
    (if u.title.Unset? then {} else {"title"})
    + (if u.content.Unset? then {} else {"content"})
    + (if u.importance.Unset? then {} else {"importance"})
  }

  /**
   * The value a nullable column holds after a patch: unchanged when the
   * field was not supplied, NULL when it was supplied as null.
   */
  function Applied<T>(current: Option<T>, p: Patch<T>): (r: Option<T>)
    ensures p.Unset? ==> r == current
    ensures p.SetNull? ==> r == None
    ensures p.SetTo? ==> r == Some(p.value)
  {
    match p
    case Unset => current
    case SetNull => None
    case SetTo(v) => Some(v)
  }

  /**
   * `after` is `before` with the supplied fields of `u` written and the
   * update time set to `now`; identity, creation time and every field `u`
   * leaves unset are kept.
   */
  ghost predicate PatchOf(before: Note, after: Note, u: NoteUpdateFields, now: nat)
  {
    && after.id == before.id
    && after.createdAt == before.createdAt
    && after.updatedAt == now
    && after.title == (if u.title.SetTo? then u.title.value else before.title)
    && after.content == Applied(before.content, u.content)
    && after.importance == Applied(before.importance, u.importance)
  }

  // ---------------------------------------------------------------------
  // Links and summaries
  // ---------------------------------------------------------------------

  /** `NoteLinkCreate`: two integer ids; nothing at this level requires them to differ. */
  datatype NoteLinkCreate = NoteLinkCreate(parentId: int, childId: int)

  /** `NoteLinkSummary`: the side-panel view of a note. */
  datatype NoteLinkSummary = NoteLinkSummary(id: int, title: string, importance: Option<int>)

  /** Projects a note onto its summary, dropping content and timestamps. */
  function Summarize(n: Note): (s: NoteLinkSummary)
    ensures s.id == n.id && s.title == n.title && s.importance == n.importance
  {
    NoteLinkSummary(n.id, n.title, n.importance)
  }

  /** Two notes that differ only in content and timestamps summarize alike. */
  lemma SummaryForgetsContent(n: Note, content: Option<string>, createdAt: nat, updatedAt: nat)
    ensures Summarize(n) == Summarize(n.(content := content, createdAt := createdAt, updatedAt := updatedAt))
  {
  }
}
