/**
 * NoteService (backend/app/services/note_service.py) over an in-memory
 * store: a map of notes keyed by id, the link rows in insertion order, and
 * the two autoincrement sequences. Each service call is one atomic step;
 * a database error rolls the call back.
 */
module NoteServices {
  import opened Wrappers
  import opened Models
  import opened Schemas
  import opened Graph
  import opened Traversal

  /** Errors PostgreSQL raises for a write or a query; the call changes nothing. */
  datatype StoreError =
    | TitleNull          // NOT NULL on `title`
    | ValueTooLong       // `String(200)`
    | TitleBlank         // ck_note_title_not_empty
    | NegativeWindow     // OFFSET or LIMIT below zero

  /**
   * What the `note` table stores for a title. `String(200)` is varchar(200):
   * a longer value is refused unless its excess is all spaces, which are then
   * cut off; the btrim check refuses what is left if it is all spaces.
   */
  function TitleColumn(title: string): (r: Result<string, StoreError>)
    ensures r == Err(ValueTooLong) <==> |title| > TitleMaxLength && !Blank(title[TitleMaxLength..])
    ensures r == Err(TitleBlank) <==> Blank(title)
    ensures r.Err? ==> r.error in {ValueTooLong, TitleBlank}
    ensures r.Ok? ==> StoredTitleOk(r.value) && r.value <= title && Blank(title[|r.value|..])
    ensures |title| <= TitleMaxLength ==> (r.Ok? <==> StoredTitleOk(title)) && (r.Ok? ==> r.value == title)
    ensures |title| > TitleMaxLength && r.Ok? ==> r.value == title[..TitleMaxLength]
  {
    if |title| > TitleMaxLength && !Blank(title[TitleMaxLength..]) then
      BlankSplit(title, TitleMaxLength);
      Err(ValueTooLong)
    else
      var kept := if |title| > TitleMaxLength then title[..TitleMaxLength] else title;
      BlankSplit(title, |kept|);
      BtrimSpec(kept);
      if |Btrim(kept)| == 0 then Err(TitleBlank) else Ok(kept)
  }

  // ---------------------------------------------------------------------
  // Store invariants
  // ---------------------------------------------------------------------

  /**
   * Every stored note sits under its own id, below the next id the sequence
   * hands out, with a title the table accepts, an importance that passed
   * validation and timestamps taken from the clock's past.
   */
  ghost predicate NotesValid(notes: map<int, Note>, nextNoteId: int, clock: nat)
  {
    && 1 <= nextNoteId
    && Keyed(notes, nextNoteId)
    && forall k :: k in notes ==>
      && StoredTitleOk(notes[k].title)
      && (notes[k].importance.Some? ==> ImportanceInRange(notes[k].importance.value))
      && notes[k].createdAt <= notes[k].updatedAt < clock
  }

  /** Every stored note sits under its own id, one the id sequence has already handed out. */
  ghost predicate Keyed(notes: map<int, Note>, nextNoteId: int)
  {
    forall k :: k in notes ==> notes[k].id == k && 1 <= k < nextNoteId
  }

  /** The link table's constraints, with ids below the next one handed out. */
  ghost predicate LinksValid(notes: map<int, Note>, links: seq<NoteLink>, nextLinkId: int)
  {
    && 1 <= nextLinkId
    && (forall l :: l in links ==> 1 <= l.id < nextLinkId)
    && IdsIncreasing(links)
    && NoSelfLinks(links)
    && UniquePairs(links)
    && ForeignKeys(notes, links)
  }

  /** Inserting a note under a fresh id with an accepted title keeps every invariant. */
  lemma InsertNoteKeepsValid(notes: map<int, Note>, links: seq<NoteLink>, nextNoteId: int, nextLinkId: int,
                             clock: nat, note: Note)
    requires NotesValid(notes, nextNoteId, clock) && LinksValid(notes, links, nextLinkId)
    requires note.id == nextNoteId && StoredTitleOk(note.title)
    requires note.importance.Some? ==> ImportanceInRange(note.importance.value)
    requires note.createdAt == note.updatedAt == clock
    ensures nextNoteId !in notes
    ensures NotesValid(notes[nextNoteId := note], nextNoteId + 1, clock + 1)
    ensures LinksValid(notes[nextNoteId := note], links, nextLinkId)
  {
  }

  /** Rewriting a stored note in place, stamped with the current clock, keeps every invariant. */
  lemma ReplaceNoteKeepsValid(notes: map<int, Note>, links: seq<NoteLink>, nextNoteId: int, nextLinkId: int,
                              clock: nat, note: Note)
    requires NotesValid(notes, nextNoteId, clock) && LinksValid(notes, links, nextLinkId)
    requires note.id in notes && StoredTitleOk(note.title)
    requires note.importance.Some? ==> ImportanceInRange(note.importance.value)
    requires note.createdAt == notes[note.id].createdAt && note.updatedAt == clock
    ensures NotesValid(notes[note.id := note], nextNoteId, clock + 1)
    ensures LinksValid(notes[note.id := note], links, nextLinkId)
  {
  }

  /**
   * Deleting a note together with the links the cascade removes keeps every
   * invariant; in particular no remaining link refers to the deleted note.
   */
  lemma DeleteNoteKeepsValid(notes: map<int, Note>, links: seq<NoteLink>, nextNoteId: int, nextLinkId: int,
                             clock: nat, id: int)
    requires NotesValid(notes, nextNoteId, clock) && LinksValid(notes, links, nextLinkId)
    ensures NotesValid(notes - {id}, nextNoteId, clock)
    ensures LinksValid(notes - {id}, Detach(links, id), nextLinkId)
  {
    FilterKeepsIdsIncreasing(links, (l: NoteLink) => l.parentId != id && l.childId != id);
  }

  /** Appending a new link between two stored notes that are not yet linked keeps every invariant. */
  lemma AppendLinkKeepsValid(notes: map<int, Note>, links: seq<NoteLink>, nextLinkId: int, p: int, c: int)
    requires LinksValid(notes, links, nextLinkId)
    requires p in notes && c in notes && p != c
    requires forall l :: l in links ==> !(l.parentId == p && l.childId == c)
    ensures LinksValid(notes, links + [NoteLink(nextLinkId, p, c)], nextLinkId + 1)
  {
  }

  /** Removing one link by id keeps every invariant. */
  lemma UnlinkKeepsValid(notes: map<int, Note>, links: seq<NoteLink>, nextLinkId: int, id: int)
    requires LinksValid(notes, links, nextLinkId)
    ensures LinksValid(notes, Unlink(links, id), nextLinkId)
  {
    FilterKeepsIdsIncreasing(links, (l: NoteLink) => l.id != id);
  }

  // ---------------------------------------------------------------------
  // get_notes ordering
  // ---------------------------------------------------------------------

  /** The ids of the stored notes below `hi`, in ascending order. */
  function KeysBelow(notes: map<int, Note>, hi: int): (r: seq<int>)
    ensures forall i, j :: 0 <= i < j < |r| ==> r[i] < r[j]
    ensures forall k :: k in r <==> k in notes && 0 <= k < hi
    decreases hi
  {
    if hi <= 0 then []
    else
      var below := KeysBelow(notes, hi - 1);
      assert forall i :: 0 <= i < |below| ==> below[i] in below;
      below + (if hi - 1 in notes then [hi - 1] else [])
  }

  /** A strictly increasing sequence holds as many distinct values as it has entries. */
  lemma {:induction false} IncreasingCard(s: seq<int>)
    requires forall i, j :: 0 <= i < j < |s| ==> s[i] < s[j]
    ensures |set x | x in s| == |s|
  {
    if s != [] {
      var init := s[..|s| - 1];
      var last := s[|s| - 1];
      IncreasingCard(init);
      assert (set x | x in s) == (set x | x in init) + {last};
      assert last !in (set x | x in init);
    }
  }

  /** The notes in ascending id order, the order `get_notes` pages through. */
  function Catalogue(notes: map<int, Note>, nextNoteId: int): (r: seq<Note>)
    ensures |r| == |KeysBelow(notes, nextNoteId)|
    ensures forall i :: 0 <= i < |r| ==> r[i] == notes[KeysBelow(notes, nextNoteId)[i]]
  {
    var keys := KeysBelow(notes, nextNoteId);
    seq(|keys|, i requires 0 <= i < |keys| => notes[keys[i]])
  }

  /** Below an id bound past every key, the ascending keys are exactly the map's keys. */
  lemma {:induction false} KeysBelowAll(notes: map<int, Note>, nextNoteId: int)
    requires Keyed(notes, nextNoteId)
    ensures |KeysBelow(notes, nextNoteId)| == |notes|
  {
    var keys := KeysBelow(notes, nextNoteId);
    IncreasingCard(keys);
    assert (set x | x in keys) == notes.Keys;
  }

  /** The catalogue's ids are the ascending keys. */
  lemma CatalogueIds(notes: map<int, Note>, nextNoteId: int)
    requires Keyed(notes, nextNoteId)
    ensures Ids(Catalogue(notes, nextNoteId)) == KeysBelow(notes, nextNoteId)
  {
    var keys := KeysBelow(notes, nextNoteId);
    var all := Catalogue(notes, nextNoteId);
    forall i | 0 <= i < |all| ensures Ids(all)[i] == keys[i] {
      assert keys[i] in keys;
    }
  }

  /** The catalogue lists every stored note once, in strictly increasing id order. */
  lemma CatalogueListsEveryNote(notes: map<int, Note>, nextNoteId: int)
    requires Keyed(notes, nextNoteId)
    ensures |Catalogue(notes, nextNoteId)| == |notes|
    ensures forall n :: n in Catalogue(notes, nextNoteId) <==> n.id in notes && notes[n.id] == n
    ensures forall i, j :: 0 <= i < j < |Catalogue(notes, nextNoteId)| ==>
      Catalogue(notes, nextNoteId)[i].id < Catalogue(notes, nextNoteId)[j].id
  {
    var keys := KeysBelow(notes, nextNoteId);
    var all := Catalogue(notes, nextNoteId);
    KeysBelowAll(notes, nextNoteId);
    CatalogueIds(notes, nextNoteId);
    forall n: Note | n.id in notes && notes[n.id] == n ensures n in all {
      var i :| 0 <= i < |keys| && keys[i] == n.id;
      assert all[i] == n;
    }
    forall i | 0 <= i < |all| ensures all[i].id == keys[i] {
      assert Ids(all)[i] == keys[i];
    }
  }

  /**
   * The rows an `OFFSET skip LIMIT limit` clause keeps: those from position
   * `skip` on, at most `limit` of them.
   */
  function Page(rows: seq<Note>, skip: nat, limit: nat): (r: seq<Note>)
    ensures |r| <= limit
    ensures |r| == if skip >= |rows| then 0 else if limit < |rows| - skip then limit else |rows| - skip
    ensures forall i :: 0 <= i < |r| ==> skip + i < |rows| && r[i] == rows[skip + i]
  {
    if skip >= |rows| then []
    else if limit < |rows| - skip then rows[skip..skip + limit]
    else rows[skip..]
  }

  // ---------------------------------------------------------------------
  // create_link admission
  // ---------------------------------------------------------------------

  /** Where `create_link` stops, in the order its checks run. */
  datatype Admission = CycleRejected | EndpointMissing | DuplicateRejected | Admitted

  /**
   * The checks of `create_link(p, c)`: the circular-reference check, then
   * both endpoints stored, then no `(p, c)` link yet.
   */
  ghost function AdmissionOf(notes: map<int, Note>, links: seq<NoteLink>, p: int, c: int, rank: map<int, nat>): (r: Admission)
    requires p != c ==> Ranked(links, ToParents, rank) && c in rank
    ensures p == c ==> r == CycleRejected
    ensures r == Admitted ==> p != c && p in notes && c in notes && FindLink(links, p, c).None?
  {
    if IsCircular(notes, links, p, c, rank) then CycleRejected
    else if p !in notes || c !in notes then EndpointMissing
    else if FindLink(links, p, c).Some? then DuplicateRejected
    else Admitted
  }

  /**
   * A link is admitted exactly when its endpoints differ and are stored and
   * no path leads from `p` to `c` yet; an admitted link is never a self-link
   * or a duplicate. The duplicate lookup never decides the outcome: an
   * existing `(p, c)` link already makes `p` a parent, hence an ancestor, of `c`.
   */
  lemma AdmissionExact(notes: map<int, Note>, links: seq<NoteLink>, p: int, c: int, rank: map<int, nat>)
    requires p != c ==> Ranked(links, ToParents, rank) && c in rank
    requires ForeignKeys(notes, links)
    ensures AdmissionOf(notes, links, p, c, rank) == Admitted <==>
      p != c && p in notes && c in notes && !Reaches(links, p, c)
    ensures AdmissionOf(notes, links, p, c, rank) != DuplicateRejected
    ensures AdmissionOf(notes, links, p, c, rank) == Admitted ==>
      p != c && forall l :: l in links ==> !(l.parentId == p && l.childId == c)
  {
    CircularMeansForwardPath(notes, links, p, c, rank);
    var found := FindLink(links, p, c);
    if found.Some? {
      var l := found.value;
      assert From(l, ToChildren) == p && To(l, ToChildren) == c;
      assert Step(links, ToChildren, p, c);
      StepChained(links, ToChildren, p, c);
    }
  }

  // ---------------------------------------------------------------------
  // The service
  // ---------------------------------------------------------------------

  /** A note together with its parents and children, as `get_full_note` loads it. */
  datatype FullNote = FullNote(note: Note, parents: seq<Note>, children: seq<Note>)

  /** The stored notes for `ids`, in order. */
  function Lookup(notes: map<int, Note>, ids: seq<int>): (r: seq<Note>)
    requires forall i :: 0 <= i < |ids| ==> ids[i] in notes
    ensures |r| == |ids| && forall i :: 0 <= i < |ids| ==> r[i] == notes[ids[i]]
  {
    seq(|ids|, i requires 0 <= i < |ids| => notes[ids[i]])
  }

  /** Every note of `ns` is the row stored under its id. */
  ghost predicate Current(notes: map<int, Note>, ns: seq<Note>)
  {
    forall n :: n in ns ==> n.id in notes && notes[n.id] == n
  }

  /** Looking stored ids up and taking the ids back gives the same sequence. */
  lemma LookupIds(notes: map<int, Note>, ids: seq<int>)
    requires forall k :: k in notes ==> notes[k].id == k
    requires forall i :: 0 <= i < |ids| ==> ids[i] in notes
    ensures Ids(Lookup(notes, ids)) == ids
    ensures Current(notes, Lookup(notes, ids))
  {
    var found := Lookup(notes, ids);
    forall i | 0 <= i < |ids| ensures Ids(found)[i] == ids[i] {
      assert found[i] == notes[ids[i]];
    }
    assert Ids(found) == ids;
    forall n | n in found ensures n.id in notes && notes[n.id] == n {
      var i :| 0 <= i < |found| && found[i] == n;
      assert n == notes[ids[i]];
    }
  }

  /** Every endpoint a relationship view reports is a stored note. */
  lemma {:induction false} ViewsStored(notes: map<int, Note>, links: seq<NoteLink>, n: int)
    requires ForeignKeys(notes, links)
    ensures forall i :: 0 <= i < |Parents(links, n)| ==> Parents(links, n)[i] in notes
    ensures forall i :: 0 <= i < |Children(links, n)| ==> Children(links, n)[i] in notes
  {
    var ps, cs := Parents(links, n), Children(links, n);
    forall i | 0 <= i < |ps| ensures ps[i] in notes {
      assert ps[i] in ps;
    }
    forall i | 0 <= i < |cs| ensures cs[i] in notes {
      assert cs[i] in cs;
    }
  }

  class NoteService {
    var notes: map<int, Note>
    var links: seq<NoteLink>
    var nextNoteId: int
    var nextLinkId: int
    /** Stands for the database clock behind `now()`. */
    var clock: nat

    ghost predicate Valid()
      reads this
    {
      NotesValid(notes, nextNoteId, clock) && LinksValid(notes, links, nextLinkId)
    }

    /** An empty store; both sequences start at 1. */
    constructor ()
      ensures Valid()
      ensures notes == map[] && links == [] && nextNoteId == 1 && nextLinkId == 1
    {
      notes, links := map[], [];
      nextNoteId, nextLinkId := 1, 1;
      clock := 0;
    }

    /**
     * `create_note`: inserts a note under the next id with both timestamps
     * set to now. A title of spaces only fails the table's check; the id
     * drawn for the failed insert stays spent.
     */
    method CreateNote(data: NoteCreate) returns (r: Result<Note, StoreError>)
      requires Valid()
      modifies this
      ensures Valid()
      ensures links == old(links) && nextLinkId == old(nextLinkId)
      ensures nextNoteId == old(nextNoteId) + 1
      ensures r.Ok? <==> |Btrim(data.title)| > 0
      ensures r.Ok? ==>
        && r.value == Note(old(nextNoteId), data.title, data.content, data.importance, old(clock), old(clock))
        && old(nextNoteId) !in old(notes)
        && notes == old(notes)[r.value.id := r.value]
        && clock == old(clock) + 1
      ensures r.Err? ==> r.error == TitleBlank && notes == old(notes) && clock == old(clock)
    {
      var id := nextNoteId;
      var stored := TitleColumn(data.title);
      if stored.Err? {
        nextNoteId := nextNoteId + 1;
        return Err(stored.error);
      }
      var note := Note(id, data.title, data.content, data.importance, clock, clock);
      InsertNoteKeepsValid(notes, links, id, nextLinkId, clock, note);
      notes := notes[id := note];
      nextNoteId := nextNoteId + 1;
      clock := clock + 1;
      r := Ok(note);
    }

    /** `get_note`: the note stored under `id`, if any. */
    function GetNote(id: int): (r: Option<Note>)
      reads this
      requires Valid()
      ensures r.Some? <==> id in notes
      ensures r.Some? ==> r.value == notes[id] && r.value.id == id
    {
      if id in notes then Some(notes[id]) else None
    }

    /**
     * `get_full_note`: the note with its parents and children, each in link
     * order, or nothing for an unknown id.
     */
    function GetFullNote(id: int): (r: Option<FullNote>)
      reads this
      requires Valid()
      ensures r.Some? <==> id in notes
      ensures r.Some? ==> r.value.note == notes[id]
      ensures r.Some? ==> Ids(r.value.parents) == Parents(links, id) && Ids(r.value.children) == Children(links, id)
      ensures r.Some? ==> Current(notes, r.value.parents) && Current(notes, r.value.children)
    {
      if id !in notes then None
      else
        ViewsStored(notes, links, id);
        LookupIds(notes, Parents(links, id));
        LookupIds(notes, Children(links, id));
        Some(FullNote(notes[id], Lookup(notes, Parents(links, id)), Lookup(notes, Children(links, id))))
    }

    /**
     * `get_notes(skip, limit)`: the notes from position `skip` on, at most
     * `limit` of them, in id order; nothing once `skip` passes the last note.
     * PostgreSQL refuses a negative OFFSET or LIMIT.
     */
    function GetNotes(skip: int := 0, limit: int := 100): (r: Result<seq<Note>, StoreError>)
      reads this
      requires Valid()
      ensures r.Err? <==> skip < 0 || limit < 0
      ensures r.Err? ==> r.error == NegativeWindow
      ensures r.Ok? ==> |r.value| <= limit
      ensures r.Ok? ==> |r.value| == if skip >= |notes| then 0
                                     else if limit < |notes| - skip then limit else |notes| - skip
      ensures r.Ok? ==> forall i :: 0 <= i < |r.value| ==>
        skip + i < |Catalogue(notes, nextNoteId)| && r.value[i] == Catalogue(notes, nextNoteId)[skip + i]
    {
      CatalogueListsEveryNote(notes, nextNoteId);
      if skip < 0 || limit < 0 then Err(NegativeWindow)
      else Ok(Page(Catalogue(notes, nextNoteId), skip, limit))
    }

    /**
     * `update_note`: applies the supplied fields to the note under `id` and
     * stamps it with now; nothing for an unknown id. A null title breaks
     * NOT NULL and a blank one the title check, and then nothing changes.
     */
    method UpdateNote(id: int, data: NoteUpdate) returns (r: Result<Option<Note>, StoreError>)
      requires Valid()
      modifies this
      ensures Valid()
      ensures links == old(links) && nextNoteId == old(nextNoteId) && nextLinkId == old(nextLinkId)
      ensures id !in old(notes) ==> r == Ok(None) && notes == old(notes) && clock == old(clock)
      ensures id in old(notes) && data.title.SetNull? ==>
        r == Err(TitleNull) && notes == old(notes) && clock == old(clock)
      ensures id in old(notes) && data.title.SetTo? && !StoredTitleOk(data.title.value) ==>
        r == Err(TitleBlank) && notes == old(notes) && clock == old(clock)
      ensures id in old(notes) && (data.title.Unset? || (data.title.SetTo? && StoredTitleOk(data.title.value))) ==>
        r.Ok?
      ensures id in old(notes) && r.Ok? ==>
        && !data.title.SetNull?
        && r.value.Some?
        && notes == old(notes)[id := r.value.value]
        && clock == old(clock) + 1
        && PatchOf(old(notes)[id], r.value.value, data, old(clock))
    {
      if id !in notes {
        return Ok(None);
      }
      var note := notes[id];
      var title := note.title;
      match data.title {
        case SetNull =>
          return Err(TitleNull);
        case SetTo(t) =>
          var stored := TitleColumn(t);
          if stored.Err? {
            return Err(stored.error);
          }
          title := stored.value;
        case Unset =>
      }
      var updated := Note(id, title, Applied(note.content, data.content),
                          Applied(note.importance, data.importance), note.createdAt, clock);
      ReplaceNoteKeepsValid(notes, links, nextNoteId, nextLinkId, clock, updated);
      notes := notes[id := updated];
      clock := clock + 1;
      r := Ok(Some(updated));
    }

    /**
     * `delete_note`: false for an unknown id. Otherwise removes the note and,
     * by cascade, every link it is the parent or the child of.
     */
    method DeleteNote(id: int) returns (deleted: bool)
      requires Valid()
      modifies this
      ensures Valid()
      ensures deleted <==> id in old(notes)
      ensures nextNoteId == old(nextNoteId) && nextLinkId == old(nextLinkId) && clock == old(clock)
      ensures deleted ==> notes == old(notes) - {id} && links == Detach(old(links), id)
      ensures !deleted ==> notes == old(notes) && links == old(links)
      ensures id !in notes && forall l :: l in links ==> l.parentId != id && l.childId != id
    {
      if id !in notes {
        deleted := false;
      } else {
        DeleteNoteKeepsValid(notes, links, nextNoteId, nextLinkId, clock, id);
        notes := notes - {id};
        links := Detach(links, id);
        deleted := true;
      }
    }

    /**
     * `create_link`: runs the circular-reference check, then looks both
     * endpoints and an existing `(p, c)` link up, and appends the link under
     * the next id only when every check passes. Any rejection writes nothing.
     */
    method CreateLink(data: NoteLinkCreate, ghost rank: map<int, nat>) returns (r: Option<NoteLink>)
      requires Valid()
      requires data.parentId != data.childId ==> Ranked(links, ToParents, rank) && data.childId in rank
      modifies this
      ensures Valid()
      ensures notes == old(notes) && nextNoteId == old(nextNoteId) && clock == old(clock)
      ensures AdmissionOf(old(notes), old(links), data.parentId, data.childId, rank) == Admitted ==>
        && r == Some(NoteLink(old(nextLinkId), data.parentId, data.childId))
        && links == old(links) + [r.value]
        && nextLinkId == old(nextLinkId) + 1
      ensures AdmissionOf(old(notes), old(links), data.parentId, data.childId, rank) != Admitted ==>
        r == None && links == old(links) && nextLinkId == old(nextLinkId)
    {
      var circular := CheckCircularReference(data.parentId, data.childId, rank);
      if circular {
        return None;
      }
      var parent := GetNote(data.parentId);
      var child := GetNote(data.childId);
      var existing := FindLink(links, data.parentId, data.childId);
      if parent.Some? && child.Some? && existing.None? {
        var link := NoteLink(nextLinkId, data.parentId, data.childId);
        AppendLinkKeepsValid(notes, links, nextLinkId, data.parentId, data.childId);
        links := links + [link];
        nextLinkId := nextLinkId + 1;
        return Some(link);
      }
      return None;
    }

    /** `get_links_by_participant`: exactly the links `id` is the parent or the child of, each once. */
    function GetLinksByParticipant(id: int): (r: seq<NoteLink>)
      requires Valid()
      reads this
      ensures forall l :: l in r <==> l in links && (l.parentId == id || l.childId == id)
      ensures forall i, j :: 0 <= i < j < |r| ==> r[i] != r[j]
    {
      var keep := (l: NoteLink) => l.parentId == id || l.childId == id;
      FilterKeepsIdsIncreasing(links, keep);
      Filter(links, keep)
    }

    /** `get_link_by_id`: the link with id `id`, if any. */
    function GetLinkById(id: int): (r: Option<NoteLink>)
      reads this
      ensures r.Some? ==> r.value in links && r.value.id == id
      ensures r.None? <==> forall l :: l in links ==> l.id != id
    {
      FindLinkById(links, id)
    }

    /** `delete_link`: false for an unknown id; otherwise removes that link. */
    method DeleteLink(id: int) returns (deleted: bool)
      requires Valid()
      modifies this
      ensures Valid()
      ensures deleted <==> exists l :: l in old(links) && l.id == id
      ensures notes == old(notes) && nextNoteId == old(nextNoteId) && nextLinkId == old(nextLinkId) && clock == old(clock)
      ensures deleted ==> links == Unlink(old(links), id)
      ensures !deleted ==> links == old(links)
      ensures GetLinkById(id).None?
    {
      var found := GetLinkById(id);
      if found.None? {
        return false;
      }
      UnlinkKeepsValid(notes, links, nextLinkId, id);
      links := Unlink(links, id);
      return true;
    }

    /**
     * The walk shared by `get_ancestors` and `get_descendants`: for each
     * neighbour of a stored note, in link order, the neighbour and then its
     * own walk.
     */
    method Collect(n: int, d: Direction, ghost rank: map<int, nat>) returns (r: seq<Note>)
      requires Keyed(notes, nextNoteId) && ForeignKeys(notes, links) && Ranked(links, d, rank) && n in rank
      ensures Ids(r) == Walk(notes, links, d, n, rank)
      ensures Current(notes, r)
      decreases rank[n]
    {
      if n !in notes {
        return [];
      }
      var next := Next(links, n, d);
      ghost var bound := rank[n];
      NextRankedBelow(links, d, rank, n);
      NextStored(notes, links, n, d);
      r := [];
      for i := 0 to |next|
        invariant Ids(r) == WalkFrom(notes, links, d, next[..i], rank, bound)
        invariant Current(notes, r)
      {
        assert next[i] in next;
        var neighbour := notes[next[i]];
        var further := Collect(neighbour.id, d, rank);
        WalkFromStep(notes, links, d, next, i, rank, bound, r, neighbour, further);
        r := r + [neighbour] + further;
      }
      assert next[..|next|] == next;
    }

    /** `get_ancestors`: every note that reaches `n`, once per path; nothing for an unknown note. */
    method GetAncestors(n: int, ghost rank: map<int, nat>) returns (r: seq<Note>)
      requires Valid() && Ranked(links, ToParents, rank) && n in rank
      ensures Ids(r) == Ancestors(notes, links, n, rank)
      ensures Current(notes, r)
      ensures forall x :: x in Ids(r) <==> Reaches(links, x, n)
      ensures n !in notes ==> r == []
    {
      r := Collect(n, ToParents, rank);
      forall x ensures x in Ids(r) <==> Reaches(links, x, n) {
        AncestorsExact(notes, links, n, rank, x);
      }
    }

    /** `get_descendants`: every note `n` reaches, once per path; nothing for an unknown note. */
    method GetDescendants(n: int, ghost rank: map<int, nat>) returns (r: seq<Note>)
      requires Valid() && Ranked(links, ToChildren, rank) && n in rank
      ensures Ids(r) == Descendants(notes, links, n, rank)
      ensures Current(notes, r)
      ensures forall x :: x in Ids(r) <==> Reaches(links, n, x)
      ensures n !in notes ==> r == []
    {
      r := Collect(n, ToChildren, rank);
      forall x ensures x in Ids(r) <==> Reaches(links, n, x) {
        DescendantsExact(notes, links, n, rank, x);
      }
    }

    /**
     * `check_circular_reference(p, c)`: true when `p == c` without looking
     * at the store, and otherwise when `p` is among the ancestors of `c`,
     * that is when a path from `p` down to `c` already exists.
     */
    method CheckCircularReference(p: int, c: int, ghost rank: map<int, nat>) returns (r: bool)
      requires Valid() && (p != c ==> Ranked(links, ToParents, rank) && c in rank)
      ensures r == IsCircular(notes, links, p, c, rank)
      ensures r <==> p == c || Reaches(links, p, c)
    {
      if p == c {
        return true;
      }
      CircularMeansForwardPath(notes, links, p, c, rank);
      var ancestors := GetAncestors(c, rank);
      r := p in Ids(ancestors);
    }
  }

  // ---------------------------------------------------------------------
  // The missing importance attribute
  // ---------------------------------------------------------------------

  /**
   * As written, `Note(**note_data.model_dump())` always passes `importance`,
   * which class `Note` does not map, so the constructor raises for every
   * creation request, whatever its fields.
   */
  lemma CreateNoteAsWrittenRaises()
    ensures "importance" in CreateDumpKeys && "importance" !in NoteAttributesAsWritten
    ensures !(CreateDumpKeys <= NoteAttributesAsWritten)
  {
  }

  /**
   * As written, the UPDATE names an unmapped column exactly when the request
   * supplies `importance`; updates of title and content alone go through.
   */
  lemma UpdateNoteAsWrittenRaises(u: NoteUpdateFields)
    ensures UpdateDumpKeys(u) <= NoteAttributesAsWritten <==> u.importance.Unset?
  {
  }

  /**
   * With `importance` mapped, every key either dump produces names an
   * attribute, which is what `CreateNote` and `UpdateNote` assume.
   */
  lemma DumpKeysMapped(u: NoteUpdateFields)
    ensures CreateDumpKeys <= NoteAttributes
    ensures UpdateDumpKeys(u) <= NoteAttributes
  {
  }

  // ---------------------------------------------------------------------
  // The discrepancy, driven through the service
  // ---------------------------------------------------------------------

  /** A title with a character other than a space survives the title check. */
  lemma NamedTitleStored(title: string)
    requires 1 <= |title| <= TitleMaxLength && title[0] != ' '
    ensures StoredTitleOk(title)
  {
    BtrimSpec(title);
  }

  /** Three notes created on an empty store get the ids 1, 2 and 3. */
  method ThreeNotes() returns (s: NoteService)
    ensures fresh(s) && s.Valid()
    ensures s.links == [] && s.nextLinkId == 1 && s.nextNoteId == 4
    ensures 1 in s.notes && 2 in s.notes && 3 in s.notes
  {
    s := new NoteService();
    NamedTitleStored("Root");
    NamedTitleStored("Child");
    NamedTitleStored("Grandchild");
    var a := s.CreateNote(NoteCreateFields("Root", None, None));
    var b := s.CreateNote(NoteCreateFields("Child", None, None));
    var c := s.CreateNote(NoteCreateFields("Grandchild", None, None));
  }

  /** Two more notes, 4 and 5, to be linked later beside the others. */
  method FiveNotes() returns (s: NoteService)
    ensures fresh(s) && s.Valid()
    ensures s.links == [] && s.nextLinkId == 1
    ensures 1 in s.notes && 2 in s.notes && 3 in s.notes && 4 in s.notes && 5 in s.notes
  {
    s := ThreeNotes();
    NamedTitleStored("Fourth");
    NamedTitleStored("Fifth");
    var d := s.CreateNote(NoteCreateFields("Fourth", None, None));
    var e := s.CreateNote(NoteCreateFields("Fifth", None, None));
  }

  /** The link 1 -> 2 is admitted on fresh notes. */
  method FirstLinkScenario() returns (s: NoteService)
    ensures fresh(s) && s.Valid()
    ensures s.links == [NoteLink(1, 1, 2)] && s.nextLinkId == 2
    ensures 1 in s.notes && 2 in s.notes && 3 in s.notes && 4 in s.notes && 5 in s.notes
  {
    s := FiveNotes();
    LeafReachesNothing(s.links, 1, 2);
    AdmissionExact(s.notes, s.links, 1, 2, ChainRank());
    var first := s.CreateLink(NoteLinkCreate(1, 2), ChainRank());
  }

  /** The link 2 -> 3 is admitted next, completing the chain 1 -> 2 -> 3. */
  method ChainScenario() returns (s: NoteService)
    ensures fresh(s) && s.Valid()
    ensures s.links == ChainLinks() && s.nextLinkId == 3
    ensures 1 in s.notes && 3 in s.notes && 4 in s.notes && 5 in s.notes
  {
    s := FirstLinkScenario();
    ChainWellFormed();
    assert s.links == ChainLinks()[..1];
    RankedPrefix(ChainLinks(), 1, ToParents, ChainRank());
    LeafReachesNothing(s.links, 2, 3);
    AdmissionExact(s.notes, s.links, 2, 3, ChainRank());
    var second := s.CreateLink(NoteLinkCreate(2, 3), ChainRank());
  }

  /**
   * After the chain 1 -> 2 -> 3 has been built through the service, the back
   * link 3 -> 1 passes every check of `create_link`, and the stored links
   * contain the cycle 1 -> 2 -> 3 -> 1.
   */
  method BackEdgeScenario() returns (s: NoteService, last: Option<NoteLink>)
    ensures fresh(s) && s.Valid()
    ensures last == Some(NoteLink(3, 3, 1))
    ensures s.links == ChainLinks() + [NoteLink(3, 3, 1)] && s.nextLinkId == 4
    ensures 4 in s.notes && 5 in s.notes
    ensures !Acyclic(s.links)
  {
    s := ChainScenario();
    BackEdgePassesCheck();
    ChainPaths();
    AdmissionExact(s.notes, s.links, 3, 1, ChainRank());
    last := s.CreateLink(NoteLinkCreate(3, 1), ChainRank());
  }

  /** In the table the back edge left, note 4 is no link's parent and note 5 no link's child. */
  lemma NothingAboveFive()
    ensures Ranked(ChainLinks() + [NoteLink(3, 3, 1)], ToParents, map[5 := 0])
    ensures forall l :: l in ChainLinks() + [NoteLink(3, 3, 1)] ==> l.parentId != 4
  {
  }

  /**
   * The cycle 1 -> 2 -> 3 -> 1 does not stop `create_link` elsewhere: no
   * cycle lies above note 5, so the link 4 -> 5 is checked and inserted.
   */
  method LinkBesideCycleScenario() returns (s: NoteService, beside: Option<NoteLink>)
    ensures fresh(s) && s.Valid()
    ensures beside == Some(NoteLink(4, 4, 5))
    ensures s.links == ChainLinks() + [NoteLink(3, 3, 1), NoteLink(4, 4, 5)]
  {
    var last;
    s, last := BackEdgeScenario();
    NothingAboveFive();
    LeafReachesNothing(s.links, 4, 5);
    AdmissionExact(s.notes, s.links, 4, 5, map[5 := 0]);
    beside := s.CreateLink(NoteLinkCreate(4, 5), map[5 := 0]);
  }

  /** The cycle 1 -> 2 -> 3 -> 1 is still there after the link 4 -> 5. */
  lemma CycleStays()
    ensures !Acyclic(ChainLinks() + [NoteLink(3, 3, 1), NoteLink(4, 4, 5)])
  {
    var links := ChainLinks() + [NoteLink(3, 3, 1), NoteLink(4, 4, 5)];
    assert links[0] in links && links[1] in links && links[2] in links;
    assert Step(links, ToChildren, 1, 2) && Step(links, ToChildren, 2, 3) && Step(links, ToChildren, 3, 1);
    assert IsChain(links, ToChildren, [1, 2, 3, 1]);
    assert Reaches(links, 1, 1);
  }

  /** On that cyclic table the self-link 2 -> 2 is refused before any walk, with no rank at all. */
  method SelfLinkBesideCycleScenario() returns (s: NoteService, self: Option<NoteLink>)
    ensures s.Valid()
    ensures self == None
    ensures !Acyclic(s.links)
  {
    var beside;
    s, beside := LinkBesideCycleScenario();
    self := s.CreateLink(NoteLinkCreate(2, 2), map[]);
    CycleStays();
  }
}
