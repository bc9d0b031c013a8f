# notes-graph in Dafny

A model of the graph layer of the notes-graph backend: notes with a title,
optional content and an optional importance, and directed parent→child links
between them, kept in PostgreSQL through SQLAlchemy. The model covers the
`NoteService` operations (`backend/app/services/note_service.py`), the table
constraints and relationship views of the ORM classes
(`backend/app/models/note.py`) and the field bounds of the pydantic request
schemas (`backend/app/schemas/note.py`).

The store is a class, `NoteServices.NoteService`, whose fields stand for the
two tables and the two id sequences: `notes: map<int, Note>`,
`links: seq<NoteLink>` (in insertion order), `nextNoteId`, `nextLinkId`, and
a `clock` that stands for the database's `now()`. Each service call is one
atomic step on that state. A call the database refuses changes nothing,
except that a refused note insert still spends its id.
The class invariant `Valid()` collects the table constraints: titles the
check constraint accepts, no self-links, one link per (parent, child) pair,
foreign keys, and ids below the next value of their sequence.

Files:

- `wrappers.dfy`: `Option` and `Result`.
- `models.dfy` (module `Models`): the rows, PostgreSQL `btrim` and the title
  check, the `parents`/`children` views, the table constraints, the cascade
  (`Detach`) and the row lookups.
- `schemas.dfy` (module `Schemas`): `NoteCreate` and `NoteUpdate` as subset
  types with their validation functions, partial updates (`Patch`), the keys
  `model_dump` hands on, `NoteLinkCreate` and `NoteLinkSummary`.
- `graph.dfy` (module `Graph`): paths along links in either direction,
  `Reaches`, `Acyclic`, and rank maps that bound every path.
- `traversal.dfy` (module `Traversal`): the walks of `get_ancestors` and
  `get_descendants` as specification functions, what they contain, what
  `check_circular_reference` decides, and the check that would keep the
  links acyclic.
- `note_service.dfy` (module `NoteServices`): the store invariants, the
  class `NoteService` with one member per service method, `create_link`'s
  admission rule, and the service-level scenarios behind the findings.

The recursion of `get_ancestors`/`get_descendants` ends only when the walk
meets no cycle on its way; a cycle elsewhere in the table does not matter.
The model therefore passes a ghost rank map to the walk. The map covers the
start note and every note the walk can step to from a covered note, and it
strictly decreases along every such step (`Graph.Ranked`). A covered note
lies on no cycle (`Graph.RankedIsAcyclic`). The converse, that such a map
exists whenever no cycle lies on the walk's way, is not proved.
`check_circular_reference(p, p)` answers before any walk and needs no map.

Where the code and what the code itself states it should do disagree, the
model follows the code. Three places:

- The method name `check_circular_reference` and its use as the first
  test of `create_link` say that a link closing a cycle is refused. After
  1→2→3 the code admits `create_link(3, 1)` (first finding below).
- `importance` is a field of `NoteBase` and of `NoteLinkSummary`
  (`backend/app/schemas/note.py:22-27,109`), and the API reads
  `note.importance` (`backend/app/api/notes.py:67,87`). Class `Note` does not
  map it (second finding below).
- The comment on the check constraint (`backend/app/models/note.py:26`) says
  a title may not be empty. The request schema only asks for at least one
  character, so `"   "` passes validation. Only the table's `btrim` check
  refuses it, when the row is inserted or updated.

## Model

| member | source | states |
|---|---|---|
| Models.Btrim | backend/app/models/note.py:26 | PostgreSQL `btrim` with its default set (a single space); the result is never longer than the argument |
| Models.BtrimSpec | backend/app/models/note.py:26 | the result of btrim neither starts nor ends with a space, and it is empty exactly when the title is all spaces |
| Models.StoredTitleOk | backend/app/models/note.py:19-26 | the title the `note` table keeps: at most 200 characters and not blank after btrim; such a title has at least one character |
| Models.Parents | backend/app/models/note.py:45-48 | `q` is among a note's parents exactly when some link has that note as child and `q` as parent; never more entries than links |
| Models.Children | backend/app/models/note.py:50-53 | `q` is among a note's children exactly when some link has that note as parent and `q` as child; never more entries than links |
| Models.ParentsChildrenSymmetric | backend/app/models/note.py:31-53 | `b` is a child of `a` exactly when `a` is a parent of `b` |
| Models.Filter | backend/app/services/note_service.py:106-113 | a WHERE clause keeps exactly the rows satisfying the condition and never adds any |
| Models.NoSelfLinks | backend/app/models/note.py:73 | ck_no_self_link: no link joins a note to itself, so no note is among its own parents or children |
| Models.UniquePairs | backend/app/models/note.py:72 | uq_note_link: one link per (parent, child) pair, so looking a pair up finds the very link that joins it |
| Models.ForeignKeys | backend/app/models/note.py:67-68 | both endpoints of every link are stored notes, so every parent and child a view reports is stored |
| Models.FilterKeepsIdsIncreasing | backend/app/models/note.py:66 | rows selected from a table with increasing ids still have increasing ids |
| Models.Detach | backend/app/models/note.py:67-68 | the links that survive deleting a note are exactly those in which it is neither parent nor child |
| Models.Unlink | backend/app/services/note_service.py:119-126 | the links left after deleting a link id are exactly the others |
| Models.FindLinkById | backend/app/services/note_service.py:115-117 | a found link is stored and has that id; nothing is found only when no stored link has it |
| Models.FindLink | backend/app/services/note_service.py:92-95 | a found link is stored and joins `p` to `c`; nothing is found only when no stored link does |
| Schemas.TitleErrors | backend/app/schemas/note.py:12-17 | a title draws no error exactly when it has 1..200 characters; too short and too long are reported as such |
| Schemas.ImportanceErrors | backend/app/schemas/note.py:22-27 | an importance draws no error exactly when it lies in 0..9 |
| Schemas.ValidateNoteCreate | backend/app/schemas/note.py:12-27 | a creation request is accepted, unchanged, exactly when its title has 1..200 characters and its importance is absent or in 0..9; a rejection names every offending field |
| Schemas.CreateContentUnconstrained | backend/app/schemas/note.py:18-21 | content never decides whether a creation request is accepted |
| Schemas.BlankTitlePassesValidation | backend/app/models/note.py:26 | a title of three spaces passes the schema but fails the table's btrim check |
| Schemas.ValidateNoteUpdate | backend/app/schemas/note.py:45-60 | an update is accepted exactly when a supplied title has 1..200 characters and a supplied importance lies in 0..9; an update supplying neither is always accepted |
| Schemas.UpdateDumpKeys | backend/app/services/note_service.py:59 | `exclude_unset` hands on exactly the supplied fields, nulls included |
| Schemas.Applied | backend/app/services/note_service.py:59-62 | an unsupplied field keeps its value, a null one becomes NULL, a supplied value is written |
| Schemas.Summarize | backend/app/schemas/note.py:107-109 | a summary carries the note's id, title and importance |
| Schemas.SummaryForgetsContent | backend/app/schemas/note.py:101-109 | notes that differ only in content and timestamps have the same summary |
| Graph.LeafReachesNothing | backend/app/services/note_service.py:144-157 | a note that is no link's parent reaches no note |
| Graph.ChainedFlip | backend/app/models/note.py:45-53 | a path downward from `a` to `b` is a path upward from `b` to `a`, and back |
| Graph.ChainDescends | backend/app/services/note_service.py:128-142 | along every path from a ranked note the rank strictly falls, so the walk's recursion ends |
| Graph.RankedIsAcyclic | backend/app/services/note_service.py:128-157 | no ranked note lies on a cycle; a rank covering the start of every link rules out every cycle |
| Traversal.Next | backend/app/models/note.py:45-53 | the neighbours in a direction are exactly the notes one link away in that direction |
| Traversal.Walk | backend/app/services/note_service.py:128-157 | the walk of `get_ancestors`/`get_descendants`: nothing for an unknown note, and every note it lists ranks below the start |
| Traversal.Ancestors | backend/app/services/note_service.py:128-142 | `get_ancestors(n)` as ids: nothing for an unknown note, and only notes that reach `n` |
| Traversal.Descendants | backend/app/services/note_service.py:144-157 | `get_descendants(n)` as ids: nothing for an unknown note, and only notes that `n` reaches |
| Traversal.WalkFromStep | backend/app/services/note_service.py:137-140 | appending a neighbour and its own walk extends the walk over the neighbours by one |
| Traversal.WalkExact | backend/app/services/note_service.py:128-157 | a note is in the walk from `n` exactly when a path of one or more links leads there |
| Traversal.WalkStored | backend/app/services/note_service.py:128-157 | the walk visits stored notes only |
| Traversal.AncestorsExact | backend/app/services/note_service.py:128-142 | `x` is in `get_ancestors(n)` exactly when `x` reaches `n` |
| Traversal.DescendantsExact | backend/app/services/note_service.py:144-157 | `x` is in `get_descendants(n)` exactly when `n` reaches `x` |
| Traversal.AncestorDescendantSymmetry | backend/app/services/note_service.py:128-157 | `b` is a descendant of `a` exactly when `a` is an ancestor of `b` |
| Traversal.NeverOwnRelative | backend/app/services/note_service.py:128-157 | while a walk ends, no note is its own ancestor or descendant |
| Traversal.IsCircular | backend/app/services/note_service.py:159-168 | `check_circular_reference` as written: true for `p == c` without reading the store; otherwise true only when `p` already reaches `c` |
| Traversal.CircularMeansForwardPath | backend/app/services/note_service.py:159-168 | the check is true exactly when `p == c` or `p` already reaches `c`; it never asks whether `c` reaches `p` |
| Traversal.AdmissionKeepsAcyclic | backend/app/services/note_service.py:78-80 | on an acyclic table, adding `p → c` keeps it acyclic exactly when `p != c` and `c` does not reach `p` |
| Traversal.ChainPaths | backend/app/services/note_service.py:128-142 | on 1→2→3, note 1 reaches note 3 and note 3 reaches nothing |
| Traversal.ChainAncestors | backend/app/services/note_service.py:128-142 | on 1→2→3, `get_ancestors(3)` is exactly 2 then 1 |
| Traversal.ChainDescendants | backend/app/services/note_service.py:144-157 | on 1→2→3, `get_descendants(1)` is exactly 2 then 3 |
| Traversal.DiamondDescendants | backend/app/services/note_service.py:144-157 | on 1→2, 1→3, 2→4, 3→4, `get_descendants(1)` is 2, 4, 3, 4: a note is listed once per path |
| Traversal.DiamondAncestors | backend/app/services/note_service.py:128-142 | on the same diamond, `get_ancestors(4)` is 2, 1, 3, 1 |
| Traversal.BackEdgePassesCheck | backend/app/services/note_service.py:159-168 | on 1→2→3 the check lets 3→1 through, and adding it creates a cycle |
| Traversal.ShortcutRejected | backend/app/services/note_service.py:159-168 | on 1→2→3 the check refuses 1→3, though adding it keeps the table acyclic |
| NoteServices.TitleColumn | backend/app/models/note.py:19-26 | a title of at most 200 characters is stored unchanged exactly when it is not blank; a longer one is refused exactly when its excess holds a non-space, and is otherwise cut to 200 characters; a blank title fails the btrim check |
| NoteServices.InsertNoteKeepsValid | backend/app/services/note_service.py:14-22 | inserting a note with an accepted title under the next id keeps every table invariant |
| NoteServices.ReplaceNoteKeepsValid | backend/app/services/note_service.py:56-64 | rewriting a stored note with an accepted title keeps every table invariant |
| NoteServices.DeleteNoteKeepsValid | backend/app/models/note.py:31-42 | deleting a note together with its cascaded links keeps every invariant, foreign keys included |
| NoteServices.AppendLinkKeepsValid | backend/app/services/note_service.py:97-102 | a new link between two stored, distinct, unlinked notes keeps the no-self-link, unique-pair and foreign-key constraints |
| NoteServices.UnlinkKeepsValid | backend/app/services/note_service.py:119-126 | deleting a link keeps every link invariant |
| NoteServices.KeysBelow | backend/app/services/note_service.py:52 | the stored ids below a bound, each once, in increasing order |
| NoteServices.CatalogueIds | backend/app/services/note_service.py:52 | the listed notes carry the stored ids in increasing order |
| NoteServices.CatalogueListsEveryNote | backend/app/services/note_service.py:49-53 | the listing has one entry per stored note, contains exactly the stored notes, in increasing id order |
| NoteServices.Page | backend/app/services/note_service.py:52 | OFFSET/LIMIT keeps the rows from position `skip` on, at most `limit` of them, none once `skip` passes the end |
| NoteServices.AdmissionOf | backend/app/services/note_service.py:78-104 | the checks of `create_link` in their order; a self-link is refused by the first check before any lookup; an admitted link joins two distinct stored notes not yet linked |
| NoteServices.AdmissionExact | backend/app/services/note_service.py:78-104 | a link is admitted exactly when `p != c`, both notes are stored and `p` does not yet reach `c`; the duplicate lookup never decides; an admitted link is neither a self-link nor a duplicate |
| NoteServices.LookupIds | backend/app/services/note_service.py:39-46 | loading the notes for a list of ids gives back those ids, each as the stored row |
| NoteServices.ViewsStored | backend/app/models/note.py:67-68 | every parent and child a view reports is a stored note |
| NoteServices.CreateNoteAsWrittenRaises | backend/app/services/note_service.py:16 | the constructor always receives `importance`, which class `Note` does not map |
| NoteServices.UpdateNoteAsWrittenRaises | backend/app/services/note_service.py:59-62 | as written, an update names an unmapped column exactly when it supplies importance |
| NoteServices.DumpKeysMapped | backend/app/models/note.py:18-23 | with `importance` mapped, every dumped key of a create or an update names an attribute |
| NoteServices.NamedTitleStored | backend/app/models/note.py:26 | a title of 1..200 characters that does not start with a space passes the table's check |
| NoteServices.NoteService.constructor | backend/app/services/note_service.py:10-12 | an empty store satisfies every invariant; both sequences start at 1 |
| NoteServices.NoteService.CreateNote | backend/app/services/note_service.py:14-22 | a note with a non-blank title is stored under the next id, with both timestamps now and nothing else changed; a blank title fails the check, stores nothing, and the id stays spent |
| NoteServices.NoteService.GetNote | backend/app/services/note_service.py:24-27 | the stored note under `id`, and nothing exactly when there is none |
| NoteServices.NoteService.GetFullNote | backend/app/services/note_service.py:29-47 | the note with its parents and children, whose ids are exactly the `parents`/`children` views, each the stored row; nothing for an unknown id |
| NoteServices.NoteService.GetNotes | backend/app/services/note_service.py:49-53 | `skip` defaults to 0 and `limit` to 100; an error exactly for a negative skip or limit; otherwise at most `limit` notes, `min(limit, count - skip)` of them, the listing from position `skip` on |
| NoteServices.NoteService.UpdateNote | backend/app/services/note_service.py:56-64 | nothing for an unknown id; a null or refused title fails and changes nothing; an unset or accepted title always succeeds; on success only the supplied fields change, the note is stamped now, and every other note and link is kept |
| NoteServices.NoteService.DeleteNote | backend/app/services/note_service.py:66-75 | true exactly when the note existed; it and every link it takes part in are removed and nothing else changes; afterwards no link refers to it |
| NoteServices.NoteService.CreateLink | backend/app/services/note_service.py:78-104 | when the admission rule admits `(p, c)`, exactly one link `(p, c)` is appended under the next link id; otherwise nothing is written and nothing is returned; a self-link needs no rank, and a cycle that does not lie above `c` does not matter |
| NoteServices.NoteService.GetLinksByParticipant | backend/app/services/note_service.py:106-113 | exactly the links whose parent or child is the note, each listed once |
| NoteServices.NoteService.GetLinkById | backend/app/services/note_service.py:115-117 | the stored link with that id, and nothing exactly when there is none |
| NoteServices.NoteService.DeleteLink | backend/app/services/note_service.py:119-126 | true exactly when a link had that id; it is removed, nothing else changes, and afterwards no link has that id |
| NoteServices.NoteService.Collect | backend/app/services/note_service.py:128-142 | the loop returns the stored notes whose ids are the walk from `n`, in walk order |
| NoteServices.NoteService.GetAncestors | backend/app/services/note_service.py:128-142 | the walk over parents; a note is in it exactly when it reaches `n`; empty for an unknown note |
| NoteServices.NoteService.GetDescendants | backend/app/services/note_service.py:144-157 | the walk over children; a note is in it exactly when `n` reaches it; empty for an unknown note |
| NoteServices.NoteService.CheckCircularReference | backend/app/services/note_service.py:159-168 | true exactly when `p == c` or a path already leads from `p` to `c`; for `p == c` on any table, without a walk |
| NoteServices.ThreeNotes | backend/app/services/note_service.py:14-22 | three notes created on an empty store get ids 1, 2 and 3 |
| NoteServices.FiveNotes | backend/app/services/note_service.py:14-22 | two more notes created next get ids 4 and 5 |
| NoteServices.FirstLinkScenario | backend/app/services/note_service.py:78-104 | the link 1→2 is admitted on fresh notes |
| NoteServices.ChainScenario | backend/app/services/note_service.py:78-104 | the link 2→3 is admitted next, giving the chain 1→2→3 |
| NoteServices.BackEdgeScenario | backend/app/services/note_service.py:159-168 | through the service, the link 3→1 is then admitted and the stored links contain a cycle |
| NoteServices.LinkBesideCycleScenario | backend/app/services/note_service.py:78-104 | on that cyclic table, `create_link(4, 5)` still ends and inserts the link, since no cycle lies above note 5 |
| NoteServices.SelfLinkBesideCycleScenario | backend/app/services/note_service.py:159-161 | on the cyclic table, `create_link(2, 2)` is refused by the first test, with no walk |

## Left out

- Timestamps: the database clock is a counter, `clock`, that every stored note insert or update advances by one; deletes and link inserts leave it unchanged. Time zones and real time are not modelled.
- async/await, sessions, commit and refresh: each service call is one atomic step. The race between `create_link`'s checks and its insert is not modelled.
- The HTTP layer (`backend/app/api/`), configuration, migrations, session setup and `main.py` are not part of this model.
- NoteServices.NoteService.GetNotes: the query has no ORDER BY, so PostgreSQL may return rows in any order. The model lists them in id order.
- NoteServices.NoteService.GetAncestors and NoteServices.NoteService.GetDescendants require a rank map over the notes the walk can reach, so they are modelled only when no cycle lies on the walk's way. The code recurses on every note that has neighbours, and it recurses without end only when the walk reaches a cycle; Python then stops with `RecursionError`. It does the same on a very deep acyclic chain. Neither stop is modelled.
- NoteServices.NoteService.CheckCircularReference: for `p != c` it requires a rank map over the notes above `c`, so a call whose walk would meet a cycle, and end in `RecursionError`, is not modelled. The walk over `get_ancestors(c)` also ends in `RecursionError` when the chain of notes above `c` is deeper than Python's recursion limit (about a thousand); such a chain has a rank map, so the model returns an answer where the code raises. `p == c` needs no map.
- NoteServices.NoteService.CreateLink: like the check it calls, for `p != c` it requires a rank map over the notes above `c`. A cycle elsewhere in the table is allowed. When the chain above `c` is deeper than Python's recursion limit, the check raises `RecursionError` and no link is inserted; the model admits or refuses the link as if the walk had finished.
- NoteServices.NoteService.Collect: it is the recursion itself and requires a rank map over the notes the walk can reach, so a walk that meets a cycle is not modelled. The code stops with `RecursionError` there, and also on an acyclic chain deeper than Python's recursion limit, where the model returns the full walk.
- NoteServices.NoteService.GetFullNote: the eager loading (`selectinload`) is not modelled. Parents and children are listed in link order.
- NoteServices.NoteService.Collect, NoteServices.NoteService.GetAncestors and NoteServices.NoteService.GetDescendants list neighbours in link (insertion) order. `parent_links` and `children_links` load with no `order_by`, so PostgreSQL may return them in another order; the set of listed notes and how often each appears do not depend on it.
- NoteServices.NoteService.GetNote: the id columns are PostgreSQL INTEGER, so an id outside the 32-bit range fails in the database driver instead of finding nothing. The model answers nothing; the driver error is not modelled.
- NoteServices.NoteService.GetFullNote: an id outside the 32-bit range fails in the driver instead of finding nothing; not modelled.
- NoteServices.NoteService.UpdateNote: an id outside the 32-bit range fails in the driver instead of finding nothing; not modelled.
- NoteServices.NoteService.DeleteNote: an id outside the 32-bit range fails in the driver instead of returning false; not modelled.
- NoteServices.NoteService.GetLinkById: an id outside the 32-bit range fails in the driver instead of finding nothing; not modelled.
- NoteServices.NoteService.DeleteLink: an id outside the 32-bit range fails in the driver instead of returning false; not modelled.
- NoteServices.NoteService.GetLinksByParticipant: a note id outside the 32-bit range fails in the driver instead of listing no links; not modelled.
- NoteServices.NoteService.GetAncestors: a note id outside the 32-bit range fails in the driver instead of giving an empty walk; not modelled.
- NoteServices.NoteService.GetDescendants: a note id outside the 32-bit range fails in the driver instead of giving an empty walk; not modelled.
- NoteServices.NoteService.CheckCircularReference: a `c` outside the 32-bit range fails in the driver when its ancestors are loaded; not modelled.
- NoteServices.NoteService.CreateLink: a parent or child id outside the 32-bit range fails in the driver, in the check or in the note lookups, instead of being refused; not modelled.
- NoteServices.NoteService.CreateNote: the `serial` id sequence is a 32-bit INTEGER and stops with an error after 2^31 - 1; `nextNoteId` is unbounded.
- NoteServices.NoteService.CreateLink: likewise the link id sequence stops after 2^31 - 1; `nextLinkId` is unbounded.
- Result sets are never ambiguous here. Ids and (parent, child) pairs are unique, so `scalar_one_or_none` cannot raise `MultipleResultsFound`.
- Database errors are values of `StoreError`: a NULL title, a title over 200 characters, a blank title, a negative OFFSET or LIMIT. The call then changes nothing except the spent id of a failed insert.
- NoteServices.TitleColumn: PostgreSQL text cannot hold the character U+0000, and the server refuses such a value. The model treats `'\0'` like any other character and stores a title that contains it.
- NoteServices.NoteService.CreateNote: a title or content containing U+0000 is refused by PostgreSQL and nothing is stored. The model stores it.
- NoteServices.NoteService.UpdateNote: likewise, an update whose title or content contains U+0000 is refused by PostgreSQL. The model applies it.
- NoteServices.NoteService.UpdateNote: an update that supplies no field is modelled as only stamping the update time.
- NoteServices.NoteService.CreateNote and NoteServices.NoteService.UpdateNote model the evidently intended class `Note` with an `importance` attribute. The class as written raises for these calls (second finding).

## Findings

| source | as written | input that shows it | evidently intended | confidence | as-written member | corrected member |
|---|---|---|---|---|---|---|
| backend/app/services/note_service.py:159-168 | `check_circular_reference(p, c)` asks whether `p` is already an ancestor of `c`, that is whether a path p→…→c exists | links 1→2 and 2→3, then `create_link(3, 1)`: `get_ancestors(1)` is empty, so the link is inserted and closes the cycle 1→2→3→1; the harmless shortcut `create_link(1, 3)` is refused | refuse `p → c` exactly when `p == c` or `c` already reaches `p`, which keeps the links acyclic | high, not executed | NoteServices.BackEdgeScenario | Traversal.AdmissionKeepsAcyclic |
| backend/app/models/note.py:18-23 | class `Note` maps `id`, `title`, `content`, `created_at` and `updated_at`, but no `importance`, while `create_note` passes `importance` to its constructor and `update_note` may pass it to the UPDATE | any `create_note` call, e.g. title "Root" with no importance: `model_dump()` still yields the key `importance`, which the declarative constructor refuses | `Note` maps an `importance` column, as the schemas and the API expect | medium, not executed | NoteServices.CreateNoteAsWrittenRaises | NoteServices.DumpKeysMapped |
