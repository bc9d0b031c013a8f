/**
 * The two persisted entities of the notes graph, the table constraints
 * declared on them and the relationship views derived from the link rows
 * (backend/app/models/note.py).
 */
module Models {
  import opened Wrappers

  /** A row of table `note`. The timestamps are ticks of the database clock. */
  datatype Note = Note(
    id: int,
    title: string,
    content: Option<string>,
    importance: Option<int>,
    createdAt: nat,
    updatedAt: nat)

  /** A row of table `notelink`: a directed edge from `parentId` to `childId`. */
  datatype NoteLink = NoteLink(id: int, parentId: int, childId: int)

  /**
   * The attributes class `Note` maps as written: `id`, `title`, `content`
   * and the two timestamps, and no `importance`.
   */
  const NoteAttributesAsWritten: set<string> := {"id", "title", "content", "created_at", "updated_at"}

  /** The attributes the schemas and the API read and write on a note, `importance` included. */
  const NoteAttributes: set<string> := NoteAttributesAsWritten + {"importance"}

  /** Width of the `title` column, `String(200)`. */
  const TitleMaxLength: nat := 200

  // ---------------------------------------------------------------------
  // PostgreSQL btrim and the title check constraint
  // ---------------------------------------------------------------------

  /** True when every character of `s` is a space (the empty string included). */
  predicate Blank(s: string)
  {
    forall i :: 0 <= i < |s| ==> s[i] == ' '
  }

  /** A string is blank exactly when both of its parts are. */
  lemma BlankSplit(s: string, k: nat)
    requires k <= |s|
    ensures Blank(s) <==> Blank(s[..k]) && Blank(s[k..])
  {
    if Blank(s[..k]) && Blank(s[k..]) {
      forall i | 0 <= i < |s| ensures s[i] == ' ' {
        if i < k {
          assert s[i] == s[..k][i];
        } else {
          assert s[i] == s[k..][i - k];
        }
      }
    }
  }

  /** Drops the leading spaces of `s`. */
  function TrimLeft(s: string): (r: string)
    ensures |r| <= |s|
  {
    if s != [] && s[0] == ' ' then TrimLeft(s[1..]) else s
  }

  /** Drops the trailing spaces of `s`. */
  function TrimRight(s: string): (r: string)
    ensures |r| <= |s|
  {
    if s != [] && s[|s| - 1] == ' ' then TrimRight(s[..|s| - 1]) else s
  }

  /** `TrimLeft` removes a prefix made of spaces, and stops at the first non-space. */
  lemma {:induction false} TrimLeftSpec(s: string)
    ensures TrimLeft(s) == s[|s| - |TrimLeft(s)|..]
    ensures TrimLeft(s) == [] || TrimLeft(s)[0] != ' '
    ensures Blank(s[..|s| - |TrimLeft(s)|])
  {
    if s != [] && s[0] == ' ' {
      TrimLeftSpec(s[1..]);
      assert s[1..][..|s| - 1 - |TrimLeft(s)|] == s[1..|s| - |TrimLeft(s)|];
    }
  }

  /** `TrimRight` removes a suffix made of spaces, and stops at the last non-space. */
  lemma {:induction false} TrimRightSpec(s: string)
    ensures TrimRight(s) == s[..|TrimRight(s)|]
    ensures TrimRight(s) == [] || TrimRight(s)[|TrimRight(s)| - 1] != ' '
    ensures Blank(s[|TrimRight(s)|..])
  {
    if s != [] && s[|s| - 1] == ' ' {
      TrimRightSpec(s[..|s| - 1]);
      assert s[..|s| - 1][|TrimRight(s)|..] == s[|TrimRight(s)|..|s| - 1];
    }
  }

  /**
   * PostgreSQL `btrim(s)` with its default character set, a single space:
   * `s` without its leading and trailing spaces.
   */
  function Btrim(s: string): (r: string)
    ensures |r| <= |s|
  {
    TrimRight(TrimLeft(s))
  }

  /**
   * `btrim` keeps a slice of its argument that neither starts nor ends with
   * a space, and the slice is empty exactly when the argument is blank.
   */
  lemma BtrimSpec(s: string)
    ensures Btrim(s) != [] ==> Btrim(s)[0] != ' ' && Btrim(s)[|Btrim(s)| - 1] != ' '
    ensures Btrim(s) == [] <==> Blank(s)
  {
    var left := TrimLeft(s);
    TrimLeftSpec(s);
    TrimRightSpec(left);
    var k := |s| - |left|;
    assert s == s[..k] + left;
    if Btrim(s) == [] {
      // TrimRight kept nothing, so `left` is blank, yet it cannot start with a space
      assert left == [] by {
        assert left[0..] == left;
      }
      assert s == s[..k];
    }
  }

  /**
   * What the `note` table accepts as a title: at most 200 characters
   * (`String(200)`) and `length(btrim(title)) > 0` (ck_note_title_not_empty).
   */
  predicate StoredTitleOk(title: string): (r: bool)
    ensures r ==> 1 <= |title| <= TitleMaxLength
  {
    |title| <= TitleMaxLength && |Btrim(title)| > 0
  }

  // ---------------------------------------------------------------------
  // Relationship views
  // ---------------------------------------------------------------------

  /**
   * `note.parents`: the parent endpoint of every link whose child is `n`,
   * in link order.
   */
  function Parents(links: seq<NoteLink>, n: int): (r: seq<int>)
    ensures |r| <= |links|
    ensures forall q :: q in r <==> exists l :: l in links && l.childId == n && l.parentId == q
  {
    if links == [] then []
    else
      var l := links[|links| - 1];
      assert links == links[..|links| - 1] + [l];
      Parents(links[..|links| - 1], n) + (if l.childId == n then [l.parentId] else [])
  }

  /**
   * `note.children`: the child endpoint of every link whose parent is `n`,
   * in link order.
   */
  function Children(links: seq<NoteLink>, n: int): (r: seq<int>)
    ensures |r| <= |links|
    ensures forall q :: q in r <==> exists l :: l in links && l.parentId == n && l.childId == q
  {
    if links == [] then []
    else
      var l := links[|links| - 1];
      assert links == links[..|links| - 1] + [l];
      Children(links[..|links| - 1], n) + (if l.parentId == n then [l.childId] else [])
  }

  /** A link appended to the table adds its endpoint at the end of one view of each of its notes. */
  lemma ViewsSnoc(links: seq<NoteLink>, l: NoteLink)
    ensures forall n :: Parents(links + [l], n) == Parents(links, n) + (if l.childId == n then [l.parentId] else [])
    ensures forall n :: Children(links + [l], n) == Children(links, n) + (if l.parentId == n then [l.childId] else [])
  {
    assert (links + [l])[..|links|] == links;
  }

  /** Both views are read off the same link rows, so they mirror each other. */
  lemma ParentsChildrenSymmetric(links: seq<NoteLink>, a: int, b: int)
    ensures b in Children(links, a) <==> a in Parents(links, b)
  {
  }

  // ---------------------------------------------------------------------
  // Table constraints
  // ---------------------------------------------------------------------

  /** Links are kept in insertion order, so their autoincrement ids increase. */
  ghost predicate IdsIncreasing(links: seq<NoteLink>)
  {
    forall i, j :: 0 <= i < j < |links| ==> links[i].id < links[j].id
  }

  /** ck_no_self_link: `parent_id <> child_id`; no note is its own parent or child. */
  ghost predicate NoSelfLinks(links: seq<NoteLink>): (r: bool)
    ensures r ==> forall n :: n !in Children(links, n) && n !in Parents(links, n)
  {
    forall l :: l in links ==> l.parentId != l.childId
  }

  /**
   * uq_note_link: at most one link per (parent_id, child_id) pair, so the
   * lookup of a pair finds the very link that joins it.
   */
  ghost predicate UniquePairs(links: seq<NoteLink>): (r: bool)
    ensures r ==> forall l :: l in links ==> FindLink(links, l.parentId, l.childId) == Some(l)
  {
    forall l, m :: l in links && m in links && l.parentId == m.parentId && l.childId == m.childId ==> l == m
  }

  /** The foreign keys of both endpoints: no link, and so no view, refers to a missing note. */
  ghost predicate ForeignKeys(notes: map<int, Note>, links: seq<NoteLink>): (r: bool)
    ensures r ==> forall n, q :: q in Parents(links, n) || q in Children(links, n) ==> q in notes
  {
    forall l :: l in links ==> l.parentId in notes && l.childId in notes
  }

  // ---------------------------------------------------------------------
  // Row selection
  // ---------------------------------------------------------------------

  /** The links that satisfy `keep`, in link order (a WHERE clause). */
  function Filter(links: seq<NoteLink>, keep: NoteLink -> bool): (r: seq<NoteLink>)
    ensures |r| <= |links|
    ensures forall l :: l in r <==> l in links && keep(l)
  {
    if links == [] then []
    else
      var l := links[|links| - 1];
      assert links == links[..|links| - 1] + [l];
      Filter(links[..|links| - 1], keep) + (if keep(l) then [l] else [])
  }

  /** Selecting rows keeps their relative order, hence increasing ids. */
  lemma {:induction false} FilterKeepsIdsIncreasing(links: seq<NoteLink>, keep: NoteLink -> bool)
    requires IdsIncreasing(links)
    ensures IdsIncreasing(Filter(links, keep))
  {
    if links != [] {
      var init, l := links[..|links| - 1], links[|links| - 1];
      assert links == init + [l];
      FilterKeepsIdsIncreasing(init, keep);
      var rest := Filter(init, keep);
      forall m | m in rest ensures m.id < l.id {
        var k :| 0 <= k < |init| && init[k] == m;
        assert links[k] == m;
      }
    }
  }

  /**
   * The cascade of `parent_links`/`children_links` (cascade="all,
   * delete-orphan") and of both foreign keys (ondelete="CASCADE"): the links
   * that survive deleting note `n`.
   */
  function Detach(links: seq<NoteLink>, n: int): (r: seq<NoteLink>)
    ensures forall l :: l in r <==> l in links && l.parentId != n && l.childId != n
  {
    Filter(links, (l: NoteLink) => l.parentId != n && l.childId != n)
  }

  /** The links left after deleting the link with id `id`. */
  function Unlink(links: seq<NoteLink>, id: int): (r: seq<NoteLink>)
    ensures forall l :: l in r <==> l in links && l.id != id
  {
    Filter(links, (l: NoteLink) => l.id != id)
  }

  /** The first link with id `id`, if any (`select NoteLink where id = ...`). */
  function FindLinkById(links: seq<NoteLink>, id: int): (r: Option<NoteLink>)
    ensures r.Some? ==> r.value in links && r.value.id == id
    ensures r.None? ==> forall l :: l in links ==> l.id != id
  {
    if links == [] then None
    else if links[0].id == id then Some(links[0])
    else FindLinkById(links[1..], id)
  }

  /** The first link from `p` to `c`, if any (`select NoteLink where parent_id = p and child_id = c`). */
  function FindLink(links: seq<NoteLink>, p: int, c: int): (r: Option<NoteLink>)
    ensures r.Some? ==> r.value in links && r.value.parentId == p && r.value.childId == c
    ensures r.None? ==> forall l :: l in links ==> !(l.parentId == p && l.childId == c)
  {
    if links == [] then None
    else if links[0].parentId == p && links[0].childId == c then Some(links[0])
    else FindLink(links[1..], p, c)
  }

  /** The ids of `ns`, in order (`[n.id for n in ns]`). */
  function Ids(ns: seq<Note>): (r: seq<int>)
    ensures |r| == |ns| && forall i :: 0 <= i < |ns| ==> r[i] == ns[i].id
  {
    seq(|ns|, i requires 0 <= i < |ns| => ns[i].id)
  }

  /** Taking ids commutes with concatenation. */
  lemma IdsAppend(a: seq<Note>, b: seq<Note>)
    ensures Ids(a + b) == Ids(a) + Ids(b)
  {
  }
}
