/**
 * The traversal engine of NoteService: `get_ancestors`, `get_descendants`
 * and `check_circular_reference` as specification functions over the note
 * map and the link rows (backend/app/services/note_service.py).
 *
 * The service recurses without bound; a walk ends only when no cycle lies
 * on its way. Each walk therefore takes a ghost `rank`, defined on every note
 * the walk can reach and strictly decreasing along the walk's direction
 * (Graph.Ranked).
 */
module Traversal {
  import opened Wrappers
  import opened Models
  import opened Graph

  /** The notes one step from `n`: `note.parents` or `note.children`. */
  function Next(links: seq<NoteLink>, n: int, d: Direction): (r: seq<int>)
    ensures forall q :: q in r <==> Step(links, d, n, q)
  {
    if d == ToParents then Parents(links, n) else Children(links, n)
  }

  /**
   * The walk of `get_ancestors` (d == ToParents) and `get_descendants`
   * (d == ToChildren): nothing for an unknown note; otherwise, for each
   * neighbour in link order, the neighbour followed by its own walk. Nothing
   * is deduplicated: a note is listed once for every path that leads to it.
   */
  ghost function Walk(notes: map<int, Note>, links: seq<NoteLink>, d: Direction, n: int, rank: map<int, nat>): (r: seq<int>)
    requires Ranked(links, d, rank) && n in rank
    ensures n !in notes ==> r == []
    ensures forall x :: x in r ==> x in rank && rank[x] < rank[n]
    decreases rank[n], 1, 0
  {
    if n !in notes then []
    else
      NextRankedBelow(links, d, rank, n);
      WalkFrom(notes, links, d, Next(links, n, d), rank, rank[n])
  }

  /** The walk over the first `|ps|` neighbours, each ranked below `bound`. */
  ghost function WalkFrom(notes: map<int, Note>, links: seq<NoteLink>, d: Direction, ps: seq<int>,
                          rank: map<int, nat>, bound: nat): (r: seq<int>)
    requires Ranked(links, d, rank)
    requires forall q :: q in ps ==> q in rank && rank[q] < bound
    ensures forall x :: x in r ==> x in rank && rank[x] < bound
    decreases bound, 0, |ps|
  {
    if ps == [] then []
    else
      var q := ps[|ps| - 1];
      WalkFrom(notes, links, d, ps[..|ps| - 1], rank, bound) + [q] + Walk(notes, links, d, q, rank)
  }

  /** Every neighbour of `n` ranks below `n`. */
  lemma NextRankedBelow(links: seq<NoteLink>, d: Direction, rank: map<int, nat>, n: int)
    requires Ranked(links, d, rank) && n in rank
    ensures forall q :: q in Next(links, n, d) ==> q in rank && rank[q] < rank[n]
  {
  }

  /** Extending the neighbour prefix by one entry appends that neighbour and its walk. */
  lemma WalkFromExtend(notes: map<int, Note>, links: seq<NoteLink>, d: Direction, ps: seq<int>,
                       i: nat, rank: map<int, nat>, bound: nat)
    requires Ranked(links, d, rank)
    requires forall q :: q in ps ==> q in rank && rank[q] < bound
    requires i < |ps|
    ensures WalkFrom(notes, links, d, ps[..i + 1], rank, bound)
         == WalkFrom(notes, links, d, ps[..i], rank, bound) + [ps[i]] + Walk(notes, links, d, ps[i], rank)
  {
    assert ps[..i + 1][..i] == ps[..i];
  }

  /**
   * The loop step of the walk: notes whose ids follow the walk over the first
   * `i` neighbours, then neighbour `i`, then notes whose ids follow that
   * neighbour's walk, have the ids of the walk over the first `i + 1`.
   */
  lemma WalkFromStep(notes: map<int, Note>, links: seq<NoteLink>, d: Direction, ps: seq<int>,
                     i: nat, rank: map<int, nat>, bound: nat, done: seq<Note>, q: Note, further: seq<Note>)
    requires Ranked(links, d, rank)
    requires forall p :: p in ps ==> p in rank && rank[p] < bound
    requires i < |ps| && q.id == ps[i]
    requires Ids(done) == WalkFrom(notes, links, d, ps[..i], rank, bound)
    requires Ids(further) == Walk(notes, links, d, ps[i], rank)
    ensures Ids(done + [q] + further) == WalkFrom(notes, links, d, ps[..i + 1], rank, bound)
  {
    WalkFromExtend(notes, links, d, ps, i, rank, bound);
    IdsAppend(done, [q]);
    IdsAppend(done + [q], further);
  }

  /** Every neighbour a foreign-keyed link table reports is a stored note. */
  lemma NextStored(notes: map<int, Note>, links: seq<NoteLink>, n: int, d: Direction)
    requires ForeignKeys(notes, links)
    ensures forall q :: q in Next(links, n, d) ==> q in notes
  {
  }

  /** `get_ancestors(n)` as note ids: only notes that reach `n`. */
  ghost function Ancestors(notes: map<int, Note>, links: seq<NoteLink>, n: int, rank: map<int, nat>): (r: seq<int>)
    requires Ranked(links, ToParents, rank) && n in rank
    ensures n !in notes ==> r == []
    ensures forall x :: x in r ==> Reaches(links, x, n)
  {
    WalkSoundBackwards(notes, links, ToParents, n, rank);
    Walk(notes, links, ToParents, n, rank)
  }

  /** `get_descendants(n)` as note ids: only notes that `n` reaches. */
  ghost function Descendants(notes: map<int, Note>, links: seq<NoteLink>, n: int, rank: map<int, nat>): (r: seq<int>)
    requires Ranked(links, ToChildren, rank) && n in rank
    ensures n !in notes ==> r == []
    ensures forall x :: x in r ==> Reaches(links, n, x)
  {
    WalkSound(notes, links, ToChildren, n, rank);
    Walk(notes, links, ToChildren, n, rank)
  }

  // ---------------------------------------------------------------------
  // What a walk collects
  // ---------------------------------------------------------------------

  /** Everything a walk from `n` collects lies at the end of a chain from `n`. */
  lemma {:induction false} WalkSound(notes: map<int, Note>, links: seq<NoteLink>, d: Direction, n: int, rank: map<int, nat>)
    requires Ranked(links, d, rank) && n in rank
    ensures forall x :: x in Walk(notes, links, d, n, rank) ==> Chained(links, d, n, x)
    decreases rank[n], 1, 0
  {
    if n in notes {
      var ps := Next(links, n, d);
      NextRankedBelow(links, d, rank, n);
      WalkFromSound(notes, links, d, ps, rank, rank[n]);
      assert Walk(notes, links, d, n, rank) == WalkFrom(notes, links, d, ps, rank, rank[n]);
      forall x | x in Walk(notes, links, d, n, rank) ensures Chained(links, d, n, x) {
        var q :| q in ps && (x == q || Chained(links, d, q, x));
        StepChained(links, d, n, q);
        if x != q {
          PrependStep(links, d, n, q, x);
        }
      }
    }
  }

  /** Read backwards, the chain to every note a walk collects leads back to `n`. */
  lemma WalkSoundBackwards(notes: map<int, Note>, links: seq<NoteLink>, d: Direction, n: int, rank: map<int, nat>)
    requires Ranked(links, d, rank) && n in rank
    ensures forall x :: x in Walk(notes, links, d, n, rank) ==> Chained(links, Flip(d), x, n)
  {
    WalkSound(notes, links, d, n, rank);
    forall x | x in Walk(notes, links, d, n, rank) ensures Chained(links, Flip(d), x, n) {
      ChainedFlip(links, d, n, x);
    }
  }

  /** Everything collected over `ps` is one of `ps` or reached from one of them. */
  lemma {:induction false} WalkFromSound(notes: map<int, Note>, links: seq<NoteLink>, d: Direction, ps: seq<int>,
                                         rank: map<int, nat>, bound: nat)
    requires Ranked(links, d, rank)
    requires forall q :: q in ps ==> q in rank && rank[q] < bound
    ensures forall x :: x in WalkFrom(notes, links, d, ps, rank, bound) ==>
      exists q :: q in ps && (x == q || Chained(links, d, q, x))
    decreases bound, 0, |ps|
  {
    if ps != [] {
      var init, q := ps[..|ps| - 1], ps[|ps| - 1];
      assert ps == init + [q];
      WalkFromSound(notes, links, d, init, rank, bound);
      WalkSound(notes, links, d, q, rank);
      var front := WalkFrom(notes, links, d, init, rank, bound);
      forall x | x in WalkFrom(notes, links, d, ps, rank, bound)
        ensures exists q' :: q' in ps && (x == q' || Chained(links, d, q', x))
      {
        if x in front {
          var q' :| q' in init && (x == q' || Chained(links, d, q', x));
          assert q' in ps;
        } else {
          assert q in ps;
        }
      }
    }
  }

  /** The walk over `ps` holds each `ps[i]` and all of its walk. */
  lemma {:induction false} WalkFromCovers(notes: map<int, Note>, links: seq<NoteLink>, d: Direction, ps: seq<int>,
                                          rank: map<int, nat>, bound: nat, i: nat)
    requires Ranked(links, d, rank)
    requires forall q :: q in ps ==> q in rank && rank[q] < bound
    requires i < |ps|
    ensures ps[i] in WalkFrom(notes, links, d, ps, rank, bound)
    ensures forall x :: x in Walk(notes, links, d, ps[i], rank) ==> x in WalkFrom(notes, links, d, ps, rank, bound)
    decreases |ps|
  {
    var init := ps[..|ps| - 1];
    if i < |ps| - 1 {
      assert ps[i] == init[i];
      WalkFromCovers(notes, links, d, init, rank, bound, i);
    }
  }

  /** The end of every chain from `n` is collected by the walk from `n`. */
  lemma {:induction false} WalkComplete(notes: map<int, Note>, links: seq<NoteLink>, d: Direction, xs: seq<int>, rank: map<int, nat>)
    requires Ranked(links, d, rank) && ForeignKeys(notes, links)
    requires IsChain(links, d, xs) && xs[0] in rank
    ensures xs[|xs| - 1] in Walk(notes, links, d, xs[0], rank)
    decreases |xs|
  {
    var n, q := xs[0], xs[1];
    assert Step(links, d, n, q);
    var l :| l in links && From(l, d) == n && To(l, d) == q;
    assert n in notes;
    var ps := Next(links, n, d);
    NextRankedBelow(links, d, rank, n);
    var i :| 0 <= i < |ps| && ps[i] == q;
    WalkFromCovers(notes, links, d, ps, rank, rank[n], i);
    if |xs| > 2 {
      var tail := xs[1..];
      forall j | 0 <= j < |tail| - 1 ensures Step(links, d, tail[j], tail[j + 1]) {
        assert tail[j] == xs[j + 1] && tail[j + 1] == xs[j + 2];
      }
      WalkComplete(notes, links, d, tail, rank);
    }
  }

  /** A walk collects exactly the notes a chain from `n` leads to. */
  lemma WalkExact(notes: map<int, Note>, links: seq<NoteLink>, d: Direction, n: int, rank: map<int, nat>, x: int)
    requires Ranked(links, d, rank) && n in rank && ForeignKeys(notes, links)
    ensures x in Walk(notes, links, d, n, rank) <==> Chained(links, d, n, x)
  {
    WalkSound(notes, links, d, n, rank);
    if Chained(links, d, n, x) {
      var xs :| IsChain(links, d, xs) && xs[0] == n && xs[|xs| - 1] == x;
      WalkComplete(notes, links, d, xs, rank);
    }
  }

  /** Every note a walk collects is stored. */
  lemma WalkStored(notes: map<int, Note>, links: seq<NoteLink>, d: Direction, n: int, rank: map<int, nat>)
    requires Ranked(links, d, rank) && n in rank && ForeignKeys(notes, links)
    ensures forall x :: x in Walk(notes, links, d, n, rank) ==> x in notes
  {
    forall x | x in Walk(notes, links, d, n, rank) ensures x in notes {
      WalkExact(notes, links, d, n, rank, x);
      var xs :| IsChain(links, d, xs) && xs[0] == n && xs[|xs| - 1] == x;
      assert Step(links, d, xs[|xs| - 2], xs[|xs| - 1]);
    }
  }

  /** `get_ancestors(n)` holds exactly the notes that reach `n`. */
  lemma AncestorsExact(notes: map<int, Note>, links: seq<NoteLink>, n: int, rank: map<int, nat>, x: int)
    requires Ranked(links, ToParents, rank) && n in rank && ForeignKeys(notes, links)
    ensures x in Ancestors(notes, links, n, rank) <==> Reaches(links, x, n)
  {
    WalkExact(notes, links, ToParents, n, rank, x);
    ChainedFlip(links, ToParents, n, x);
  }

  /** `get_descendants(n)` holds exactly the notes that `n` reaches. */
  lemma DescendantsExact(notes: map<int, Note>, links: seq<NoteLink>, n: int, rank: map<int, nat>, x: int)
    requires Ranked(links, ToChildren, rank) && n in rank && ForeignKeys(notes, links)
    ensures x in Descendants(notes, links, n, rank) <==> Reaches(links, n, x)
  {
    WalkExact(notes, links, ToChildren, n, rank, x);
  }

  /** `b` is a descendant of `a` exactly when `a` is an ancestor of `b`. */
  lemma AncestorDescendantSymmetry(notes: map<int, Note>, links: seq<NoteLink>,
                                   up: map<int, nat>, down: map<int, nat>, a: int, b: int)
    requires Ranked(links, ToParents, up) && b in up && Ranked(links, ToChildren, down) && a in down
    requires ForeignKeys(notes, links)
    ensures b in Descendants(notes, links, a, down) <==> a in Ancestors(notes, links, b, up)
  {
    DescendantsExact(notes, links, a, down, b);
    AncestorsExact(notes, links, b, up, a);
  }

  /** Every note a walk collects ranks below its start, so no note is among its own ancestors or descendants. */
  lemma NeverOwnRelative(notes: map<int, Note>, links: seq<NoteLink>, d: Direction, n: int, rank: map<int, nat>)
    requires Ranked(links, d, rank) && n in rank
    ensures n !in Walk(notes, links, d, n, rank)
  {
  }

  // ---------------------------------------------------------------------
  // check_circular_reference, as written and as intended
  // ---------------------------------------------------------------------

  /**
   * `check_circular_reference(p, c)` as written: `p == c`, decided before
   * the store is read, or `p` is the id of one of `get_ancestors(c)`. Only
   * the second test walks the links, so only it needs a rank above `c`.
   */
  ghost predicate IsCircular(notes: map<int, Note>, links: seq<NoteLink>, p: int, c: int, rank: map<int, nat>): (r: bool)
    requires p != c ==> Ranked(links, ToParents, rank) && c in rank
    ensures p == c ==> r
    ensures r && p != c ==> Reaches(links, p, c)
  {
    p == c || p in Ancestors(notes, links, c, rank)
  }

  /**
   * What the check decides: a path from `p` down to `c` already exists. It
   * never looks for a path from `c` back to `p`.
   */
  lemma CircularMeansForwardPath(notes: map<int, Note>, links: seq<NoteLink>, p: int, c: int, rank: map<int, nat>)
    requires p != c ==> Ranked(links, ToParents, rank) && c in rank
    requires ForeignKeys(notes, links)
    ensures IsCircular(notes, links, p, c, rank) <==> p == c || Reaches(links, p, c)
  {
    if p != c {
      AncestorsExact(notes, links, c, rank, p);
    }
  }

  /**
   * The intended test: a new link `p -> c` closes a cycle when `p == c` or
   * `c` already reaches `p` (`p` is a descendant of `c`).
   */
  ghost predicate WouldCreateCycle(links: seq<NoteLink>, p: int, c: int)
  {
    p == c || Reaches(links, c, p)
  }

  /**
   * Every chain over `links + [p -> c]` either stays within `links` or passes
   * through the new link.
   */
  lemma {:induction false} SplitChain(links: seq<NoteLink>, link: NoteLink, xs: seq<int>)
    requires IsChain(links + [link], ToChildren, xs)
    ensures Reaches(links, xs[0], xs[|xs| - 1])
      || (ReachesOrIs(links, xs[0], link.parentId) && ReachesOrIs(links, link.childId, xs[|xs| - 1]))
    decreases |xs|
  {
    var all := links + [link];
    var a, y, z := xs[0], xs[|xs| - 2], xs[|xs| - 1];
    assert Step(all, ToChildren, y, z);
    var l :| l in all && From(l, ToChildren) == y && To(l, ToChildren) == z;
    var old_step := l in links;
    if old_step {
      assert Step(links, ToChildren, y, z);
    } else {
      assert l == link;
    }
    if |xs| == 2 {
      if old_step {
        StepChained(links, ToChildren, y, z);
      }
    } else {
      var init := xs[..|xs| - 1];
      forall j | 0 <= j < |init| - 1 ensures Step(all, ToChildren, init[j], init[j + 1]) {
        assert init[j] == xs[j] && init[j + 1] == xs[j + 1];
      }
      SplitChain(links, link, init);
      assert init[0] == a && init[|init| - 1] == y;
      if old_step {
        if Reaches(links, a, y) {
          AppendStep(links, ToChildren, a, y, z);
        } else {
          if link.childId == y {
            StepChained(links, ToChildren, y, z);
          } else {
            AppendStep(links, ToChildren, link.childId, y, z);
          }
        }
      }
    }
  }

  /**
   * The intended check is exact: on an acyclic link set, adding `p -> c`
   * keeps it acyclic if and only if WouldCreateCycle(p, c) is false.
   */
  lemma AdmissionKeepsAcyclic(links: seq<NoteLink>, id: int, p: int, c: int)
    requires Acyclic(links)
    ensures Acyclic(links + [NoteLink(id, p, c)]) <==> !WouldCreateCycle(links, p, c)
  {
    var link := NoteLink(id, p, c);
    var all := links + [link];
    assert link in all && From(link, ToChildren) == p && To(link, ToChildren) == c;
    assert Step(all, ToChildren, p, c);
    if WouldCreateCycle(links, p, c) {
      if p == c {
        StepChained(all, ToChildren, p, c);
      } else {
        var xs :| IsChain(links, ToChildren, xs) && xs[0] == c && xs[|xs| - 1] == p;
        ChainGrows(links, [link], ToChildren, xs);
        PrependStep(all, ToChildren, p, c, p);
      }
      assert Reaches(all, p, p);
    } else {
      forall x ensures !Reaches(all, x, x) {
        if Reaches(all, x, x) {
          var xs :| IsChain(all, ToChildren, xs) && xs[0] == x && xs[|xs| - 1] == x;
          SplitChain(links, link, xs);
          ReachesOrIsTransitive(links, c, x, p);
        }
      }
    }
  }

  // ---------------------------------------------------------------------
  // The discrepancy on a three-note chain
  // ---------------------------------------------------------------------

  /** Three stored notes, 1, 2 and 3. */
  function ChainNotes(): map<int, Note>
  {
    map[1 := Note(1, "Root", None, None, 0, 0),
        2 := Note(2, "Child", None, None, 1, 1),
        3 := Note(3, "Grandchild", None, None, 2, 2)]
  }

  /** The links 1 -> 2 -> 3. */
  function ChainLinks(): seq<NoteLink>
  {
    [NoteLink(1, 1, 2), NoteLink(2, 2, 3)]
  }

  /** The chain ranked upwards by depth. */
  function ChainRank(): map<int, nat>
  {
    map[1 := 0, 2 := 1, 3 := 2]
  }

  /** The chain is ranked, its endpoints are stored, and it has no cycle. */
  lemma ChainWellFormed()
    ensures Ranked(ChainLinks(), ToParents, ChainRank()) && ForeignKeys(ChainNotes(), ChainLinks())
    ensures Acyclic(ChainLinks())
  {
    RankedIsAcyclic(ChainLinks(), ToParents, ChainRank());
  }

  /** Note 1 reaches note 3 through note 2, and note 3 reaches nothing. */
  lemma ChainPaths()
    ensures Reaches(ChainLinks(), 1, 3)
    ensures !Reaches(ChainLinks(), 3, 1)
  {
    var links := ChainLinks();
    assert links[0] in links && links[1] in links;
    assert Step(links, ToChildren, 1, 2) && Step(links, ToChildren, 2, 3);
    assert IsChain(links, ToChildren, [1, 2, 3]);
    LeafReachesNothing(links, 3, 1);
  }

  /**
   * As written, the back edge 3 -> 1 passes the check although it closes
   * the cycle 1 -> 2 -> 3 -> 1.
   */
  lemma BackEdgePassesCheck()
    ensures Ranked(ChainLinks(), ToParents, ChainRank()) && ForeignKeys(ChainNotes(), ChainLinks())
    ensures !IsCircular(ChainNotes(), ChainLinks(), 3, 1, ChainRank())
    ensures !Acyclic(ChainLinks() + [NoteLink(3, 3, 1)])
    ensures WouldCreateCycle(ChainLinks(), 3, 1)
  {
    ChainWellFormed();
    ChainPaths();
    CircularMeansForwardPath(ChainNotes(), ChainLinks(), 3, 1, ChainRank());
    AdmissionKeepsAcyclic(ChainLinks(), 3, 3, 1);
  }

  /**
   * As written, the harmless shortcut 1 -> 3 is rejected, although adding it
   * keeps the links acyclic.
   */
  lemma ShortcutRejected()
    ensures Ranked(ChainLinks(), ToParents, ChainRank()) && ForeignKeys(ChainNotes(), ChainLinks())
    ensures IsCircular(ChainNotes(), ChainLinks(), 1, 3, ChainRank())
    ensures Acyclic(ChainLinks() + [NoteLink(3, 1, 3)])
    ensures !WouldCreateCycle(ChainLinks(), 1, 3)
  {
    ChainWellFormed();
    ChainPaths();
    CircularMeansForwardPath(ChainNotes(), ChainLinks(), 1, 3, ChainRank());
    AdmissionKeepsAcyclic(ChainLinks(), 3, 1, 3);
  }

  // ---------------------------------------------------------------------
  // What the walks list: every path, not every note
  // ---------------------------------------------------------------------

  /** The chain 1 -> 2 -> 3 ranked downwards by height. */
  function ChainHeight(): map<int, nat>
  {
    map[1 := 2, 2 := 1, 3 := 0]
  }

  /** The views of the chain 1 -> 2 -> 3. */
  lemma ChainViews()
    ensures Parents(ChainLinks(), 3) == [2] && Parents(ChainLinks(), 2) == [1] && Parents(ChainLinks(), 1) == []
    ensures Children(ChainLinks(), 1) == [2] && Children(ChainLinks(), 2) == [3] && Children(ChainLinks(), 3) == []
  {
    ViewsSnoc([], NoteLink(1, 1, 2));
    ViewsSnoc([NoteLink(1, 1, 2)], NoteLink(2, 2, 3));
    assert [NoteLink(1, 1, 2)] + [NoteLink(2, 2, 3)] == ChainLinks();
  }

  /** On 1 -> 2 -> 3, `get_ancestors(3)` lists 2 then 1. */
  lemma ChainAncestors()
    ensures Ranked(ChainLinks(), ToParents, ChainRank())
    ensures Ancestors(ChainNotes(), ChainLinks(), 3, ChainRank()) == [2, 1]
  {
    assert [2] + ([1] + []) == [2, 1];
    assert ChainRank()[3] == 2 && ChainRank()[2] == 1;
    var notes, links, rank := ChainNotes(), ChainLinks(), ChainRank();
    ChainWellFormed();
    ChainViews();
    assert Walk(notes, links, ToParents, 1, rank) == [];
    WalkFromOne(notes, links, ToParents, 1, rank, 1);
    assert Walk(notes, links, ToParents, 2, rank) == [1];
    WalkFromOne(notes, links, ToParents, 2, rank, 2);
  }

  /** The chain 1 -> 2 -> 3 ranked downwards. */
  lemma ChainHeightRanked()
    ensures Ranked(ChainLinks(), ToChildren, ChainHeight())
  {
  }

  /** On 1 -> 2 -> 3, `get_descendants(1)` lists 2 then 3. */
  lemma ChainDescendants()
    ensures Ranked(ChainLinks(), ToChildren, ChainHeight())
    ensures Descendants(ChainNotes(), ChainLinks(), 1, ChainHeight()) == [2, 3]
  {
    assert [2] + ([3] + []) == [2, 3];
    assert ChainHeight()[1] == 2 && ChainHeight()[2] == 1;
    var notes, links, rank := ChainNotes(), ChainLinks(), ChainHeight();
    ChainHeightRanked();
    ChainViews();
    assert Walk(notes, links, ToChildren, 3, rank) == [];
    WalkFromOne(notes, links, ToChildren, 3, rank, 1);
    assert Walk(notes, links, ToChildren, 2, rank) == [3];
    WalkFromOne(notes, links, ToChildren, 2, rank, 2);
  }

  /** Notes 1 to 4 linked 1 -> 2, 1 -> 3, 2 -> 4 and 3 -> 4: two paths from 1 to 4. */
  function DiamondNotes(): map<int, Note>
  {
    map[1 := Note(1, "Top", None, None, 0, 0),
        2 := Note(2, "Left", None, None, 1, 1),
        3 := Note(3, "Right", None, None, 2, 2),
        4 := Note(4, "Bottom", None, None, 3, 3)]
  }

  function DiamondLinks(): seq<NoteLink>
  {
    [NoteLink(1, 1, 2), NoteLink(2, 1, 3), NoteLink(3, 2, 4), NoteLink(4, 3, 4)]
  }

  /** The diamond ranked by height: the longest way down to a leaf. */
  function DiamondHeight(): map<int, nat>
  {
    map[1 := 2, 2 := 1, 3 := 1, 4 := 0]
  }

  /** The diamond ranked by depth: the longest way up to a root. */
  function DiamondDepth(): map<int, nat>
  {
    map[1 := 0, 2 := 1, 3 := 1, 4 := 2]
  }

  /** The views of the diamond. */
  lemma DiamondViews()
    ensures Children(DiamondLinks(), 1) == [2, 3] && Children(DiamondLinks(), 2) == [4]
    ensures Children(DiamondLinks(), 3) == [4] && Children(DiamondLinks(), 4) == []
    ensures Parents(DiamondLinks(), 4) == [2, 3] && Parents(DiamondLinks(), 2) == [1]
    ensures Parents(DiamondLinks(), 3) == [1] && Parents(DiamondLinks(), 1) == []
  {
    var l1, l2, l3, l4 := NoteLink(1, 1, 2), NoteLink(2, 1, 3), NoteLink(3, 2, 4), NoteLink(4, 3, 4);
    ViewsSnoc([], l1);
    ViewsSnoc([l1], l2);
    ViewsSnoc([l1, l2], l3);
    ViewsSnoc([l1, l2, l3], l4);
    assert [l1] + [l2] == [l1, l2] && [l1, l2] + [l3] == [l1, l2, l3];
    assert [l1, l2, l3] + [l4] == DiamondLinks();
  }

  /** The walk over one neighbour: that neighbour, then its own walk. */
  lemma WalkFromOne(notes: map<int, Note>, links: seq<NoteLink>, d: Direction, a: int, rank: map<int, nat>, bound: nat)
    requires Ranked(links, d, rank) && a in rank && rank[a] < bound
    ensures WalkFrom(notes, links, d, [a], rank, bound) == [a] + Walk(notes, links, d, a, rank)
  {
    assert [a][..0] == [];
  }

  /** The walk over two neighbours: each in turn, followed by its own walk. */
  lemma WalkFromTwo(notes: map<int, Note>, links: seq<NoteLink>, d: Direction, a: int, b: int,
                    rank: map<int, nat>, bound: nat)
    requires Ranked(links, d, rank) && a in rank && rank[a] < bound && b in rank && rank[b] < bound
    ensures WalkFrom(notes, links, d, [a, b], rank, bound)
         == [a] + Walk(notes, links, d, a, rank) + [b] + Walk(notes, links, d, b, rank)
  {
    assert [a, b][..1] == [a];
    WalkFromOne(notes, links, d, a, rank, bound);
  }

  /** Both diamond ranks fall along every link. */
  lemma DiamondRanked()
    ensures Ranked(DiamondLinks(), ToChildren, DiamondHeight()) && Ranked(DiamondLinks(), ToParents, DiamondDepth())
  {
  }

  /** Below the top, each side of the diamond has the bottom as its one descendant. */
  lemma DiamondSidesDown()
    ensures Ranked(DiamondLinks(), ToChildren, DiamondHeight())
    ensures Walk(DiamondNotes(), DiamondLinks(), ToChildren, 2, DiamondHeight()) == [4]
    ensures Walk(DiamondNotes(), DiamondLinks(), ToChildren, 3, DiamondHeight()) == [4]
  {
    var notes, links, rank := DiamondNotes(), DiamondLinks(), DiamondHeight();
    DiamondRanked();
    DiamondViews();
    assert Walk(notes, links, ToChildren, 4, rank) == [];
    WalkFromOne(notes, links, ToChildren, 4, rank, 1);
  }

  /** A note reached along two paths is listed twice: `get_descendants(1)` is 2, 4, 3, 4. */
  lemma DiamondDescendants()
    ensures Ranked(DiamondLinks(), ToChildren, DiamondHeight())
    ensures Descendants(DiamondNotes(), DiamondLinks(), 1, DiamondHeight()) == [2, 4, 3, 4]
  {
    assert [2] + [4] + [3] + [4] == [2, 4, 3, 4];
    assert DiamondHeight()[1] == 2;
    var notes, links, rank := DiamondNotes(), DiamondLinks(), DiamondHeight();
    DiamondSidesDown();
    DiamondViews();
    assert Next(links, 1, ToChildren) == [2, 3];
    assert Walk(notes, links, ToChildren, 1, rank) == WalkFrom(notes, links, ToChildren, [2, 3], rank, 2);
    WalkFromTwo(notes, links, ToChildren, 2, 3, rank, 2);
  }

  /** Above the bottom, each side of the diamond has the top as its one ancestor. */
  lemma DiamondSidesUp()
    ensures Ranked(DiamondLinks(), ToParents, DiamondDepth())
    ensures Walk(DiamondNotes(), DiamondLinks(), ToParents, 2, DiamondDepth()) == [1]
    ensures Walk(DiamondNotes(), DiamondLinks(), ToParents, 3, DiamondDepth()) == [1]
  {
    var notes, links, rank := DiamondNotes(), DiamondLinks(), DiamondDepth();
    DiamondRanked();
    DiamondViews();
    assert Walk(notes, links, ToParents, 1, rank) == [];
    WalkFromOne(notes, links, ToParents, 1, rank, 1);
  }

  /** Upwards the same: `get_ancestors(4)` is 2, 1, 3, 1. */
  lemma DiamondAncestors()
    ensures Ranked(DiamondLinks(), ToParents, DiamondDepth())
    ensures Ancestors(DiamondNotes(), DiamondLinks(), 4, DiamondDepth()) == [2, 1, 3, 1]
  {
    assert [2] + [1] + [3] + [1] == [2, 1, 3, 1];
    assert DiamondDepth()[4] == 2;
    var notes, links, rank := DiamondNotes(), DiamondLinks(), DiamondDepth();
    DiamondSidesUp();
    DiamondViews();
    assert Next(links, 4, ToParents) == [2, 3];
    assert Walk(notes, links, ToParents, 4, rank) == WalkFrom(notes, links, ToParents, [2, 3], rank, 2);
    WalkFromTwo(notes, links, ToParents, 2, 3, rank, 2);
  }
}
