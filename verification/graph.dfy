/**
 * The link rows seen as a directed graph over note ids: one-step moves in
 * either direction, chains of such moves, reachability, acyclicity, and the
 * rank maps that witness acyclicity. Everything here is a statement about
 * the data; the traversal that walks it is in module Traversal.
 */
module Graph {
  import opened Models

  /** Which way a walk follows the links: up to parents or down to children. */
  datatype Direction = ToParents | ToChildren

  /** The opposite direction. */
  function Flip(d: Direction): Direction
  {
    if d == ToParents then ToChildren else ToParents
  }

  /** The endpoint of `l` that a walk in direction `d` leaves from. */
  function From(l: NoteLink, d: Direction): int
  {
    if d == ToParents then l.childId else l.parentId
  }

  /** The endpoint of `l` that a walk in direction `d` arrives at. */
  function To(l: NoteLink, d: Direction): int
  {
    if d == ToParents then l.parentId else l.childId
  }

  /** Some link leads from `a` to `b` in direction `d`. */
  ghost predicate Step(links: seq<NoteLink>, d: Direction, a: int, b: int)
  {
    exists l :: l in links && From(l, d) == a && To(l, d) == b
  }

  /** `xs` is a chain of one or more steps in direction `d`. */
  ghost predicate IsChain(links: seq<NoteLink>, d: Direction, xs: seq<int>)
  {
    |xs| >= 2 && forall i :: 0 <= i < |xs| - 1 ==> Step(links, d, xs[i], xs[i + 1])
  }

  /** A chain of one or more steps in direction `d` leads from `a` to `b`. */
  ghost predicate Chained(links: seq<NoteLink>, d: Direction, a: int, b: int)
  {
    exists xs :: IsChain(links, d, xs) && xs[0] == a && xs[|xs| - 1] == b
  }

  /** `a` reaches `b`: a path of one or more links leads from `a` down to `b`. */
  ghost predicate Reaches(links: seq<NoteLink>, a: int, b: int)
  {
    Chained(links, ToChildren, a, b)
  }

  /** `a` reaches `b` or is `b`. */
  ghost predicate ReachesOrIs(links: seq<NoteLink>, a: int, b: int)
  {
    a == b || Reaches(links, a, b)
  }

  /** No note reaches itself: the DAG invariant. */
  ghost predicate Acyclic(links: seq<NoteLink>)
  {
    forall x :: !Reaches(links, x, x)
  }

  /** A note that is no link's parent reaches nothing. */
  lemma LeafReachesNothing(links: seq<NoteLink>, a: int, b: int)
    requires forall l :: l in links ==> l.parentId != a
    ensures !Reaches(links, a, b)
  {
    forall xs | IsChain(links, ToChildren, xs)
      ensures xs[0] != a
    {
      assert Step(links, ToChildren, xs[0], xs[1]);
    }
  }

  /**
   * `rank` is defined on a set of notes that every step in direction `d`
   * out of it stays inside, and strictly decreases along each such step. A
   * walk that starts at a ranked note therefore ends; notes outside the map,
   * and any cycle among them, are left alone.
   */
  ghost predicate Ranked(links: seq<NoteLink>, d: Direction, rank: map<int, nat>)
  {
    forall l :: l in links && From(l, d) in rank ==> To(l, d) in rank && rank[To(l, d)] < rank[From(l, d)]
  }

  /** A rank that orders a link table also orders any prefix of it. */
  lemma RankedPrefix(links: seq<NoteLink>, k: nat, d: Direction, rank: map<int, nat>)
    requires Ranked(links, d, rank) && k <= |links|
    ensures Ranked(links[..k], d, rank)
  {
    forall l | l in links[..k] ensures l in links {
      var i :| 0 <= i < k && links[..k][i] == l;
      assert links[i] == l;
    }
  }

  // ---------------------------------------------------------------------
  // Chains
  // ---------------------------------------------------------------------

  /** A single step is a chain. */
  lemma StepChained(links: seq<NoteLink>, d: Direction, a: int, b: int)
    requires Step(links, d, a, b)
    ensures Chained(links, d, a, b)
  {
    assert IsChain(links, d, [a, b]);
  }

  /** A step in front of a chain is a chain. */
  lemma {:induction false} PrependStep(links: seq<NoteLink>, d: Direction, a: int, b: int, c: int)
    requires Step(links, d, a, b) && Chained(links, d, b, c)
    ensures Chained(links, d, a, c)
  {
    var xs :| IsChain(links, d, xs) && xs[0] == b && xs[|xs| - 1] == c;
    var ys := [a] + xs;
    assert forall i :: 1 <= i < |ys| - 1 ==> ys[i] == xs[i - 1] && ys[i + 1] == xs[i];
    assert IsChain(links, d, ys);
  }

  /** A step behind a chain is a chain. */
  lemma {:induction false} AppendStep(links: seq<NoteLink>, d: Direction, a: int, b: int, c: int)
    requires Chained(links, d, a, b) && Step(links, d, b, c)
    ensures Chained(links, d, a, c)
  {
    var xs :| IsChain(links, d, xs) && xs[0] == a && xs[|xs| - 1] == b;
    var ys := xs + [c];
    forall i | 0 <= i < |ys| - 1 ensures Step(links, d, ys[i], ys[i + 1]) {
      if i < |xs| - 1 {
        assert ys[i] == xs[i] && ys[i + 1] == xs[i + 1];
      }
    }
    assert IsChain(links, d, ys);
  }

  /** Two chains that meet form a chain. */
  lemma {:induction false} JoinChains(links: seq<NoteLink>, d: Direction, a: int, b: int, c: int)
    requires Chained(links, d, a, b) && Chained(links, d, b, c)
    ensures Chained(links, d, a, c)
  {
    var xs :| IsChain(links, d, xs) && xs[0] == a && xs[|xs| - 1] == b;
    var ys :| IsChain(links, d, ys) && ys[0] == b && ys[|ys| - 1] == c;
    var zs := xs + ys[1..];
    forall i | 0 <= i < |zs| - 1 ensures Step(links, d, zs[i], zs[i + 1]) {
      if i < |xs| - 1 {
        assert zs[i] == xs[i] && zs[i + 1] == xs[i + 1];
      } else {
        var k := i - |xs| + 1;
        assert zs[i] == ys[k] && zs[i + 1] == ys[k + 1];
      }
    }
    assert IsChain(links, d, zs);
  }

  /** `ReachesOrIs` is transitive. */
  lemma ReachesOrIsTransitive(links: seq<NoteLink>, a: int, b: int, c: int)
    requires ReachesOrIs(links, a, b) && ReachesOrIs(links, b, c)
    ensures ReachesOrIs(links, a, c)
  {
    if a != b && b != c {
      JoinChains(links, ToChildren, a, b, c);
    }
  }

  /** The sequence `xs` back to front. */
  function Reverse(xs: seq<int>): (r: seq<int>)
    ensures |r| == |xs|
    ensures forall i :: 0 <= i < |xs| ==> r[i] == xs[|xs| - 1 - i]
  {
    seq(|xs|, i requires 0 <= i < |xs| => xs[|xs| - 1 - i])
  }

  /** A chain read backwards is a chain in the opposite direction. */
  lemma ReverseChain(links: seq<NoteLink>, d: Direction, xs: seq<int>)
    requires IsChain(links, d, xs)
    ensures IsChain(links, Flip(d), Reverse(xs))
  {
    var ys := Reverse(xs);
    var n := |xs|;
    forall i | 0 <= i < n - 1 ensures Step(links, Flip(d), ys[i], ys[i + 1]) {
      var j := n - 2 - i;
      assert ys[i] == xs[j + 1] && ys[i + 1] == xs[j];
      assert Step(links, d, xs[j], xs[j + 1]);
      var l :| l in links && From(l, d) == xs[j] && To(l, d) == xs[j + 1];
      assert From(l, Flip(d)) == xs[j + 1] && To(l, Flip(d)) == xs[j];
    }
  }

  /** Walking up from `a` to `b` is walking down from `b` to `a`. */
  lemma ChainedFlip(links: seq<NoteLink>, d: Direction, a: int, b: int)
    ensures Chained(links, d, a, b) <==> Chained(links, Flip(d), b, a)
  {
    if Chained(links, d, a, b) {
      var xs :| IsChain(links, d, xs) && xs[0] == a && xs[|xs| - 1] == b;
      ReverseChain(links, d, xs);
      assert Reverse(xs)[0] == b && Reverse(xs)[|xs| - 1] == a;
    }
    if Chained(links, Flip(d), b, a) {
      var xs :| IsChain(links, Flip(d), xs) && xs[0] == b && xs[|xs| - 1] == a;
      ReverseChain(links, Flip(d), xs);
      assert Flip(Flip(d)) == d;
      assert Reverse(xs)[0] == a && Reverse(xs)[|xs| - 1] == b;
    }
  }

  /** Every step of a chain lowers the rank, so its end ranks below its start. */
  lemma {:induction false} ChainDescends(links: seq<NoteLink>, d: Direction, rank: map<int, nat>, xs: seq<int>)
    requires Ranked(links, d, rank) && IsChain(links, d, xs) && xs[0] in rank
    ensures xs[|xs| - 1] in rank && rank[xs[|xs| - 1]] < rank[xs[0]]
    decreases |xs|
  {
    assert Step(links, d, xs[0], xs[1]);
    if |xs| > 2 {
      var tail := xs[1..];
      forall i | 0 <= i < |tail| - 1 ensures Step(links, d, tail[i], tail[i + 1]) {
        assert tail[i] == xs[i + 1] && tail[i + 1] == xs[i + 2];
      }
      ChainDescends(links, d, rank, tail);
    }
  }

  /**
   * No ranked note lies on a cycle; a rank that covers the starting end of
   * every link rules out every cycle.
   */
  lemma RankedIsAcyclic(links: seq<NoteLink>, d: Direction, rank: map<int, nat>)
    requires Ranked(links, d, rank)
    ensures forall x :: x in rank ==> !Reaches(links, x, x)
    ensures (forall l :: l in links ==> From(l, d) in rank) ==> Acyclic(links)
  {
    forall x | Reaches(links, x, x) ensures x !in rank && exists l :: l in links && From(l, d) !in rank {
      if d == ToParents {
        ChainedFlip(links, ToChildren, x, x);
      }
      var xs :| IsChain(links, d, xs) && xs[0] == x && xs[|xs| - 1] == x;
      assert Step(links, d, xs[0], xs[1]);
      var l :| l in links && From(l, d) == x && To(l, d) == xs[1];
      if x in rank {
        ChainDescends(links, d, rank, xs);
      }
    }
  }

  /** Adding links keeps every chain. */
  lemma ChainGrows(links: seq<NoteLink>, more: seq<NoteLink>, d: Direction, xs: seq<int>)
    requires IsChain(links, d, xs)
    ensures IsChain(links + more, d, xs)
  {
  }
}
