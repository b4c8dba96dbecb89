/** The triangle forest of one channel and the encoder's state machine
    (src/triangletree.cpp): every triangle ever created, in creation order,
    the queue of triangles still to be assigned, and the counter that hands
    out ids. Triangles are positions in the arena of the Triangle module. */
module TriangleTree {
  import opened Wrappers
  import opened IoUtils
  import opened Point2D
  import opened Triangle
  import TriFit
  import ImageUtils
  import DoubleImage

  /** `SubdivisionMethod`: quad splitting along the best dividing ratios, or
      barycentric splitting. */
  datatype SubdivisionMethod = Quad | Centroid

  /** `DEFAULT_SUBDIVISION_METHOD`. */
  const DEFAULT_SUBDIVISION_METHOD: SubdivisionMethod := Quad

  /** `MAX_SUBDIVIDE_SIZE`: a triangle covering fewer sample points is kept. */
  const MAX_SUBDIVIDE_SIZE: nat := 20

  /** `MAX_SUBDIVIDE_AREA`: a triangle smaller than this is kept. */
  const MAX_SUBDIVIDE_AREA: real := 250.0 / (512.0 * 512.0)

  /** `MAX_NUM_TRIANGLES`: at this many triangles every fit is kept. */
  const MAX_NUM_TRIANGLES: nat := 0xFFFF

  /** A tree: its channel, all triangles (`allTriangles`, in creation
      order), the queue of unassigned triangles (`unassigned`), how many
      triangles have been assigned so far, and the subdivision method.
      The source's `lastId` is that count as an unsigned short. */
  datatype Tree = Tree(channel: ImageUtils.Channel, tris: Arena, queue: seq<nat>,
                       numAssigned: nat, sMethod: SubdivisionMethod)

  /** `getLastId`: the assignment count, wrapped to 16 bits. */
  function LastId(t: Tree): uint16
  {
    t.numAssigned % 0x1_0000
  }

  /** What the encoder asks of the image: the best source among the
      candidates (`getBestMatch`), how many sample points lie inside a
      triangle (`getPointsInside`), and the best ratio at which to divide
      an edge (`getBestDivide`). */
  datatype Oracles = Oracles(bestMatch: (ImageUtils.Channel, Arena, nat, seq<nat>) -> TriFit.Fit,
                             pointsInside: (Arena, nat) -> nat,
                             bestDivide: (ImageUtils.Channel, Point, Point) -> real)

  /** The handles a tree holds all point into its arena and its links are
      well formed. */
  predicate Wf(t: Tree)
  {
    Linked(t.tris) && forall k :: 0 <= k < |t.queue| ==> t.queue[k] < |t.tris|
  }

  // ------------------------------------------------------------ construction

  /** The constructor from an image: the roots (c0, c1, c2) and
      (c0, c3, c2) over the image's corners, the first followed by the
      second, both queued in that order, no id handed out yet. */
  function New(channel: ImageUtils.Channel): (r: Tree)
    ensures Wf(r)
  {
    var c := DoubleImage.GetCorners();
    var a := [Create(c[0], c[1], c[2]), Create(c[0], c[3], c[2])];
    Tree(channel, SetNextSibling(a, 0, 1), [0, 1], 0, DEFAULT_SUBDIVISION_METHOD)
  }

  /** A fresh tree: two roots that split the unit square along its
      diagonal, linked to each other and to nothing else, both queued and
      unassigned, and it satisfies the encoder's invariant. */
  lemma NewTree(channel: ImageUtils.Channel)
    ensures var t := New(channel);
            var c := DoubleImage.GetCorners();
            |t.tris| == 2 && t.queue == [0, 1] && LastId(t) == 0 && t.sMethod == Quad
            && t.tris[0] == Create(c[0], c[1], c[2]).(next := Some(1))
            && t.tris[1] == Create(c[0], c[3], c[2]).(prev := Some(0))
            && Area(t.tris[0].points) == 0.5 && Area(t.tris[1].points) == 0.5
            && TreeInv(t)
  {
    DoubleImage.CornersSplitSquare();
  }

  // ------------------------------------------------------------ candidate walks

  /** `getAllSiblings`: the next chain, then the previous chain. */
  function GetAllSiblings(a: Arena, i: nat): (r: seq<nat>)
    requires Linked(a) && i < |a|
    ensures forall k :: 0 <= k < |r| ==> r[k] < |a|
  {
    NextChain(a, i) + PrevChain(a, i)
  }

  /** One level of the candidate walk: a triangle and all its siblings. */
  function Level(a: Arena, p: nat): (r: seq<nat>)
    requires Linked(a) && p < |a|
    ensures forall k :: 0 <= k < |r| ==> r[k] < |a|
  {
    [p] + GetAllSiblings(a, p)
  }

  /** `getAllAbove`: the parent and its siblings, then the same for the
      parent, up to a root. */
  function GetAllAbove(a: Arena, i: nat): (r: seq<nat>)
    requires Linked(a) && i < |a|
    ensures forall k :: 0 <= k < |r| ==> r[k] < |a|
    decreases i
  {
    match a[i].parent
    case None => []
    case Some(p) => Level(a, p) + GetAllAbove(a, p)
  }

  /** `getAllBelow`: the first child and its siblings, then the same for
      that child, down to a triangle without children. */
  function GetAllBelow(a: Arena, i: nat): (r: seq<nat>)
    requires Linked(a) && i < |a|
    ensures forall k :: 0 <= k < |r| ==> r[k] < |a|
    decreases |a| - i
  {
    if a[i].children == [] then []
    else Level(a, a[i].children[0]) + GetAllBelow(a, a[i].children[0])
  }

  /** The ancestors of i, nearest first. */
  function Ancestors(a: Arena, i: nat): (r: seq<nat>)
    requires Linked(a) && i < |a|
    ensures forall k :: 0 <= k < |r| ==> r[k] < i
    decreases i
  {
    match a[i].parent
    case None => []
    case Some(p) => [p] + Ancestors(a, p)
  }

  /** The first-child line below i: its first child, that one's first
      child, and so on. */
  function FirstDescendants(a: Arena, i: nat): (r: seq<nat>)
    requires Linked(a) && i < |a|
    ensures forall k :: 0 <= k < |r| ==> i < r[k] < |a|
    decreases |a| - i
  {
    if a[i].children == [] then []
    else [a[i].children[0]] + FirstDescendants(a, a[i].children[0])
  }

  /** The levels of the triangles of s, one after the other. */
  function Levels(a: Arena, s: seq<nat>): (r: seq<nat>)
    requires Linked(a) && forall k :: 0 <= k < |s| ==> s[k] < |a|
  {
    if s == [] then [] else Level(a, s[0]) + Levels(a, s[1..])
  }

  /** The ancestors are the path of parent links: the parent first, each
      one's parent next, ending at a root, strictly decreasing. */
  lemma {:induction false} AncestorsIsPath(a: Arena, i: nat)
    requires Linked(a) && i < |a|
    ensures var an := Ancestors(a, i);
            (an == [] <==> a[i].parent.None?)
            && (an != [] ==> a[i].parent == Some(an[0]) && a[an[|an| - 1]].parent.None?)
            && (forall k :: 0 <= k < |an| - 1 ==> a[an[k]].parent == Some(an[k + 1]))
            && (forall k, m :: 0 <= k < m < |an| ==> an[k] > an[m])
    decreases i
  {
    match a[i].parent
    case None =>
    case Some(p) =>
      AncestorsIsPath(a, p);
      assert Ancestors(a, i) == [p] + Ancestors(a, p);
  }

  /** The candidates of `getAllAbove` are, for each ancestor from the parent
      upward, that ancestor, its next chain and its previous chain; a root
      has none. */
  lemma {:induction false} AboveByAncestors(a: Arena, i: nat)
    requires Linked(a) && i < |a|
    ensures GetAllAbove(a, i) == Levels(a, Ancestors(a, i))
    ensures GetAllAbove(a, i) == [] <==> a[i].parent.None?
    ensures a[i].parent.Some? ==> GetAllAbove(a, i)[0] == a[i].parent.value
    decreases i
  {
    match a[i].parent
    case None =>
    case Some(p) =>
      AboveByAncestors(a, p);
      var an := Ancestors(a, i);
      assert an[0] == p && an[1..] == Ancestors(a, p);
  }

  /** The same for `getAllBelow`, along the first-child line. */
  lemma {:induction false} BelowByFirstDescendants(a: Arena, i: nat)
    requires Linked(a) && i < |a|
    ensures GetAllBelow(a, i) == Levels(a, FirstDescendants(a, i))
    ensures GetAllBelow(a, i) == [] <==> a[i].children == []
    decreases |a| - i
  {
    if a[i].children != [] {
      var c := a[i].children[0];
      BelowByFirstDescendants(a, c);
      var d := FirstDescendants(a, i);
      assert d[0] == c && d[1..] == FirstDescendants(a, c);
    }
  }

  /** A triangle is a candidate exactly when it is an ancestor, or on the
      next or previous chain of one. */
  lemma {:induction false} LevelsMembers(a: Arena, s: seq<nat>, x: nat)
    requires Linked(a) && forall k :: 0 <= k < |s| ==> s[k] < |a|
    ensures x in Levels(a, s) <==>
            exists k :: 0 <= k < |s| && (x == s[k] || x in NextChain(a, s[k]) || x in PrevChain(a, s[k]))
  {
    if s != [] {
      LevelsMembers(a, s[1..], x);
      if x in Levels(a, s) && x !in Level(a, s[0]) {
        var k :| 0 <= k < |s[1..]| && (x == s[1..][k] || x in NextChain(a, s[1..][k]) || x in PrevChain(a, s[1..][k]));
        assert s[1..][k] == s[k + 1];
      }
      if exists k :: 0 <= k < |s| && (x == s[k] || x in NextChain(a, s[k]) || x in PrevChain(a, s[k])) {
        var k :| 0 <= k < |s| && (x == s[k] || x in NextChain(a, s[k]) || x in PrevChain(a, s[k]));
        if k > 0 {
          assert s[1..][k - 1] == s[k];
        }
      }
    }
  }

  // ------------------------------------------------------------ the encoder's step

  /** The arena after quad splitting x: the three edges are divided at
      the image's best ratios. */
  function QuadSplit(t: Tree, x: nat, o: Oracles): (r: Arena)
    requires Linked(t.tris) && x < |t.tris|
    ensures |r| == |t.tris| + 4
  {
    var ps := t.tris[x].points;
    Subdivide(t.tris, x, o.bestDivide(t.channel, ps[0], ps[1]), o.bestDivide(t.channel, ps[0], ps[2]),
              o.bestDivide(t.channel, ps[1], ps[2]))
  }

  /** `subdivide` under quad splitting: the new children are appended to
      the queue, in child order, as they are to the arena. */
  function SubdivideIn(t: Tree, x: nat, o: Oracles): (r: Tree)
    requires Wf(t) && x < |t.tris|
    ensures var c := |t.tris|;
            r.tris == QuadSplit(t, x, o) && r.queue == t.queue + [c, c + 1, c + 2, c + 3]
            && r.tris[x].children == [c, c + 1, c + 2, c + 3]
            && forall i :: 0 <= i < c ==> r.tris[i].id == t.tris[i].id && r.tris[i].target == t.tris[i].target
                                          && r.tris[i].points == t.tris[i].points
    ensures r.channel == t.channel && r.numAssigned == t.numAssigned && r.sMethod == t.sMethod
  {
    var ps := t.tris[x].points;
    SubdivideFrame(t.tris, x, o.bestDivide(t.channel, ps[0], ps[1]), o.bestDivide(t.channel, ps[0], ps[2]),
                   o.bestDivide(t.channel, ps[1], ps[2]));
    var a := QuadSplit(t, x, o);
    t.(tris := a, queue := t.queue + a[x].children)
  }

  /** The front of the queue, popped and given the next id. */
  function Popped(t: Tree): (r: Tree)
    requires Wf(t) && |t.queue| > 0
    ensures Wf(r) && SameLinks(t.tris, r.tris) && r.queue == t.queue[1..] && r.numAssigned == t.numAssigned + 1
    ensures r.tris == t.tris[t.queue[0] := t.tris[t.queue[0]].(id := LastId(t))]
  {
    var x := t.queue[0];
    var r := t.(tris := t.tris[x := t.tris[x].(id := LastId(t))], queue := t.queue[1..], numAssigned := t.numAssigned + 1);
    SameLinksLinked(t.tris, r.tris);
    r
  }

  /** The condition under which `assignOne` keeps the best fit rather than
      subdividing: the arena is full, or the fit is good enough, the
      triangle covers few sample points or is small, and the fit exists. */
  predicate KeepsFit(count: nat, best: TriFit.Fit, cutoff: real, inside: nat, area: real)
  {
    count == MAX_NUM_TRIANGLES
    || ((best.error < cutoff * cutoff || inside < MAX_SUBDIVIDE_SIZE || area < MAX_SUBDIVIDE_AREA)
        && best.error >= 0.0)
  }

  /** What `assignOne` does with the popped triangle x. */
  function Place(t: Tree, x: nat, cutoff: real, o: Oracles): (r: Tree)
    requires Wf(t) && x < |t.tris|
    ensures |t.tris| <= |r.tris| && r.tris[x].id == t.tris[x].id
    ensures r.numAssigned == t.numAssigned && r.channel == t.channel && r.sMethod == t.sMethod
  {
    var above := GetAllAbove(t.tris, x);
    if above == [] then SubdivideIn(t, x, o)
    else
      var best := o.bestMatch(t.channel, t.tris, x, above);
      if KeepsFit(|t.tris|, best, cutoff, o.pointsInside(t.tris, x), Area(t.tris[x].points))
      then t.(tris := t.tris[x := t.tris[x].(target := best)])
      else SubdivideIn(t, x, o)
  }

  /** The result of `assignOne`: the tree after the step and the triangle
      it numAssigned, None for the null pointer. */
  datatype Assigned = Assigned(tree: Tree, tri: Option<nat>)

  /** `assignOne`: nothing when the queue is empty; otherwise the front is
      popped and given the next id, and is then either subdivided or given
      its best fit. */
  function AssignOne(t: Tree, cutoff: real, o: Oracles): (r: Assigned)
    requires Wf(t) && t.sMethod == Quad
    ensures r.tri.None? <==> t.queue == []
    ensures r.tri.None? ==> r.tree == t
    ensures r.tri.Some? ==> r.tri.value == t.queue[0] && r.tree.numAssigned == t.numAssigned + 1
                            && r.tri.value < |r.tree.tris| && r.tree.tris[r.tri.value].id == LastId(t)
  {
    if t.queue == [] then Assigned(t, None)
    else
      var x := t.queue[0];
      var t1 := Popped(t);
      Assigned(Place(t1, x, cutoff, o), Some(x))
  }

  /** Two arenas of the same size with the same links everywhere. */
  predicate SameLinks(a: Arena, b: Arena)
  {
    |a| == |b|
    && forall i :: 0 <= i < |a| ==>
         a[i].parent == b[i].parent && a[i].next == b[i].next && a[i].prev == b[i].prev
         && a[i].children == b[i].children
  }

  lemma SameLinksLinked(a: Arena, b: Arena)
    requires Linked(a) && SameLinks(a, b)
    ensures Linked(b)
  {
  }

  // ------------------------------------------------------------ the encoder's invariant

  /** What holds of a tree between two calls to `assignOne` under quad
      splitting: the links are well formed; the queue is exactly the
      triangles not yet numAssigned, in creation order; every numAssigned
      triangle k has id k as an unsigned short; no unassigned triangle has
      children; and the arena holds 2 + 4j triangles. */
  predicate TreeInv(t: Tree)
  {
    Linked(t.tris) && t.sMethod == Quad
    && |t.tris| % 4 == 2
    && t.numAssigned <= |t.tris|
    && |t.queue| == |t.tris| - t.numAssigned
    && (forall k :: 0 <= k < |t.queue| ==> t.queue[k] == t.numAssigned + k)
    && (forall k :: 0 <= k < t.numAssigned ==> t.tris[k].id == k % 0x1_0000)
    && (forall k :: t.numAssigned <= k < |t.tris| ==> t.tris[k].children == [])
  }

  lemma InvWf(t: Tree)
    requires TreeInv(t)
    ensures Wf(t)
  {
  }

  /** Subdividing the triangle just popped keeps the invariant: no
      triangle after it has children, so the next walk finds nothing and
      the arena stays well linked. */
  lemma SubdivideKeepsInv(t: Tree, o: Oracles)
    requires TreeInv(t) && |t.queue| > 0
    ensures var x := t.queue[0];
            TreeInv(SubdivideIn(Popped(t), x, o))
  {
    var x := t.queue[0];
    var t1 := Popped(t);
    var a := t1.tris;
    var ps := a[x].points;
    var r := SubdivideIn(t1, x, o);
    assert forall k :: x < k < |a| ==> a[k].children == t.tris[k].children;
    SplitAfterChildless(a, x, o.bestDivide(t.channel, ps[0], ps[1]), o.bestDivide(t.channel, ps[0], ps[2]),
                        o.bestDivide(t.channel, ps[1], ps[2]));
    InvAfterSplit(t, r);
  }

  /** The invariant after a split, from what the split changes: one more
      triangle assigned, its id the old count, the four children appended
      to the queue, and no children after it. */
  lemma InvAfterSplit(t: Tree, r: Tree)
    requires TreeInv(t) && |t.queue| > 0
    requires var c := |t.tris|;
             var x := t.numAssigned;
             Linked(r.tris) && |r.tris| == c + 4 && r.sMethod == Quad && r.numAssigned == x + 1
             && r.queue == t.queue[1..] + [c, c + 1, c + 2, c + 3]
             && (forall i :: 0 <= i < c && i != x ==> r.tris[i].id == t.tris[i].id)
             && r.tris[x].id == LastId(t)
             && (forall k :: x < k < |r.tris| ==> r.tris[k].children == [])
    ensures TreeInv(r)
  {
    assert forall k :: 0 <= k < |r.queue| ==> r.queue[k] == r.numAssigned + k by {
      forall k | 0 <= k < |r.queue|
        ensures r.queue[k] == r.numAssigned + k
      {
        if k < |t.queue| - 1 {
          assert r.queue[k] == t.queue[k + 1];
        }
      }
    }
  }

  /** Splitting x when no later triangle has children: the next walk
      finds nothing, so the arena stays well linked, and still no triangle
      after x has children. */
  lemma SplitAfterChildless(a: Arena, x: nat, r01: real, r02: real, r12: real)
    requires Linked(a) && x < |a| && forall k :: x < k < |a| ==> a[k].children == []
    ensures var r := Subdivide(a, x, r01, r02, r12);
            Linked(r) && forall k :: x < k < |r| ==> r[k].children == []
  {
    NoLaterChildren(a, a[x].next);
    SubdivideKeepsLinked(a, x, r01, r02, r12);
    SplitKeepsLaterChildless(a, x, r01, r02, r12);
  }

  /** The old triangles after x keep their (empty) children, and the four
      new ones have none. */
  lemma SplitKeepsLaterChildless(a: Arena, x: nat, r01: real, r02: real, r12: real)
    requires Linked(a) && x < |a| && forall k :: x < k < |a| ==> a[k].children == []
    ensures var r := Subdivide(a, x, r01, r02, r12);
            forall k :: x < k < |r| ==> r[k].children == []
  {
    var r := Subdivide(a, x, r01, r02, r12);
    var c := |a|;
    SubdivideFrame(a, x, r01, r02, r12);
    SubdivideChildren(a, x, r01, r02, r12);
    forall k | x < k < |r|
      ensures r[k].children == []
    {
      if k < c {
        assert r[k].children == a[k].children;
      } else {
        assert k == c || k == c + 1 || k == c + 2 || k == c + 3;
      }
    }
  }

  /** Keeping a fit keeps the invariant. */
  lemma StoreKeepsInv(t: Tree, fit: TriFit.Fit)
    requires TreeInv(t) && |t.queue| > 0
    ensures var x := t.queue[0];
            var t1 := Popped(t);
            TreeInv(t1.(tris := t1.tris[x := t1.tris[x].(target := fit)]))
  {
    var x := t.queue[0];
    var t1 := Popped(t);
    var r := t1.(tris := t1.tris[x := t1.tris[x].(target := fit)]);
    SameLinksLinked(t.tris, r.tris);
    assert forall k :: 0 <= k < |r.queue| ==> r.queue[k] == r.numAssigned + k by {
      forall k | 0 <= k < |r.queue|
        ensures r.queue[k] == r.numAssigned + k
      {
        assert r.queue[k] == t.queue[k + 1];
      }
    }
  }

  /** `assignOne` keeps the invariant. */
  lemma AssignOneKeepsInv(t: Tree, cutoff: real, o: Oracles)
    requires TreeInv(t)
    ensures TreeInv(AssignOne(t, cutoff, o).tree)
  {
    if t.queue != [] {
      var x := t.queue[0];
      var t1 := Popped(t);
      var above := GetAllAbove(t1.tris, x);
      if above == [] {
        SubdivideKeepsInv(t, o);
      } else {
        var best := o.bestMatch(t1.channel, t1.tris, x, above);
        if KeepsFit(|t1.tris|, best, cutoff, o.pointsInside(t1.tris, x), Area(t1.tris[x].points)) {
          StoreKeepsInv(t, best);
        } else {
          SubdivideKeepsInv(t, o);
        }
      }
    }
  }

  /** The popped triangle's subdivision as the encoder's step performs it:
      four children appended to the arena and, in the same order, to the
      queue, the rest of the queue kept. */
  predicate SubdividedAt(t: Tree, r: Tree, x: nat)
    requires |t.queue| > 0
  {
    var c := |t.tris|;
    x < c && |r.tris| == c + 4 && r.tris[x].children == [c, c + 1, c + 2, c + 3] && r.tris[x].id == LastId(t)
    && r.queue == t.queue[1..] + [c, c + 1, c + 2, c + 3]
  }

  /** One step of the encoder on a tree that keeps the invariant: the
      triangle numAssigned is the oldest unassigned one; a root is always
      subdivided; any other triangle keeps its best fit among the
      candidates above it exactly when the fit exists and is good enough
      or the triangle is small, since the arena never holds 0xFFFF
      triangles; otherwise it is subdivided. */
  lemma AssignOneStep(t: Tree, cutoff: real, o: Oracles)
    requires TreeInv(t) && t.queue != []
    ensures var r := AssignOne(t, cutoff, o);
            var x := t.numAssigned;
            var a := t.tris[x := t.tris[x].(id := LastId(t))];
            r.tri == Some(x)
            && (t.tris[x].parent.None? ==> SubdividedAt(t, r.tree, x))
            && (t.tris[x].parent.Some? ==>
                  var best := o.bestMatch(t.channel, a, x, GetAllAbove(a, x));
                  var keep := (best.error < cutoff * cutoff || o.pointsInside(a, x) < MAX_SUBDIVIDE_SIZE
                               || Area(t.tris[x].points) < MAX_SUBDIVIDE_AREA) && best.error >= 0.0;
                  (keep ==> r.tree.tris == a[x := a[x].(target := best)] && r.tree.queue == t.queue[1..])
                  && (!keep ==> SubdividedAt(t, r.tree, x)))
  {
    var x := t.queue[0];
    var t1 := Popped(t);
    assert x == t.numAssigned;
    var r := Place(t1, x, cutoff, o);
    assert AssignOne(t, cutoff, o) == Assigned(r, Some(x));
    AboveByAncestors(t1.tris, x);
    if t.tris[x].parent.None? {
      assert r == SubdivideIn(t1, x, o);
    } else {
      NeverFull(t);
    }
  }

  /** Under quad splitting the arena holds 2 + 4j triangles, never 0xFFFF. */
  lemma NeverFull(t: Tree)
    requires TreeInv(t)
    ensures |t.tris| != MAX_NUM_TRIANGLES
  {
  }

  /** What the dead cap lets through: at 0xFFFF - 1 triangles a step either
      keeps a fit or subdivides past 0xFFFF, so the arena outgrows the
      16-bit ids and later ids wrap (AssignAll). */
  lemma {:induction false} CapOvershoots(t: Tree, cutoff: real, o: Oracles)
    requires TreeInv(t) && t.queue != [] && |t.tris| == MAX_NUM_TRIANGLES - 1
    ensures var r := AssignOne(t, cutoff, o).tree;
            |r.tris| == |t.tris| || |r.tris| == MAX_NUM_TRIANGLES + 3
  {
    AssignOneStep(t, cutoff, o);
  }

  /** The cap as evidently intended: keep the fit once four more triangles
      would pass `MAX_NUM_TRIANGLES`. */
  predicate KeepsFitCapped(count: nat, best: TriFit.Fit, cutoff: real, inside: nat, area: real)
  {
    count + 4 > MAX_NUM_TRIANGLES
    || ((best.error < cutoff * cutoff || inside < MAX_SUBDIVIDE_SIZE || area < MAX_SUBDIVIDE_AREA)
        && best.error >= 0.0)
  }

  /** `Place` with the intended cap: a triangle that has candidates above
      it never takes the arena past `MAX_NUM_TRIANGLES`. */
  function PlaceCapped(t: Tree, x: nat, cutoff: real, o: Oracles): (r: Tree)
    requires Wf(t) && x < |t.tris|
    ensures |t.tris| <= |r.tris| && r.tris[x].id == t.tris[x].id
    ensures r.numAssigned == t.numAssigned && r.channel == t.channel && r.sMethod == t.sMethod
    ensures GetAllAbove(t.tris, x) != [] && |t.tris| <= MAX_NUM_TRIANGLES ==> |r.tris| <= MAX_NUM_TRIANGLES
  {
    var above := GetAllAbove(t.tris, x);
    if above == [] then SubdivideIn(t, x, o)
    else
      var best := o.bestMatch(t.channel, t.tris, x, above);
      if KeepsFitCapped(|t.tris|, best, cutoff, o.pointsInside(t.tris, x), Area(t.tris[x].points))
      then t.(tris := t.tris[x := t.tris[x].(target := best)])
      else SubdivideIn(t, x, o)
  }

  /** Below the cap no id wraps: every assigned triangle's id is its
      position. */
  lemma IdsExactBelowCap(t: Tree)
    requires TreeInv(t) && |t.tris| <= MAX_NUM_TRIANGLES
    ensures forall k :: 0 <= k < t.numAssigned ==> t.tris[k].id == k
  {
  }

  // ------------------------------------------------------------ running the encoder

  /** The loop of `encode` for one channel: `assignOne` until it returns
      null, for at most `fuel` steps. */
  function AssignAll(t: Tree, cutoff: real, o: Oracles, fuel: nat): (r: Tree)
    requires TreeInv(t)
    ensures TreeInv(r)
    ensures r.channel == t.channel && r.sMethod == t.sMethod
    ensures |t.tris| <= |r.tris| && t.numAssigned <= r.numAssigned
    ensures r.queue == [] ==> r.numAssigned == |r.tris| && LastId(r) == |r.tris| % 0x1_0000
                              && forall k :: 0 <= k < |r.tris| ==> r.tris[k].id == k % 0x1_0000
    decreases fuel
  {
    var s := AssignOne(t, cutoff, o);
    if fuel == 0 || s.tri.None? then t
    else
      AssignOneKeepsInv(t, cutoff, o);
      AssignOneGrows(t, cutoff, o);
      AssignAll(s.tree, cutoff, o, fuel - 1)
  }

  /** A step never shrinks the arena and never changes the channel or the
      method. */
  lemma AssignOneGrows(t: Tree, cutoff: real, o: Oracles)
    requires TreeInv(t)
    ensures var r := AssignOne(t, cutoff, o).tree;
            |t.tris| <= |r.tris| && t.numAssigned <= r.numAssigned && r.channel == t.channel && r.sMethod == t.sMethod
  {
  }

  /** Once the queue is empty the encoder stops, and the tree stays as it
      is. */
  lemma AssignAllStops(t: Tree, cutoff: real, o: Oracles, fuel: nat)
    requires TreeInv(t) && t.queue == []
    ensures AssignAll(t, cutoff, o, fuel) == t
  {
  }

  // ------------------------------------------------------------ serialization

  /** `"TREE"`. */
  const TREE_MAGIC: Bytes := [0x54, 0x52, 0x45, 0x45]

  /** The triangles `serializeChildren` writes from i: i itself, then, if it
      is not terminal, each child's subtree in child order. */
  function Preorder(a: Arena, i: nat): (r: seq<nat>)
    requires Linked(a) && i < |a|
    ensures |r| >= 1 && r[0] == i
    ensures forall k :: 0 <= k < |r| ==> i <= r[k] < |a|
    decreases |a| - i, 1, 0
  {
    [i] + (if a[i].terminal then [] else Forest(a, a[i].children, i))
  }

  /** The subtrees of the children cs of i, one after the other. */
  function Forest(a: Arena, cs: seq<nat>, i: nat): (r: seq<nat>)
    requires Linked(a) && i < |a| && forall k :: 0 <= k < |cs| ==> i < cs[k] < |a|
    ensures forall k :: 0 <= k < |r| ==> i < r[k] < |a|
    decreases |a| - i, 0, |cs|
  {
    if cs == [] then [] else Preorder(a, cs[0]) + Forest(a, cs[1..], i)
  }

  /** The triangles `serializeTree` writes from i: i's subtree, then the
      same from its next sibling. */
  function RootOrder(a: Arena, i: nat): (r: seq<nat>)
    requires Linked(a) && i < |a|
    ensures |r| >= 1 && r[0] == i
    ensures forall k :: 0 <= k < |r| ==> i <= r[k] < |a|
    decreases |a| - i
  {
    Preorder(a, i) + match a[i].next
                     case None => []
                     case Some(n) => RootOrder(a, n)
  }

  /** The records of the triangles at the given positions, one after the
      other, each written by `write`. */
  function Records(a: Arena, order: seq<nat>, write: Tri -> Bytes): (r: Bytes)
    requires forall k :: 0 <= k < |order| ==> order[k] < |a|
  {
    if order == [] then [] else write(a[order[0]]) + Records(a, order[1..], write)
  }

  /** `serialize`: the magic, lastId as a big-endian uint16, then every
      triangle reachable from the head, each subtree in preorder, along the
      head's next chain. `write` is the triangle's own record writer. */
  function Serialize(t: Tree, write: Tri -> Bytes): (r: Bytes)
    requires Linked(t.tris) && |t.tris| > 0
    ensures |r| >= 6 && r[..4] == TREE_MAGIC && r[4..6] == EncodeU16(LastId(t))
    ensures r[6..] == Records(t.tris, RootOrder(t.tris, 0), write)
  {
    TREE_MAGIC + EncodeU16(LastId(t)) + Records(t.tris, RootOrder(t.tris, 0), write)
  }

  /** The reading loop of `unserialize`: count records, each stored at the
      slot its id names. A record whose id is past the declared count
      would be written outside the array. */
  function ReadRecords(b: Bytes, count: nat, slots: seq<Option<Tri>>,
                       read: Bytes -> Result<Parsed<Tri>>): (r: Result<Parsed<seq<Option<Tri>>>>)
    ensures r.Ok? ==> |r.value.value| == |slots|
    decreases count
  {
    if count == 0 then Ok(Parsed(slots, b))
    else
      var p :- read(b);
      if p.value.id >= |slots| then Err(BadId)
      else ReadRecords(p.rest, count - 1, slots[p.value.id := Some(p.value)], read)
  }

  /** Every slot holds a triangle. */
  predicate Filled(slots: seq<Option<Tri>>)
  {
    forall k :: 0 <= k < |slots| ==> slots[k].Some?
  }

  /** `unserialize`: anything but the magic is rejected; then the count,
      and that many records, each at the index of its id. The source then
      calls `resolveDependencies` on every slot, so a slot no record named
      holds a null pointer it dereferences: that is an `Unresolved` error.
      `read` is the triangle's own record reader. */
  function Unserialize(b: Bytes, read: Bytes -> Result<Parsed<Tri>>): (r: Result<Parsed<seq<Option<Tri>>>>)
    ensures (|b| < 4 || b[..4] != TREE_MAGIC) ==> r == Err(NotValidFile)
    ensures r.Ok? ==> |b| >= 6 && |r.value.value| == (b[4] as int) * 0x100 + b[5] && Filled(r.value.value)
  {
    if |b| < 4 || b[..4] != TREE_MAGIC then Err(NotValidFile)
    else
      var n :- DecodeU16(b[4..]);
      var p :- ReadRecords(n.rest, n.value, seq(n.value, _ => None), read);
      if Filled(p.value) then Ok(p) else Err(Unresolved)
  }

  /** Slots filled by placing each record of xs at its id, later records
      overwriting earlier ones. */
  function Placed(slots: seq<Option<Tri>>, xs: seq<Tri>): (r: seq<Option<Tri>>)
    requires forall k :: 0 <= k < |xs| ==> xs[k].id < |slots|
    ensures |r| == |slots|
    decreases |xs|
  {
    if xs == [] then slots else Placed(slots[xs[0].id := Some(xs[0])], xs[1..])
  }

  /** The records read back from the triangles at the given positions:
      what `back` keeps of each, under the triangle's own id. */
  function Kept(a: Arena, order: seq<nat>, back: Tri -> Tri): (r: seq<Tri>)
    requires forall k :: 0 <= k < |order| ==> order[k] < |a|
    ensures |r| == |order|
    ensures forall k :: 0 <= k < |order| ==> r[k] == back(a[order[k]]).(id := a[order[k]].id)
  {
    seq(|order|, k requires 0 <= k < |order| => back(a[order[k]]).(id := a[order[k]].id))
  }

  /** What a record codec does: reading a written record consumes exactly
      that record and yields `back(x)` under x's own id. `back` is what the
      record keeps of a triangle; the rest may be lost, as the fit's
      clamped fractions lose a negative error (FitRecordLoses). */
  ghost predicate Rereads(read: Bytes -> Result<Parsed<Tri>>, write: Tri -> Bytes, back: Tri -> Tri)
  {
    forall x: Tri, rest: Bytes {:trigger write(x) + rest} :: read(write(x) + rest) == Ok(Parsed(back(x).(id := x.id), rest))
  }

  /** Reading records the writer wrote places each record read back at
      its id. */
  lemma {:induction false} ReadWritten(a: Arena, order: seq<nat>, slots: seq<Option<Tri>>,
                                       read: Bytes -> Result<Parsed<Tri>>, write: Tri -> Bytes, back: Tri -> Tri,
                                       rest: Bytes)
    requires Rereads(read, write, back)
    requires forall k :: 0 <= k < |order| ==> order[k] < |a| && a[order[k]].id < |slots|
    ensures ReadRecords(Records(a, order, write) + rest, |order|, slots, read)
            == Ok(Parsed(Placed(slots, Kept(a, order, back)), rest))
  {
    if order != [] {
      var x := a[order[0]];
      var y := back(x).(id := x.id);
      var tail := Records(a, order[1..], write) + rest;
      assert Records(a, order, write) + rest == write(x) + tail;
      assert read(write(x) + tail) == Ok(Parsed(y, tail));
      ReadWritten(a, order[1..], slots[x.id := Some(y)], read, write, back, rest);
      assert Kept(a, order, back)[1..] == Kept(a, order[1..], back);
    } else {
      assert Kept(a, order, back) == [];
      assert Records(a, order, write) + rest == rest;
    }
  }

  /** A tree whose written form reads back: as many triangles are
      written as the count says, and every written id is below the count. */
  predicate Rereadable(t: Tree)
  {
    Linked(t.tris) && |t.tris| > 0
    && var order := RootOrder(t.tris, 0);
       |order| == LastId(t) && forall k :: 0 <= k < |order| ==> t.tris[order[k]].id < LastId(t)
  }

  /** The slots `unserialize` fills from a written tree: each written
      triangle's record, as read back, placed at its id. */
  function Reloaded(t: Tree, back: Tri -> Tri): (r: seq<Option<Tri>>)
    requires Rereadable(t)
    ensures |r| == LastId(t)
  {
    Placed(seq(LastId(t), _ => None), Kept(t.tris, RootOrder(t.tris, 0), back))
  }

  /** Reading a written tree back: when every slot is filled, each holds
      the last record written with that id, and reading stops right after
      the tree; otherwise the null slot is an error. */
  lemma SerializeRoundTrip(t: Tree, read: Bytes -> Result<Parsed<Tri>>, write: Tri -> Bytes, back: Tri -> Tri,
                           rest: Bytes)
    requires Rereadable(t) && Rereads(read, write, back)
    ensures Unserialize(Serialize(t, write) + rest, read)
            == if Filled(Reloaded(t, back)) then Ok(Parsed(Reloaded(t, back), rest)) else Err(Unresolved)
  {
    var order := RootOrder(t.tris, 0);
    var b := Serialize(t, write) + rest;
    var rec := Records(t.tris, order, write);
    assert b[..4] == TREE_MAGIC;
    assert b[4..] == EncodeU16(LastId(t)) + (rec + rest);
    U16RoundTrip(LastId(t), rec + rest);
    ReadWritten(t.tris, order, seq(LastId(t), _ => None), read, write, back, rest);
  }

  /** The ids of a sequence of records. */
  function Ids(xs: seq<Tri>): (r: seq<nat>)
    ensures |r| == |xs| && forall k :: 0 <= k < |xs| ==> r[k] == xs[k].id
  {
    seq(|xs|, k requires 0 <= k < |xs| => xs[k].id as nat)
  }

  /** A written tree reads back with every slot filled exactly when its
      written triangles carry distinct ids: a repeated id leaves some slot
      null. */
  lemma FilledIffDistinct(t: Tree, back: Tri -> Tri)
    requires Rereadable(t)
    ensures Filled(Reloaded(t, back)) <==> Distinct(WrittenIds(t))
  {
    var order := RootOrder(t.tris, 0);
    var xs := Kept(t.tris, order, back);
    var slots: seq<Option<Tri>> := seq(LastId(t), _ => None);
    assert Reloaded(t, back) == Placed(slots, xs);
    PlacedCover(slots, xs);
    assert Ids(xs) == WrittenIds(t);
  }

  /** The ids of a tree's triangles, in the order they are written. */
  function WrittenIds(t: Tree): (r: seq<nat>)
    requires Rereadable(t)
    ensures |r| == LastId(t)
    ensures forall k :: 0 <= k < |r| ==> r[k] == t.tris[RootOrder(t.tris, 0)[k]].id
  {
    var order := RootOrder(t.tris, 0);
    seq(|order|, k requires 0 <= k < |order| => t.tris[order[k]].id as nat)
  }

  /** Placing as many records as there are empty slots fills them all
      exactly when the records' ids are distinct. */
  lemma PlacedCover(slots: seq<Option<Tri>>, xs: seq<Tri>)
    requires |xs| == |slots| && forall k :: 0 <= k < |xs| ==> xs[k].id < |slots|
    requires forall s :: 0 <= s < |slots| ==> slots[s].None?
    ensures Filled(Placed(slots, xs)) <==> Distinct(Ids(xs))
  {
    var ids := Ids(xs);
    var r := Placed(slots, xs);
    forall s | 0 <= s < |r|
      ensures r[s].Some? <==> s in ids
    {
      PlacedFills(slots, xs, s);
    }
    CoverIffDistinct(ids);
    if Filled(r) {
      forall s | 0 <= s < |ids| ensures s in ids { assert r[s].Some?; }
    }
    if Distinct(ids) {
      forall s | 0 <= s < |r| ensures r[s].Some? { assert s in ids; }
    }
  }

  /** A slot is filled after placing exactly when it was filled before or
      some record names it. */
  lemma {:induction false} PlacedFills(slots: seq<Option<Tri>>, xs: seq<Tri>, s: nat)
    requires forall k :: 0 <= k < |xs| ==> xs[k].id < |slots|
    requires s < |slots|
    ensures Placed(slots, xs)[s].Some? <==> slots[s].Some? || s in Ids(xs)
    decreases |xs|
  {
    if xs != [] {
      PlacedFills(slots[xs[0].id := Some(xs[0])], xs[1..], s);
      assert Ids(xs) == [xs[0].id as nat] + Ids(xs[1..]);
    }
  }

  /** No value occurs twice. */
  predicate Distinct(ids: seq<nat>)
  {
    forall j, k :: 0 <= j < k < |ids| ==> ids[j] != ids[k]
  }

  /** The values below `n`. */
  function Range(n: nat): (r: set<nat>)
    ensures |r| == n && forall s: int :: s in r <==> 0 <= s < n
  {
    if n == 0 then {} else Range(n - 1) + {n - 1}
  }

  /** The values a sequence holds. */
  function Elems(ids: seq<nat>): (r: set<nat>)
    ensures |r| <= |ids| && forall x :: x in r <==> x in ids
  {
    if ids == [] then {}
    else
      assert ids == ids[..|ids| - 1] + [ids[|ids| - 1]];
      Elems(ids[..|ids| - 1]) + {ids[|ids| - 1]}
  }

  /** n values below n cover every value below n exactly when they are
      pairwise distinct. */
  lemma CoverIffDistinct(ids: seq<nat>)
    requires forall k :: 0 <= k < |ids| ==> ids[k] < |ids|
    ensures (forall s :: 0 <= s < |ids| ==> s in ids) <==> Distinct(ids)
  {
    var present := Elems(ids);
    var range := Range(|ids|);
    assert present <= range;
    assert range == present + (range - present);
    assert present * (range - present) == {};
    DistinctCard(ids);
    if Distinct(ids) {
      assert |range - present| == 0;
      forall s | 0 <= s < |ids|
        ensures s in ids
      {
        assert s in range && s !in range - present;
      }
    } else {
      assert |range - present| > 0;
      var s :| s in range - present;
      assert 0 <= s < |ids| && s !in ids;
    }
  }

  /** A sequence has as many distinct values as elements exactly when no
      value repeats. */
  lemma {:induction false} DistinctCard(ids: seq<nat>)
    ensures |Elems(ids)| == |ids| <==> Distinct(ids)
  {
    if ids != [] {
      var front := ids[..|ids| - 1];
      var last := ids[|ids| - 1];
      DistinctCard(front);
      assert Elems(ids) == Elems(front) + {last};
      DistinctSnoc(front, last);
      assert ids == front + [last];
    }
  }

  /** Appending a value keeps a sequence distinct exactly when the value
      is new. */
  lemma DistinctSnoc(front: seq<nat>, last: nat)
    ensures Distinct(front + [last]) <==> Distinct(front) && last !in front
  {
    var ids := front + [last];
    if last in front {
      var j :| 0 <= j < |front| && front[j] == last;
      assert ids[j] == ids[|front|];
    }
    if Distinct(front) && last !in front {
      forall j, k | 0 <= j < k < |ids|
        ensures ids[j] != ids[k]
      {
        assert front[j] == ids[j];
        if k < |front| {
          assert front[k] == ids[k];
        }
      }
    }
    if Distinct(ids) {
      forall j, k | 0 <= j < k < |front|
        ensures front[j] != front[k]
      {
        assert front[j] == ids[j] && front[k] == ids[k];
      }
    }
  }

  // ------------------------------------------------------------ a record codec

  const ORIGIN: Point := Point(0.0, 0.0)

  /** A record codec that meets `Rereads`: the id as an unsigned short,
      then the fit as `TriFit::serialize` writes it. */
  function FitRecord(x: Tri): (r: Bytes)
    ensures |r| == 17
  {
    EncodeU16(x.id) + TriFit.Serialize(x.target)
  }

  /** A bare triangle carrying only a fit. */
  function Bare(f: TriFit.Fit): Tri
  {
    Create(ORIGIN, ORIGIN, ORIGIN).(target := f)
  }

  /** The reader of `FitRecord`. */
  function ReadFitRecord(b: Bytes): (r: Result<Parsed<Tri>>)
    ensures |b| < 17 <==> r.Err?
    ensures r.Ok? ==> r.value.rest == b[17..]
  {
    var i :- DecodeU16(b);
    var f :- TriFit.Parse(i.rest);
    Ok(Parsed(Bare(f.value.fit).(id := i.value), f.rest))
  }

  /** What `FitRecord` keeps of a triangle: its fit as read back. */
  function FitKept(x: Tri): Tri
  {
    var p := TriFit.Parse(TriFit.Serialize(x.target));
    if p.Ok? then Bare(p.value.value.fit) else Bare(x.target)
  }

  lemma FitRecordRereads()
    ensures Rereads(ReadFitRecord, FitRecord, FitKept)
  {
    forall x: Tri, rest: Bytes
      ensures ReadFitRecord(FitRecord(x) + rest) == Ok(Parsed(FitKept(x).(id := x.id), rest))
    {
      var s := TriFit.Serialize(x.target);
      assert FitRecord(x) + rest == EncodeU16(x.id) + (s + rest);
      U16RoundTrip(x.id, s + rest);
      TriFit.ParsePrefix(s, rest);
    }
  }

  /** The codec is lossy, so `back` cannot be the identity: the default
      fit's error -1 comes back as 0. */
  lemma FitRecordLoses(x: Tri)
    requires x.target.error < 0.0
    ensures FitKept(x).target.error == 0.0 && FitKept(x) != x
  {
    TriFit.NegativeErrorReadsAsZero(x.target);
  }

  /** When the written ids are distinct, and so every slot is filled, each
      written triangle's record, as read back, sits at its id. */
  lemma ReloadedAtIds(t: Tree, back: Tri -> Tri)
    requires Rereadable(t) && Distinct(WrittenIds(t))
    ensures var order := RootOrder(t.tris, 0);
            forall k :: 0 <= k < |order| ==>
              Reloaded(t, back)[t.tris[order[k]].id] == Some(back(t.tris[order[k]]).(id := t.tris[order[k]].id))
  {
    var order := RootOrder(t.tris, 0);
    var xs := Kept(t.tris, order, back);
    var ids := WrittenIds(t);
    assert forall j, k :: 0 <= j < k < |xs| ==> xs[j].id != xs[k].id by {
      forall j, k | 0 <= j < k < |xs|
        ensures xs[j].id != xs[k].id
      {
        assert ids[j] != ids[k];
      }
    }
    PlacedDistinct(seq(LastId(t), _ => None), xs);
  }

  /** With distinct ids, placing records puts each exactly at its id. */
  lemma {:induction false} PlacedDistinct(slots: seq<Option<Tri>>, xs: seq<Tri>)
    requires forall k :: 0 <= k < |xs| ==> xs[k].id < |slots|
    requires forall j, k :: 0 <= j < k < |xs| ==> xs[j].id != xs[k].id
    ensures forall k :: 0 <= k < |xs| ==> Placed(slots, xs)[xs[k].id] == Some(xs[k])
    ensures forall s :: 0 <= s < |slots| && (forall k :: 0 <= k < |xs| ==> xs[k].id != s)
                        ==> Placed(slots, xs)[s] == slots[s]
    decreases |xs|
  {
    if xs != [] {
      var s1 := slots[xs[0].id := Some(xs[0])];
      PlacedDistinct(s1, xs[1..]);
      forall k | 0 <= k < |xs|
        ensures Placed(slots, xs)[xs[k].id] == Some(xs[k])
      {
        if k > 0 {
          assert xs[1..][k - 1] == xs[k];
        } else {
          assert forall m :: 0 <= m < |xs[1..]| ==> xs[1..][m].id != xs[0].id by {
            forall m | 0 <= m < |xs[1..]|
              ensures xs[1..][m].id != xs[0].id
            {
              assert xs[1..][m] == xs[m + 1];
            }
          }
        }
      }
      forall s | 0 <= s < |slots| && (forall k :: 0 <= k < |xs| ==> xs[k].id != s)
        ensures Placed(slots, xs)[s] == slots[s]
      {
        assert xs[0].id != s;
        assert forall m :: 0 <= m < |xs[1..]| ==> xs[1..][m].id != s by {
          forall m | 0 <= m < |xs[1..]|
            ensures xs[1..][m].id != s
          {
            assert xs[1..][m] == xs[m + 1];
          }
        }
      }
    }
  }
}
