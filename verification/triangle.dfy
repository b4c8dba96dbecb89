/** Triangles of the subdivision (triangle.cpp), held in an arena: a
    sequence of records in which every link (parent, siblings, children) is
    the position of another record, or None for the null pointer. */
module Triangle {
  import opened Wrappers
  import opened MathUtils
  import opened IoUtils
  import opened Point2D
  import opened Rectangle
  import TriFit

  datatype Tri = Tri(points: Triple, parent: Option<nat>, next: Option<nat>, prev: Option<nat>,
                     children: seq<nat>, terminal: bool, id: uint16, target: TriFit.Fit)

  type Arena = seq<Tri>

  /** The constructor: a terminal triangle with id 0, no parent, no
      siblings and no children. */
  function Create(p0: Point, p1: Point, p2: Point): (t: Tri)
    ensures t.points == [p0, p1, p2] && t.terminal && t.id == 0
    ensures t.parent.None? && t.next.None? && t.prev.None? && t.children == []
  {
    Tri([p0, p1, p2], None, None, None, [], true, 0, TriFit.DefaultFit)
  }

  // ------------------------------------------------------------ well-formed arenas

  /** Every link points into the arena, and in the direction that makes
      every walk finite: a parent and a previous sibling come before the
      triangle, a next sibling and every child after it. */
  predicate Linked(a: Arena)
  {
    forall i :: 0 <= i < |a| ==>
      (a[i].parent.Some? ==> a[i].parent.value < i)
      && (a[i].prev.Some? ==> a[i].prev.value < i)
      && (a[i].next.Some? ==> i < a[i].next.value < |a|)
      && (forall k :: 0 <= k < |a[i].children| ==> i < a[i].children[k] < |a|)
  }

  // ------------------------------------------------------------ sibling links

  /** `setNextSibling`: t's next becomes n, and n's previous becomes t. */
  function SetNextSibling(a: Arena, t: nat, n: nat): (r: Arena)
    requires t < |a| && n < |a|
    ensures |r| == |a| && r[t].next == Some(n) && r[n].prev == Some(t)
    ensures forall i :: 0 <= i < |a| && i != t && i != n ==> r[i] == a[i]
    ensures t != n ==> r[t] == a[t].(next := Some(n)) && r[n] == a[n].(prev := Some(t))
  {
    var a1 := a[t := a[t].(next := Some(n))];
    a1[n := a1[n].(prev := Some(t))]
  }

  /** `setPrevSibling`: t's previous becomes p, and p's next becomes t. */
  function SetPrevSibling(a: Arena, t: nat, p: nat): (r: Arena)
    requires t < |a| && p < |a|
    ensures |r| == |a| && r[t].prev == Some(p) && r[p].next == Some(t)
    ensures forall i :: 0 <= i < |a| && i != t && i != p ==> r[i] == a[i]
    ensures t != p ==> r[t] == a[t].(prev := Some(p)) && r[p] == a[p].(next := Some(t))
  {
    var a1 := a[t := a[t].(prev := Some(p))];
    a1[p := a1[p].(next := Some(t))]
  }

  /** The two setters make the same link: setting n after t is setting t
      before n. */
  lemma SetNextIsSetPrev(a: Arena, t: nat, n: nat)
    requires t < |a| && n < |a|
    ensures SetNextSibling(a, t, n) == SetPrevSibling(a, n, t)
  {
    var r := SetNextSibling(a, t, n);
    var s := SetPrevSibling(a, n, t);
    assert forall i :: 0 <= i < |a| ==> r[i] == s[i];
  }

  // ------------------------------------------------------------ sibling chains

  /** The triangles reached by following next links from i, nearest first
      (what `getAllNextSiblings` yields). */
  function NextChain(a: Arena, i: nat): (r: seq<nat>)
    requires Linked(a) && i < |a|
    ensures forall k :: 0 <= k < |r| ==> i < r[k] < |a|
    decreases |a| - i
  {
    match a[i].next
    case None => []
    case Some(n) => [n] + NextChain(a, n)
  }

  /** The triangles reached by following previous links from i, nearest
      first (what `getAllPrevSiblings` yields). */
  function PrevChain(a: Arena, i: nat): (r: seq<nat>)
    requires Linked(a) && i < |a|
    ensures forall k :: 0 <= k < |r| ==> r[k] < i
    decreases i
  {
    match a[i].prev
    case None => []
    case Some(p) => [p] + PrevChain(a, p)
  }

  /** A next chain is the path of next links from i: it starts at i's next,
      each element's next is the following one, the last has none, and the
      elements increase strictly. */
  lemma {:induction false} NextChainIsPath(a: Arena, i: nat)
    requires Linked(a) && i < |a|
    ensures var ch := NextChain(a, i);
            (ch == [] <==> a[i].next.None?)
            && (ch != [] ==> a[i].next == Some(ch[0]) && a[ch[|ch| - 1]].next.None?)
            && (forall k :: 0 <= k < |ch| - 1 ==> a[ch[k]].next == Some(ch[k + 1]))
            && (forall k, m :: 0 <= k < m < |ch| ==> ch[k] < ch[m])
    decreases |a| - i
  {
    match a[i].next
    case None =>
    case Some(n) =>
      NextChainIsPath(a, n);
      var rest := NextChain(a, n);
      assert NextChain(a, i) == [n] + rest;
  }

  /** A previous chain is the path of previous links from i, with strictly
      decreasing elements. */
  lemma {:induction false} PrevChainIsPath(a: Arena, i: nat)
    requires Linked(a) && i < |a|
    ensures var ch := PrevChain(a, i);
            (ch == [] <==> a[i].prev.None?)
            && (ch != [] ==> a[i].prev == Some(ch[0]) && a[ch[|ch| - 1]].prev.None?)
            && (forall k :: 0 <= k < |ch| - 1 ==> a[ch[k]].prev == Some(ch[k + 1]))
            && (forall k, m :: 0 <= k < m < |ch| ==> ch[k] > ch[m])
    decreases i
  {
    match a[i].prev
    case None =>
    case Some(p) =>
      PrevChainIsPath(a, p);
      var rest := PrevChain(a, p);
      assert PrevChain(a, i) == [p] + rest;
  }

  // ------------------------------------------------------------ child links of neighbours

  /** The walk of `assignNextChildSibling`: from `next` along next links to
      the first triangle that has children, and its first child; None when
      the chain ends first. */
  function NextChildTarget(a: Arena, next: Option<nat>): (r: Option<nat>)
    requires Linked(a) && (next.Some? ==> next.value < |a|)
    ensures r.Some? ==> next.Some? && next.value < r.value < |a|
    decreases if next.Some? then |a| - next.value else 0
  {
    match next
    case None => None
    case Some(n) =>
      if |a[n].children| > 0 then Some(a[n].children[0])
      else NextChildTarget(a, a[n].next)
  }

  /** The walk of `assignPrevChildSibling`: from `prev` along previous
      links to the first triangle that has children, and its last child. */
  function PrevChildTarget(a: Arena, prev: Option<nat>): (r: Option<nat>)
    requires Linked(a) && (prev.Some? ==> prev.value < |a|)
    ensures r.Some? ==> prev.Some? && r.value < |a|
    decreases if prev.Some? then prev.value + 1 else 0
  {
    match prev
    case None => None
    case Some(p) =>
      if |a[p].children| > 0 then Some(a[p].children[|a[p].children| - 1])
      else PrevChildTarget(a, a[p].prev)
  }

  /** The first triangle of s that has children, if any. */
  function FirstWithChildren(a: Arena, s: seq<nat>): (r: Option<nat>)
    requires forall k :: 0 <= k < |s| ==> s[k] < |a|
    ensures r.None? <==> forall k :: 0 <= k < |s| ==> a[s[k]].children == []
    ensures r.Some? ==> exists k :: 0 <= k < |s| && s[k] == r.value && a[r.value].children != []
                                    && forall m :: 0 <= m < k ==> a[s[m]].children == []
  {
    if |s| == 0 then None
    else if a[s[0]].children != [] then Some(s[0])
    else
      var r := FirstWithChildren(a, s[1..]);
      assert forall k :: 1 <= k < |s| ==> s[k] == s[1..][k - 1];
      r
  }

  /** The next walk against the chain: it stops at the first triangle of i's
      next chain that has children and takes that one's first child. */
  lemma {:induction false} NextChildTargetOnChain(a: Arena, i: nat)
    requires Linked(a) && i < |a|
    ensures NextChildTarget(a, a[i].next)
            == match FirstWithChildren(a, NextChain(a, i))
               case None => None
               case Some(j) => Some(a[j].children[0])
    decreases |a| - i
  {
    match a[i].next
    case None =>
    case Some(n) =>
      var ch := NextChain(a, i);
      assert ch == [n] + NextChain(a, n) && ch[1..] == NextChain(a, n);
      if a[n].children == [] {
        assert FirstWithChildren(a, ch) == FirstWithChildren(a, NextChain(a, n));
        NextChildTargetOnChain(a, n);
      } else {
        assert FirstWithChildren(a, ch) == Some(n);
      }
  }

  /** The previous walk against the chain: it stops at the first triangle
      of i's previous chain that has children and takes that one's last
      child. */
  lemma {:induction false} PrevChildTargetOnChain(a: Arena, i: nat)
    requires Linked(a) && i < |a|
    ensures PrevChildTarget(a, a[i].prev)
            == match FirstWithChildren(a, PrevChain(a, i))
               case None => None
               case Some(j) => Some(a[j].children[|a[j].children| - 1])
    decreases i
  {
    match a[i].prev
    case None =>
    case Some(p) =>
      var ch := PrevChain(a, i);
      assert ch == [p] + PrevChain(a, p) && ch[1..] == PrevChain(a, p);
      if a[p].children == [] {
        assert FirstWithChildren(a, ch) == FirstWithChildren(a, PrevChain(a, p));
        assert PrevChildTarget(a, a[i].prev) == PrevChildTarget(a, a[p].prev);
        PrevChildTargetOnChain(a, p);
      } else {
        assert FirstWithChildren(a, ch) == Some(p);
        assert PrevChildTarget(a, a[i].prev) == Some(a[p].children[|a[p].children| - 1]);
      }
  }


  /** The next walk finds nothing when no triangle from its start onwards
      has children, as is the case for every triangle after the one being
      subdivided while the encoder works through its queue. */
  lemma {:induction false} NoLaterChildren(a: Arena, next: Option<nat>)
    requires Linked(a) && (next.Some? ==> next.value < |a|)
    requires next.Some? ==> forall j :: next.value <= j < |a| ==> a[j].children == []
    ensures NextChildTarget(a, next) == None
    decreases if next.Some? then |a| - next.value else 0
  {
    match next
    case None =>
    case Some(n) =>
      NoLaterChildren(a, a[n].next);
  }

  // ------------------------------------------------------------ subdivision

  /** The point at ratio r of the way from p to q. */
  function SplitPoint(p: Point, q: Point, r: real): Point
  {
    Point(p.x + (q.x - p.x) * r, p.y + (q.y - p.y) * r)
  }

  /** The vertices of the four children `subdivide` creates, from the split
      points m01, m02 and m12 of edges 01, 02 and 12. */
  function ChildPoints(ps: Triple, r01: real, r02: real, r12: real): (cs: seq<Triple>)
    ensures |cs| == 4
  {
    var m01 := SplitPoint(ps[0], ps[1], r01);
    var m02 := SplitPoint(ps[0], ps[2], r02);
    var m12 := SplitPoint(ps[1], ps[2], r12);
    [[ps[0], m01, m02], [ps[1], m01, m12], [ps[2], m02, m12], [m01, m02, m12]]
  }

  /** A new child of t. */
  function Child(ps: Triple, t: nat): Tri
  {
    Create(ps[0], ps[1], ps[2]).(parent := Some(t))
  }

  /** `subdivide`: four new children are appended after the last triangle,
      each with parent t, chained 0-1-2-3; child 3 is joined before the first
      child of the nearest triangle with children along t's next chain, child
      0 after the last child of the nearest one along t's previous chain; t
      stops being terminal. The two walks read only links of triangles on
      t's own sibling chains, which the earlier steps leave as they were, so
      they are evaluated on the arena as it was on entry. */
  function Subdivide(a: Arena, t: nat, r01: real, r02: real, r12: real): (r: Arena)
    requires Linked(a) && t < |a|
    ensures |r| == |a| + 4
  {
    Attach(a, t, ChildPoints(a[t].points, r01, r02, r12),
           NextChildTarget(a, a[t].next), PrevChildTarget(a, a[t].prev))
  }

  /** The arena after `subdivide`, given the children's vertices cs and the
      triangles nt and pt the two walks found: every old triangle relinked,
      then the four new children. */
  function Attach(a: Arena, t: nat, cs: seq<Triple>, nt: Option<nat>, pt: Option<nat>): (r: Arena)
    requires |cs| == 4
    ensures |r| == |a| + 4
  {
    seq(|a| + 4, i requires 0 <= i < |a| + 4 =>
      if i < |a| then Relinked(a[i], i, t, |a|, nt, pt, true) else NewChild(cs, t, |a|, i - |a|, nt, pt))
  }

  /** Old triangle i after `subdivide` of t with children from c on: t gets
      the children and, once `cleared`, stops being terminal; nt's previous
      link becomes the last child and pt's next link the first. */
  function Relinked(x: Tri, i: nat, t: nat, c: nat, nt: Option<nat>, pt: Option<nat>, cleared: bool): Tri
  {
    x.(children := if i == t then [c, c + 1, c + 2, c + 3] else x.children,
       terminal := if i == t && cleared then false else x.terminal,
       prev := if Some(i) == nt then Some(c + 3) else x.prev,
       next := if Some(i) == pt then Some(c) else x.next)
  }

  /** New child k of t, at position c + k: between child k - 1 (or pt) and
      child k + 1 (or nt). */
  function NewChild(cs: seq<Triple>, t: nat, c: nat, k: nat, nt: Option<nat>, pt: Option<nat>): Tri
    requires k < 4 && |cs| == 4
  {
    Child(cs[k], t).(prev := if k == 0 then pt else Some(c + k - 1),
                     next := if k == 3 then nt else Some(c + k + 1))
  }

  /** A child as `subdivide` creates it: vertices ps, parent t, and like a
      new triangle otherwise (terminal, id 0, no fit, no children). */
  predicate FreshChild(x: Tri, ps: Triple, t: nat)
  {
    x.points == ps && x.parent == Some(t) && x.children == []
    && x.terminal && x.id == 0 && x.target == TriFit.DefaultFit
  }

  // ------------------------------------------------------------ subdivision step by step

  /** The first steps of `subdivide`: the children are created with parent
      t and become t's children. */
  function AddChildren(a: Arena, t: nat, cs: seq<Triple>): (r: Arena)
    requires t < |a| && |cs| == 4
    ensures |r| == |a| + 4
    ensures r[t] == a[t].(children := [|a|, |a| + 1, |a| + 2, |a| + 3])
    ensures forall i :: 0 <= i < |a| && i != t ==> r[i] == a[i]
    ensures forall k :: 0 <= k < 4 ==> r[|a| + k] == Child(cs[k], t)
  {
    var c := |a|;
    a[t := a[t].(children := [c, c + 1, c + 2, c + 3])]
    + [Child(cs[0], t), Child(cs[1], t), Child(cs[2], t), Child(cs[3], t)]
  }

  /** The three `setNextSibling` calls chaining children c to c + 3. */
  function ChainChildren(a: Arena, c: nat): (r: Arena)
    requires c + 4 <= |a|
    ensures |r| == |a|
    ensures forall i :: 0 <= i < |a| && !(c <= i < c + 4) ==> r[i] == a[i]
    ensures r[c] == a[c].(next := Some(c + 1))
    ensures r[c + 1] == a[c + 1].(prev := Some(c), next := Some(c + 2))
    ensures r[c + 2] == a[c + 2].(prev := Some(c + 1), next := Some(c + 3))
    ensures r[c + 3] == a[c + 3].(prev := Some(c + 2))
  {
    SetNextSibling(SetNextSibling(SetNextSibling(a, c, c + 1), c + 1, c + 2), c + 2, c + 3)
  }

  /** `assignNextChildSibling` once its walk has found `target`: x is set
      before it, if there is one. */
  function JoinNext(a: Arena, x: nat, target: Option<nat>): (r: Arena)
    requires x < |a| && (target.Some? ==> target.value < |a| && target.value != x)
    ensures |r| == |a|
    ensures forall i :: 0 <= i < |a| && i != x && Some(i) != target ==> r[i] == a[i]
    ensures target.None? ==> r[x] == a[x]
    ensures target.Some? ==> r[x] == a[x].(next := target)
                             && r[target.value] == a[target.value].(prev := Some(x))
  {
    if target.Some? then SetNextSibling(a, x, target.value) else a
  }

  /** `assignPrevChildSibling` once its walk has found `target`: x is set
      after it, if there is one. */
  function JoinPrev(a: Arena, x: nat, target: Option<nat>): (r: Arena)
    requires x < |a| && (target.Some? ==> target.value < |a| && target.value != x)
    ensures |r| == |a|
    ensures forall i :: 0 <= i < |a| && i != x && Some(i) != target ==> r[i] == a[i]
    ensures target.None? ==> r[x] == a[x]
    ensures target.Some? ==> r[x] == a[x].(prev := target)
                             && r[target.value] == a[target.value].(next := Some(x))
  {
    if target.Some? then SetPrevSibling(a, x, target.value) else a
  }

  /** The arena part-way through `subdivide`: as Attach, except that t
      keeps its terminal flag unless `cleared`. */
  function Built(a: Arena, t: nat, cs: seq<Triple>, nt: Option<nat>, pt: Option<nat>, cleared: bool): (r: Arena)
    requires |cs| == 4
    ensures |r| == |a| + 4
  {
    seq(|a| + 4, i requires 0 <= i < |a| + 4 =>
      if i < |a| then Relinked(a[i], i, t, |a|, nt, pt, cleared) else NewChild(cs, t, |a|, i - |a|, nt, pt))
  }

  /** The statements of `subdivide` in their order: add the children, chain
      them, join the last and the first to the found neighbours, clear t's
      terminal flag. */
  function Steps(a: Arena, t: nat, cs: seq<Triple>, nt: Option<nat>, pt: Option<nat>): (r: Arena)
    requires t < |a| && |cs| == 4
    requires nt.Some? ==> nt.value < |a|
    requires pt.Some? ==> pt.value < |a|
    ensures |r| == |a| + 4
  {
    var c := |a|;
    var a4 := JoinPrev(JoinNext(ChainChildren(AddChildren(a, t, cs), c), c + 3, nt), c, pt);
    a4[t := a4[t].(terminal := false)]
  }

  /** Adding and chaining the children. */
  lemma StepChain(a: Arena, t: nat, cs: seq<Triple>)
    requires t < |a| && |cs| == 4
    ensures ChainChildren(AddChildren(a, t, cs), |a|) == Built(a, t, cs, None, None, false)
  {
    var c := |a|;
    var b := AddChildren(a, t, cs);
    var r := ChainChildren(b, c);
    var s := Built(a, t, cs, None, None, false);
    forall i | 0 <= i < |a| + 4
      ensures r[i] == s[i]
    {
      if i < |a| {
        assert s[i] == Relinked(a[i], i, t, c, None, None, false);
        assert r[i] == b[i];
      } else {
        assert s[i] == NewChild(cs, t, c, i - c, None, None);
        assert b[i] == Child(cs[i - c], t);
      }
    }
  }

  /** `assignNextChildSibling`: joining the last child before nt. */
  lemma StepJoinNext(a: Arena, t: nat, cs: seq<Triple>, nt: Option<nat>)
    requires |cs| == 4 && (nt.Some? ==> nt.value < |a|)
    ensures JoinNext(Built(a, t, cs, None, None, false), |a| + 3, nt) == Built(a, t, cs, nt, None, false)
  {
    var b := Built(a, t, cs, None, None, false);
    var r := JoinNext(b, |a| + 3, nt);
    var s := Built(a, t, cs, nt, None, false);
    forall i | 0 <= i < |a| + 4
      ensures r[i] == s[i]
    {
      if i < |a| {
        assert s[i] == Relinked(a[i], i, t, |a|, nt, None, false);
        assert b[i] == Relinked(a[i], i, t, |a|, None, None, false);
        assert r[i] == if Some(i) == nt then b[i].(prev := Some(|a| + 3)) else b[i];
      } else {
        assert s[i] == NewChild(cs, t, |a|, i - |a|, nt, None);
        assert b[i] == NewChild(cs, t, |a|, i - |a|, None, None);
        assert r[i] == if i == |a| + 3 && nt.Some? then b[i].(next := nt) else b[i];
      }
    }
  }

  /** `assignPrevChildSibling`: joining the first child after pt. */
  lemma StepJoinPrev(a: Arena, t: nat, cs: seq<Triple>, nt: Option<nat>, pt: Option<nat>)
    requires |cs| == 4 && (pt.Some? ==> pt.value < |a|)
    ensures JoinPrev(Built(a, t, cs, nt, None, false), |a|, pt) == Built(a, t, cs, nt, pt, false)
  {
    var b := Built(a, t, cs, nt, None, false);
    var r := JoinPrev(b, |a|, pt);
    var s := Built(a, t, cs, nt, pt, false);
    forall i | 0 <= i < |a| + 4
      ensures r[i] == s[i]
    {
      if i < |a| {
        assert s[i] == Relinked(a[i], i, t, |a|, nt, pt, false);
        assert b[i] == Relinked(a[i], i, t, |a|, nt, None, false);
        assert r[i] == if Some(i) == pt then b[i].(next := Some(|a|)) else b[i];
      } else {
        assert s[i] == NewChild(cs, t, |a|, i - |a|, nt, pt);
        assert b[i] == NewChild(cs, t, |a|, i - |a|, nt, None);
        assert r[i] == if i == |a| && pt.Some? then b[i].(prev := pt) else b[i];
      }
    }
  }

  /** Clearing t's terminal flag completes the subdivision. */
  lemma StepClear(a: Arena, t: nat, cs: seq<Triple>, nt: Option<nat>, pt: Option<nat>)
    requires t < |a| && |cs| == 4
    ensures var b := Built(a, t, cs, nt, pt, false);
            b[t := b[t].(terminal := false)] == Attach(a, t, cs, nt, pt)
  {
    var b := Built(a, t, cs, nt, pt, false);
    var r := b[t := b[t].(terminal := false)];
    var s := Attach(a, t, cs, nt, pt);
    forall i | 0 <= i < |a| + 4
      ensures r[i] == s[i]
    {
      if i < |a| {
        assert s[i] == Relinked(a[i], i, t, |a|, nt, pt, true);
        assert b[i] == Relinked(a[i], i, t, |a|, nt, pt, false);
      } else {
        assert s[i] == NewChild(cs, t, |a|, i - |a|, nt, pt);
        assert b[i] == NewChild(cs, t, |a|, i - |a|, nt, pt);
      }
    }
  }

  /** The arena `subdivide` yields is the one its statements build in turn. */
  lemma AttachIsSteps(a: Arena, t: nat, cs: seq<Triple>, nt: Option<nat>, pt: Option<nat>)
    requires t < |a| && |cs| == 4
    requires nt.Some? ==> nt.value < |a|
    requires pt.Some? ==> pt.value < |a|
    ensures Steps(a, t, cs, nt, pt) == Attach(a, t, cs, nt, pt)
  {
    StepChain(a, t, cs);
    StepJoinNext(a, t, cs, nt);
    StepJoinPrev(a, t, cs, nt, pt);
    StepClear(a, t, cs, nt, pt);
  }

  /** `subdivide` is its statements run in order, with the children's
      vertices from the split points and the joins from the two walks. */
  lemma SubdivideIsSteps(a: Arena, t: nat, r01: real, r02: real, r12: real)
    requires Linked(a) && t < |a|
    ensures Subdivide(a, t, r01, r02, r12)
            == Steps(a, t, ChildPoints(a[t].points, r01, r02, r12),
                     NextChildTarget(a, a[t].next), PrevChildTarget(a, a[t].prev))
  {
    AttachIsSteps(a, t, ChildPoints(a[t].points, r01, r02, r12),
                  NextChildTarget(a, a[t].next), PrevChildTarget(a, a[t].prev));
  }

  /** The walk of `assignNextChildSibling` on an arena of any shape: it
      stops where a next link leaves the arena or does not lead forward.
      On a Linked arena neither guard fires (NextWalkIsTarget). */
  function NextWalk(a: Arena, next: Option<nat>): Option<nat>
    decreases if next.Some? && next.value < |a| then |a| - next.value else 0
  {
    match next
    case None => None
    case Some(n) =>
      if n >= |a| then None
      else if |a[n].children| > 0 then Some(a[n].children[0])
      else if a[n].next.Some? && a[n].next.value > n then NextWalk(a, a[n].next)
      else None
  }

  /** The walk of `assignPrevChildSibling` on an arena of any shape: it
      stops where a previous link leaves the arena or does not lead back.
      On a Linked arena neither guard fires (PrevWalkIsTarget). */
  function PrevWalk(a: Arena, prev: Option<nat>): Option<nat>
    decreases if prev.Some? then prev.value + 1 else 0
  {
    match prev
    case None => None
    case Some(p) =>
      if p >= |a| then None
      else if |a[p].children| > 0 then Some(a[p].children[|a[p].children| - 1])
      else if a[p].prev.Some? && a[p].prev.value < p then PrevWalk(a, a[p].prev)
      else None
  }

  lemma {:induction false} NextWalkIsTarget(a: Arena, b: Arena, next: Option<nat>)
    requires Linked(a) && (next.Some? ==> next.value < |a|) && |a| <= |b|
    requires next.Some? ==> forall i | next.value <= i < |a| :: b[i] == a[i]
    ensures NextWalk(b, next) == NextChildTarget(a, next)
    decreases if next.Some? then |a| - next.value else 0
  {
    match next
    case None =>
    case Some(n) =>
      assert b[n] == a[n];
      if |a[n].children| == 0 && a[n].next.Some? {
        NextWalkIsTarget(a, b, a[n].next);
      }
  }

  lemma {:induction false} PrevWalkIsTarget(a: Arena, b: Arena, prev: Option<nat>)
    requires Linked(a) && (prev.Some? ==> prev.value < |a|) && |a| <= |b|
    requires prev.Some? ==> forall i | 0 <= i <= prev.value :: b[i] == a[i]
    ensures PrevWalk(b, prev) == PrevChildTarget(a, prev)
    decreases if prev.Some? then prev.value + 1 else 0
  {
    match prev
    case None =>
    case Some(p) =>
      assert b[p] == a[p];
      if |a[p].children| == 0 && a[p].prev.Some? {
        PrevWalkIsTarget(a, b, a[p].prev);
      }
  }

  /** In `subdivide` the next walk runs once the children are added and
      chained, and the previous walk once the last child has been joined to
      what the next walk found. Those steps change only t, the new children
      and the triangle found, none of which either walk reads, so both find
      what they find on the arena as it was on entry: evaluating them there,
      as Subdivide does, is the source's order. */
  lemma SubdivideWalksInOrder(a: Arena, t: nat, cs: seq<Triple>)
    requires Linked(a) && t < |a| && |cs| == 4
    ensures var c := |a|;
            var a2 := ChainChildren(AddChildren(a, t, cs), c);
            var nt := NextWalk(a2, a2[t].next);
            nt == NextChildTarget(a, a[t].next)
            && (nt.Some? ==> nt.value < |a2| && nt.value != c + 3)
            && var a3 := JoinNext(a2, c + 3, nt);
               PrevWalk(a3, a3[t].prev) == PrevChildTarget(a, a[t].prev)
  {
    var c := |a|;
    var a2 := ChainChildren(AddChildren(a, t, cs), c);
    assert a2[t].next == a[t].next && a2[t].prev == a[t].prev;
    assert forall i | 0 <= i < |a| && i != t :: a2[i] == a[i];
    NextWalkIsTarget(a, a2, a[t].next);
    var nt := NextChildTarget(a, a[t].next);
    var a3 := JoinNext(a2, c + 3, nt);
    assert forall i | 0 <= i < t :: a3[i] == a[i];
    assert a3[t].prev == a[t].prev;
    PrevWalkIsTarget(a, a3, a[t].prev);
  }

  // ------------------------------------------------------------ what subdivision guarantees
  lemma AttachChildFields(a: Arena, t: nat, cs: seq<Triple>, nt: Option<nat>, pt: Option<nat>)
    requires |cs| == 4
    ensures var r := Attach(a, t, cs, nt, pt);
            var c := |a|;
            FreshChild(r[c], cs[0], t) && FreshChild(r[c + 1], cs[1], t)
            && FreshChild(r[c + 2], cs[2], t) && FreshChild(r[c + 3], cs[3], t)
            && r[c].next == Some(c + 1) && r[c + 1].next == Some(c + 2) && r[c + 2].next == Some(c + 3)
            && r[c + 1].prev == Some(c) && r[c + 2].prev == Some(c + 1) && r[c + 3].prev == Some(c + 2)
            && r[c + 3].next == nt && r[c].prev == pt
  {
    AttachChildren(a, t, cs, nt, pt);
  }


  /** Each old triangle after attaching, and each new child. */
  lemma AttachOld(a: Arena, t: nat, cs: seq<Triple>, nt: Option<nat>, pt: Option<nat>)
    requires |cs| == 4
    ensures var r := Attach(a, t, cs, nt, pt);
            forall i :: 0 <= i < |a| ==> r[i] == Relinked(a[i], i, t, |a|, nt, pt, true)
  {
  }

  lemma AttachChildren(a: Arena, t: nat, cs: seq<Triple>, nt: Option<nat>, pt: Option<nat>)
    requires |cs| == 4
    ensures var r := Attach(a, t, cs, nt, pt);
            r[|a|] == NewChild(cs, t, |a|, 0, nt, pt) && r[|a| + 1] == NewChild(cs, t, |a|, 1, nt, pt)
            && r[|a| + 2] == NewChild(cs, t, |a|, 2, nt, pt) && r[|a| + 3] == NewChild(cs, t, |a|, 3, nt, pt)
  {
  }


  /** The children of a subdivision: the split triangles, with parent t, no
      children and no id yet, chained in order, and joined to the children
      the two walks find. */
  lemma SubdivideChildren(a: Arena, t: nat, r01: real, r02: real, r12: real)
    requires Linked(a) && t < |a|
    ensures var r := Subdivide(a, t, r01, r02, r12);
            var c := |a|;
            var cs := ChildPoints(a[t].points, r01, r02, r12);
            FreshChild(r[c], cs[0], t) && FreshChild(r[c + 1], cs[1], t)
            && FreshChild(r[c + 2], cs[2], t) && FreshChild(r[c + 3], cs[3], t)
            && r[c].next == Some(c + 1) && r[c + 1].next == Some(c + 2) && r[c + 2].next == Some(c + 3)
            && r[c + 1].prev == Some(c) && r[c + 2].prev == Some(c + 1) && r[c + 3].prev == Some(c + 2)
            && r[c + 3].next == NextChildTarget(a, a[t].next)
            && r[c].prev == PrevChildTarget(a, a[t].prev)
  {
    var cs := ChildPoints(a[t].points, r01, r02, r12);
    var nt := NextChildTarget(a, a[t].next);
    var pt := PrevChildTarget(a, a[t].prev);
    assert Subdivide(a, t, r01, r02, r12) == Attach(a, t, cs, nt, pt);
    AttachChildFields(a, t, cs, nt, pt);
  }

  /** The rest of the arena after a subdivision: t gets the four children
      and stops being terminal, the found neighbours are joined to the
      children, and nothing else changes. */
  lemma SubdivideFrame(a: Arena, t: nat, r01: real, r02: real, r12: real)
    requires Linked(a) && t < |a|
    ensures var r := Subdivide(a, t, r01, r02, r12);
            var c := |a|;
            var nt := NextChildTarget(a, a[t].next);
            var pt := PrevChildTarget(a, a[t].prev);
            r[t].children == [c, c + 1, c + 2, c + 3] && !r[t].terminal
            && (forall i :: 0 <= i < |a| ==>
                  r[i].points == a[i].points && r[i].parent == a[i].parent
                  && r[i].id == a[i].id && r[i].target == a[i].target)
            && (forall i :: 0 <= i < |a| && i != t ==>
                  r[i].children == a[i].children && r[i].terminal == a[i].terminal)
            && (nt.Some? ==> r[nt.value].prev == Some(c + 3))
            && (pt.Some? ==> r[pt.value].next == Some(c))
            && (forall i :: 0 <= i < |a| && Some(i) != nt ==> r[i].prev == a[i].prev)
            && (forall i :: 0 <= i < |a| && Some(i) != pt ==> r[i].next == a[i].next)
  {
    var cs := ChildPoints(a[t].points, r01, r02, r12);
    AttachOld(a, t, cs, NextChildTarget(a, a[t].next), PrevChildTarget(a, a[t].prev));
  }

  /** Attaching keeps the arena well linked when there is no next target:
      every new link points from a later triangle back to an earlier one,
      or forward from a parent to its children. */
  lemma AttachKeepsLinked(a: Arena, t: nat, cs: seq<Triple>, pt: Option<nat>)
    requires Linked(a) && t < |a| && |cs| == 4
    requires pt.Some? ==> pt.value < |a|
    ensures Linked(Attach(a, t, cs, None, pt))
  {
    var r := Attach(a, t, cs, None, pt);
    forall i | 0 <= i < |r|
      ensures (r[i].parent.Some? ==> r[i].parent.value < i)
              && (r[i].prev.Some? ==> r[i].prev.value < i)
              && (r[i].next.Some? ==> i < r[i].next.value < |r|)
              && (forall k :: 0 <= k < |r[i].children| ==> i < r[i].children[k] < |r|)
    {
      if i < |a| {
        assert r[i] == Relinked(a[i], i, t, |a|, None, pt, true);
      } else {
        assert r[i] == NewChild(cs, t, |a|, i - |a|, None, pt);
      }
    }
  }

  /** Subdividing keeps the arena well linked when the next walk finds
      nothing, which is always the case in the encoder (NoLaterChildren). */
  lemma SubdivideKeepsLinked(a: Arena, t: nat, r01: real, r02: real, r12: real)
    requires Linked(a) && t < |a| && NextChildTarget(a, a[t].next).None?
    ensures Linked(Subdivide(a, t, r01, r02, r12))
  {
    var cs := ChildPoints(a[t].points, r01, r02, r12);
    AttachKeepsLinked(a, t, cs, PrevChildTarget(a, a[t].prev));
  }

  // ------------------------------------------------------------ geometry

  /** `getBoundingBox`: the running minimum and maximum of the vertices'
      coordinates, starting from vertex 0; the rectangle's corner is the
      minimum and its size the difference. */
  datatype Extent = Extent(minx: real, miny: real, maxx: real, maxy: real)

  function Grow(e: Extent, p: Point): Extent
  {
    Extent(if p.x < e.minx then p.x else e.minx, if p.y < e.miny then p.y else e.miny,
           if p.x > e.maxx then p.x else e.maxx, if p.y > e.maxy then p.y else e.maxy)
  }

  function BoundingBox(ps: Triple): (r: Rect)
    ensures r.w >= 0.0 && r.h >= 0.0
    ensures forall i :: 0 <= i < 3 ==> r.x <= ps[i].x <= r.x + r.w && r.y <= ps[i].y <= r.y + r.h
    ensures exists i :: 0 <= i < 3 && ps[i].x == r.x
    ensures exists i :: 0 <= i < 3 && ps[i].y == r.y
    ensures exists i :: 0 <= i < 3 && ps[i].x == r.x + r.w
    ensures exists i :: 0 <= i < 3 && ps[i].y == r.y + r.h
  {
    var e := Grow(Grow(Extent(ps[0].x, ps[0].y, ps[0].x, ps[0].y), ps[1]), ps[2]);
    Rect(e.minx, e.miny, e.maxx - e.minx, e.maxy - e.miny)
  }

  /** The cross product of the edges from vertex 0 to vertices 1 and 2. */
  function Cross(ps: Triple): real
  {
    (ps[1].x - ps[0].x) * (ps[2].y - ps[0].y) - (ps[1].y - ps[0].y) * (ps[2].x - ps[0].x)
  }

  /** `getArea`: half the absolute cross product. */
  function Area(ps: Triple): (r: real)
    ensures r >= 0.0 && (r == 0.0 <==> Cross(ps) == 0.0)
  {
    Abs(Cross(ps)) / 2.0
  }

  /** The area does not depend on which vertex comes first, nor on the
      orientation. */
  lemma AreaSymmetric(p0: Point, p1: Point, p2: Point)
    ensures Area([p0, p1, p2]) == Area([p1, p2, p0])
    ensures Area([p0, p1, p2]) == Area([p0, p2, p1])
  {
    var c := Cross([p0, p1, p2]);
    assert Cross([p1, p2, p0]) == c;
    assert Cross([p0, p2, p1]) == -c;
  }

  /** The first three test triangles: their areas are 2, 100·π and 198, each
      smaller than the area of its bounding box, and every vertex passes the
      rectangle's `pointInside` as written. */
  lemma TestTriangles(pi: real)
    requires 3.0 < pi < 4.0
    ensures AreaCase([Point(0.0, 0.0), Point(2.0, 0.0), Point(0.0, 2.0)], 2.0)
    ensures AreaCase([Point(0.0, 0.0), Point(100.0, 100.0), Point(-pi, pi)], 100.0 * pi)
    ensures AreaCase([Point(2.0, 0.0), Point(0.0, 2.0), Point(100.0, 100.0)], 198.0)
  {
    FirstTestTriangle();
    SecondTestTriangle(pi);
    ThirdTestTriangle();
  }

  /** What the tests check of one triangle: its area, that the area is below
      the bounding box's, and that every vertex is inside the box. */
  predicate AreaCase(ps: Triple, area: real)
  {
    Area(ps) == area && Area(ps) < BoundingBox(ps).Area()
    && forall i :: 0 <= i < 3 ==> PointInside(BoundingBox(ps), ps[i])
  }

  lemma FirstTestTriangle()
    ensures AreaCase([Point(0.0, 0.0), Point(2.0, 0.0), Point(0.0, 2.0)], 2.0)
  {
    var t1: Triple := [Point(0.0, 0.0), Point(2.0, 0.0), Point(0.0, 2.0)];
    assert BoundingBox(t1) == Rect(0.0, 0.0, 2.0, 2.0);
  }

  lemma SecondTestTriangle(pi: real)
    requires 3.0 < pi < 4.0
    ensures AreaCase([Point(0.0, 0.0), Point(100.0, 100.0), Point(-pi, pi)], 100.0 * pi)
  {
    var t2: Triple := [Point(0.0, 0.0), Point(100.0, 100.0), Point(-pi, pi)];
    assert BoundingBox(t2) == Rect(-pi, 0.0, 100.0 + pi, 100.0);
    assert Cross(t2) == 200.0 * pi;
  }

  lemma ThirdTestTriangle()
    ensures AreaCase([Point(2.0, 0.0), Point(0.0, 2.0), Point(100.0, 100.0)], 198.0)
  {
    var t3: Triple := [Point(2.0, 0.0), Point(0.0, 2.0), Point(100.0, 100.0)];
    assert BoundingBox(t3) == Rect(0.0, 0.0, 100.0, 100.0);
    assert Cross(t3) == -396.0;
  }

  /** Every vertex of every triangle lies in its bounding box under the
      corrected rectangle test. */
  lemma VerticesInBoundingBox(ps: Triple)
    ensures forall i :: 0 <= i < 3 ==> PointInsideCorrected(BoundingBox(ps), ps[i])
  {
    forall i | 0 <= i < 3
      ensures PointInsideCorrected(BoundingBox(ps), ps[i])
    {
      PointInsideCorrectedMeansInside(BoundingBox(ps), ps[i]);
    }
  }
}
