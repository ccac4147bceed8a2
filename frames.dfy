/** The tree of nested reference frames, kept as an arena: frame `f` is
    `t[f]`, the root (`Space::rootFrame`) is index 0, and every frame is
    appended after its parent, so a child's index is always greater than its
    parent's. That order is what makes the recursive walks below terminate. */
module Frames {
  import opened Common

  /** One `Frame`: the parent link, the ordered child list (`m_children`),
      the system-body descriptor it was built for (`m_sbody`), the body it
      moves with (`m_astroBody`), its radius, and, for a rotating frame, the
      rotation period that fixes its angular velocity `2*pi/period` about y. */
  datatype Frame = Frame(
    name: string,
    parent: Option<FrameId>,
    children: seq<FrameId>,
    sbody: Option<SBodyId>,
    astroBody: Option<BodyId>,
    radius: real,
    spinPeriod: Option<real>)

  type Arena = seq<Frame>

  const Root: FrameId := 0

  /** The arena is a tree rooted at `Root`: parent and child links agree, and
      every child comes after its parent. */
  predicate ValidArena(t: Arena)
  {
    && |t| > 0
    && t[Root].parent == None
    && (forall f {:trigger t[f].parent} :: 0 < f < |t| ==>
          t[f].parent.Some? && t[f].parent.value < f && f in t[t[f].parent.value].children)
    && (forall f, k :: 0 <= f < |t| && 0 <= k < |t[f].children| ==>
          f < t[f].children[k] < |t| && t[t[f].children[k]].parent == Some(f))
  }

  /** `new Frame(parent, name)`: a fresh frame with no children, appended to
      the arena and to the end of its parent's child list. */
  function AddFrame(t: Arena, fr: Frame): (r: Arena)
    requires ValidArena(t)
    requires fr.parent.Some? && fr.parent.value < |t| && fr.children == []
    ensures ValidArena(r)
    ensures |r| == |t| + 1 && r[|t|] == fr
    ensures r[fr.parent.value].children == t[fr.parent.value].children + [|t|]
    ensures forall f :: 0 <= f < |t| && f != fr.parent.value ==> r[f] == t[f]
  {
    var p := fr.parent.value;
    var r := t[p := t[p].(children := t[p].children + [|t|])] + [fr];
    AddFrameValid(t, fr, r);
    r
  }

  lemma AddFrameValid(t: Arena, fr: Frame, r: Arena)
    requires ValidArena(t)
    requires fr.parent.Some? && fr.parent.value < |t| && fr.children == []
    requires r == t[fr.parent.value := t[fr.parent.value].(children := t[fr.parent.value].children + [|t|])] + [fr]
    ensures ValidArena(r)
  {
    var p := fr.parent.value;
    assert |r| == |t| + 1;
    forall f | 0 < f < |r|
      ensures r[f].parent.Some? && r[f].parent.value < f && f in r[r[f].parent.value].children
    {
      if f < |t| {
        var q := t[f].parent.value;
        assert r[f].parent == t[f].parent;
        assert f in t[q].children;
        assert t[q].children <= r[q].children;
      } else {
        assert f == |t| && r[f] == fr;
        assert r[p].children == t[p].children + [f];
      }
    }
    forall f, k | 0 <= f < |r| && 0 <= k < |r[f].children|
      ensures f < r[f].children[k] < |r| && r[r[f].children[k]].parent == Some(f)
    {
      if f == p && k == |t[p].children| {
        assert r[f].children[k] == |t|;
      } else {
        assert f < |t| && k < |t[f].children| && r[f].children[k] == t[f].children[k];
        var c := t[f].children[k];
        assert c < |t| && r[c].parent == t[c].parent;
      }
    }
  }

  /** Changing what a frame describes, but not its links, keeps the tree. */
  lemma UpdateKeepsValid(t: Arena, f: FrameId, fr: Frame)
    requires ValidArena(t) && f < |t|
    requires fr.parent == t[f].parent && fr.children == t[f].children
    ensures ValidArena(t[f := fr])
  {
  }

  /** How many parent links separate `f` from the root. */
  function Depth(t: Arena, f: FrameId): nat
    requires ValidArena(t) && f < |t|
    decreases f
  {
    if t[f].parent.None? then 0 else 1 + Depth(t, t[f].parent.value)
  }

  /** `find_frame_with_sbody`: the frame itself if it carries `b`, otherwise
      the first hit of a search through the children in list order. */
  function FindFrameWithSBody(t: Arena, f: FrameId, b: Option<SBodyId>): (r: Option<FrameId>)
    requires ValidArena(t) && f < |t|
    ensures r.Some? ==> f <= r.value < |t| && t[r.value].sbody == b
    ensures r.Some? ==> r.value in PreOrder(t, f)
    decreases |t| - f, 1
  {
    if t[f].sbody == b then Some(f) else FindInChildren(t, f, 0, b)
  }

  /** The loop of `find_frame_with_sbody` over `f`'s children from index `i`. */
  function FindInChildren(t: Arena, f: FrameId, i: nat, b: Option<SBodyId>): (r: Option<FrameId>)
    requires ValidArena(t) && f < |t| && i <= |t[f].children|
    ensures r.Some? ==> f < r.value < |t| && t[r.value].sbody == b
    ensures r.Some? ==> r.value in PreOrderFrom(t, f, i)
    decreases |t| - f, 0, |t[f].children| - i
  {
    if i == |t[f].children| then None
    else
      var found := FindFrameWithSBody(t, t[f].children[i], b);
      if found.Some? then found else FindInChildren(t, f, i + 1, b)
  }

  /** The frames of the subtree at `f` in depth-first pre-order. */
  function PreOrder(t: Arena, f: FrameId): (s: seq<FrameId>)
    requires ValidArena(t) && f < |t|
    ensures |s| > 0 && s[0] == f && InArena(t, s)
    ensures forall x :: x in s ==> f <= x < |t|
    decreases |t| - f, 1
  {
    [f] + PreOrderFrom(t, f, 0)
  }

  /** The pre-order listings of the subtrees of `f`'s children from index `i` on. */
  function PreOrderFrom(t: Arena, f: FrameId, i: nat): (s: seq<FrameId>)
    requires ValidArena(t) && f < |t| && i <= |t[f].children|
    ensures forall x :: x in s ==> f < x < |t|
    ensures InArena(t, s)
    decreases |t| - f, 0, |t[f].children| - i
  {
    if i == |t[f].children| then []
    else PreOrder(t, t[f].children[i]) + PreOrderFrom(t, f, i + 1)
  }

  /** Every entry of `s` names a frame of `t`. */
  predicate InArena(t: Arena, s: seq<FrameId>)
  {
    forall k :: 0 <= k < |s| ==> s[k] < |t|
  }

  /** The first frame of the list `s` whose descriptor is `b`: an independent
      reference definition of the search. */
  function FirstCarrying(t: Arena, s: seq<FrameId>, b: Option<SBodyId>): (r: Option<FrameId>)
    requires InArena(t, s)
    ensures r.None? <==> forall k :: 0 <= k < |s| ==> t[s[k]].sbody != b
    ensures r.Some? ==> exists k :: 0 <= k < |s| && s[k] == r.value && t[s[k]].sbody == b &&
                                    forall j :: 0 <= j < k ==> t[s[j]].sbody != b
  {
    if s == [] then None
    else if t[s[0]].sbody == b then Some(s[0])
    else
      var r := FirstCarrying(t, s[1..], b);
      if r.Some? then
        var k :| 0 <= k < |s[1..]| && s[1..][k] == r.value && t[s[1..][k]].sbody == b &&
                 forall j :: 0 <= j < k ==> t[s[1..][j]].sbody != b;
        assert s[k + 1] == r.value;
        r
      else r
  }

  lemma {:induction false} FirstCarryingAppend(t: Arena, s1: seq<FrameId>, s2: seq<FrameId>, b: Option<SBodyId>)
    requires InArena(t, s1) && InArena(t, s2)
    ensures FirstCarrying(t, s1 + s2, b) ==
            if FirstCarrying(t, s1, b).Some? then FirstCarrying(t, s1, b) else FirstCarrying(t, s2, b)
  {
    if s1 != [] {
      assert (s1 + s2)[1..] == s1[1..] + s2;
      FirstCarryingAppend(t, s1[1..], s2, b);
    } else {
      assert s1 + s2 == s2;
    }
  }

  /** `find_frame_with_sbody` returns the first frame in pre-order that
      carries `b`, and null exactly when no frame of the subtree does. */
  lemma {:induction false} FindIsFirstInPreOrder(t: Arena, f: FrameId, b: Option<SBodyId>)
    requires ValidArena(t) && f < |t|
    ensures FindFrameWithSBody(t, f, b) == FirstCarrying(t, PreOrder(t, f), b)
    decreases |t| - f, 1
  {
    FirstCarryingAppend(t, [f], PreOrderFrom(t, f, 0), b);
    if t[f].sbody != b {
      FindInChildrenIsFirst(t, f, 0, b);
    }
  }

  lemma {:induction false} FindInChildrenIsFirst(t: Arena, f: FrameId, i: nat, b: Option<SBodyId>)
    requires ValidArena(t) && f < |t| && i <= |t[f].children|
    ensures FindInChildren(t, f, i, b) == FirstCarrying(t, PreOrderFrom(t, f, i), b)
    decreases |t| - f, 0, |t[f].children| - i
  {
    if i < |t[f].children| {
      var c := t[f].children[i];
      FindIsFirstInPreOrder(t, c, b);
      FindInChildrenIsFirst(t, f, i + 1, b);
      FirstCarryingAppend(t, PreOrder(t, c), PreOrderFrom(t, f, i + 1), b);
    }
  }

  /** The subtree listing of a child at index `k >= i` is part of the listing from `i`. */
  lemma {:induction false} ChildSubtreeListed(t: Arena, f: FrameId, i: nat, k: nat, x: FrameId)
    requires ValidArena(t) && f < |t| && i <= k < |t[f].children|
    requires x in PreOrder(t, t[f].children[k])
    ensures x in PreOrderFrom(t, f, i)
    decreases |t[f].children| - i
  {
    if i < k {
      ChildSubtreeListed(t, f, i + 1, k, x);
    }
  }

  /** A frame found in a pre-order listing comes from the subtree of one of the children. */
  lemma {:induction false} ListedInSomeChild(t: Arena, f: FrameId, i: nat, x: FrameId) returns (k: nat)
    requires ValidArena(t) && f < |t| && i <= |t[f].children|
    requires x in PreOrderFrom(t, f, i)
    ensures i <= k < |t[f].children| && x in PreOrder(t, t[f].children[k])
    decreases |t[f].children| - i
  {
    if x in PreOrder(t, t[f].children[i]) {
      k := i;
    } else {
      k := ListedInSomeChild(t, f, i + 1, x);
    }
  }

  /** Pre-order listings are closed under taking children. */
  lemma {:induction false} ChildListed(t: Arena, f: FrameId, x: FrameId, k: nat)
    requires ValidArena(t) && f < |t|
    requires x in PreOrder(t, f) && k < |t[x].children|
    ensures t[x].children[k] in PreOrder(t, f)
    decreases |t| - f
  {
    var c := t[x].children[k];
    if x == f {
      ChildSubtreeListed(t, f, 0, k, c);
    } else {
      var j := ListedInSomeChild(t, f, 0, x);
      var g := t[f].children[j];
      ChildListed(t, g, x, k);
      ChildSubtreeListed(t, f, 0, j, c);
    }
  }

  /** Every frame of the arena is reached from the root. */
  lemma {:induction false} ReachableFromRoot(t: Arena, g: FrameId)
    requires ValidArena(t) && g < |t|
    ensures g in PreOrder(t, Root)
    decreases g
  {
    if g != Root {
      var p := t[g].parent.value;
      ReachableFromRoot(t, p);
      var k :| 0 <= k < |t[p].children| && t[p].children[k] == g;
      ChildListed(t, Root, p, k);
    }
  }

  /** `GetFrameWithSBody` searches from the root, so it misses only when no
      frame of the whole arena carries `b`, and otherwise returns the first
      carrier in pre-order. */
  lemma GetFrameWithSBodyComplete(t: Arena, b: Option<SBodyId>)
    requires ValidArena(t)
    ensures FindFrameWithSBody(t, Root, b).None? <==> forall g :: 0 <= g < |t| ==> t[g].sbody != b
  {
    FindIsFirstInPreOrder(t, Root, b);
    var s := PreOrder(t, Root);
    if FindFrameWithSBody(t, Root, b).None? {
      forall g | 0 <= g < |t| ensures t[g].sbody != b {
        ReachableFromRoot(t, g);
        var k :| 0 <= k < |s| && s[k] == g;
      }
    }
  }
}
