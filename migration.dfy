/** Frame-membership migration (`UpdateFramesOfReference`): once per tick
    every body allowed to change frame may fall out of its frame into the
    parent, then may enter one child of the frame it is now in. */
module Migration {
  import opened Common
  import opened Frames
  import opened Bodies

  /** The frame geometry migration consults. The vector and matrix numerics
      behind these (frame radii, rotations, orbital motion) are inputs here:
      - `inside(f, p)`: `f->IsLocalPosInFrame(p)`;
      - `frameVel(f)`: `f->GetVelocity()`;
      - `stasisVel(f, p)`: `f->GetStasisVelocityAtPosition(p)`;
      - `leavePos(f, p)`, `leaveRot(f, v)`: the matrix built by
        `f->ApplyLeavingTransform`, applied to a point, and its rotation part
        applied to a vector;
      - `toChildPos(f, k, p)`, `toChildRot(f, k, v)`: the matrix of
        `Frame::GetFrameTransform(f, k)`, applied to a point, and after
        `ClearToRotOnly` applied to a vector. */
  datatype Geometry = Geometry(
    inside: (FrameId, Vec3) -> bool,
    frameVel: FrameId -> Vec3,
    stasisVel: (FrameId, Vec3) -> Vec3,
    leavePos: (FrameId, Vec3) -> Vec3,
    leaveRot: (FrameId, Vec3) -> Vec3,
    toChildPos: (FrameId, FrameId, Vec3) -> Vec3,
    toChildRot: (FrameId, FrameId, Vec3) -> Vec3)

  /** The body has a frame and that frame is in the arena. */
  predicate Located(t: Arena, b: Body)
  {
    b.frame.Some? && b.frame.value < |t|
  }

  /** The exit check: a body outside its frame moves to the parent frame,
      its velocity corrected by the frame's own velocity and stasis velocity;
      out of the root it is not moved and only the root's velocity is folded
      into its own. */
  function Leave(t: Arena, g: Geometry, b: Body): (r: Body)
    requires ValidArena(t) && Located(t, b)
    ensures Located(t, r) && r.kind == b.kind && r.name == b.name
  {
    var f := b.frame.value;
    if g.inside(f, b.pos) then b
    else
      var oldFrameVel := g.frameVel(f);
      match t[f].parent
      case Some(p) =>
        b.(frame := Some(p),
           pos := g.leavePos(f, b.pos),
           vel := Add(oldFrameVel, g.leaveRot(f, Sub(b.vel, g.stasisVel(f, b.pos)))))
      case None =>
        b.(vel := Add(b.vel, oldFrameVel))
  }

  /** Index of the first child of `f`, from index `i` on, that contains the
      position `p` once transformed into the child's coordinates. */
  function FirstEntered(t: Arena, g: Geometry, f: FrameId, p: Vec3, i: nat): (r: Option<nat>)
    requires ValidArena(t) && f < |t| && i <= |t[f].children|
    ensures r.Some? ==> i <= r.value < |t[f].children| &&
                        Enters(t, g, f, p, r.value)
    ensures forall j :: i <= j < (if r.Some? then r.value else |t[f].children|) ==>
                        !Enters(t, g, f, p, j)
    decreases |t[f].children| - i
  {
    if i == |t[f].children| then None
    else if Enters(t, g, f, p, i) then Some(i)
    else FirstEntered(t, g, f, p, i + 1)
  }

  /** The `j`-th child of `f` contains the point `p` of `f`. */
  predicate Enters(t: Arena, g: Geometry, f: FrameId, p: Vec3, j: nat)
    requires ValidArena(t) && f < |t| && j < |t[f].children|
  {
    var kid := t[f].children[j];
    g.inside(kid, g.toChildPos(f, kid, p))
  }

  /** Skipping children that are not entered does not change which child
      is entered first. */
  lemma {:induction false} FirstEnteredSkip(t: Arena, g: Geometry, f: FrameId, p: Vec3, k: nat)
    requires ValidArena(t) && f < |t| && k <= |t[f].children|
    requires forall j :: 0 <= j < k ==> !Enters(t, g, f, p, j)
    ensures FirstEntered(t, g, f, p, 0) == FirstEntered(t, g, f, p, k)
    decreases k
  {
    if k > 0 {
      FirstEnteredSkip(t, g, f, p, k - 1);
    }
  }

  /** The entry check: the body moves into the first child that contains it,
      its velocity rotated into the child and corrected by the child's own
      velocity and stasis velocity; if no child contains it nothing changes. */
  function Enter(t: Arena, g: Geometry, b: Body): (r: Body)
    requires ValidArena(t) && Located(t, b)
    ensures Located(t, r) && r.kind == b.kind && r.name == b.name
  {
    var f := b.frame.value;
    match FirstEntered(t, g, f, b.pos, 0)
    case None => b
    case Some(k) => IntoChild(g, f, t[f].children[k], b)
  }

  /** A body of frame `f` moved into its child `kid`: position and
      velocity transformed into the child's coordinates. */
  function IntoChild(g: Geometry, f: FrameId, kid: FrameId, b: Body): Body
  {
    var p := g.toChildPos(f, kid, b.pos);
    b.(frame := Some(kid),
       pos := p,
       vel := Add(Sub(g.toChildRot(f, kid, b.vel), g.frameVel(kid)), g.stasisVel(kid, p)))
  }

  /** The migration of one body in one tick: exit first, then entry. */
  function Migrate(t: Arena, g: Geometry, b: Body): (r: Body)
    requires ValidArena(t) && Located(t, b)
    ensures Located(t, r) && r.kind == b.kind && r.name == b.name
  {
    Enter(t, g, Leave(t, g, b))
  }

  /** Where one migration step can take a body in frame `f`: it stays, goes
      up to the parent, goes down into the first child of `f` that contains it,
      or goes up and then down into the first child of the parent that
      contains it. It enters a child whenever some child of the frame it is
      in after leaving contains it. A body inside its frame never goes up,
      and a body in the root is never moved out of it. */
  lemma MigrateDestinations(t: Arena, g: Geometry, b: Body)
    requires ValidArena(t) && Located(t, b)
    ensures var f := b.frame.value;
            var up := if !g.inside(f, b.pos) && t[f].parent.Some? then t[f].parent.value else f;
            var p := Leave(t, g, b).pos;
            var r := Migrate(t, g, b).frame.value;
            && (up == f ==> Leave(t, g, b).pos == b.pos)
            && (r == up || exists k :: 0 <= k < |t[up].children| && r == t[up].children[k] &&
                                       Enters(t, g, up, p, k) &&
                                       forall j :: 0 <= j < k ==> !Enters(t, g, up, p, j))
            && ((exists k :: 0 <= k < |t[up].children| && Enters(t, g, up, p, k)) ==> r != up)
            && (g.inside(f, b.pos) ==> up == f)
            && (f == Root ==> up == Root)
  {
    var lb := Leave(t, g, b);
    var up := lb.frame.value;
    var e := FirstEntered(t, g, up, lb.pos, 0);
    if e.Some? {
      var k := e.value;
      assert Migrate(t, g, b).frame.value == t[up].children[k];
      assert up < t[up].children[k];
    }
  }

  /** Each body changes frame level by at most one per tick: leaving and
      entering in the same tick returns it to the level it started at. */
  lemma {:induction false} MigrateLevel(t: Arena, g: Geometry, b: Body)
    requires ValidArena(t) && Located(t, b)
    ensures var d0 := Depth(t, b.frame.value);
            var d1 := Depth(t, Migrate(t, g, b).frame.value);
            d0 - 1 <= d1 <= d0 + 1
  {
    var f := b.frame.value;
    var lb := Leave(t, g, b);
    var up := lb.frame.value;
    assert up == f || (f != Root && up == t[f].parent.value && Depth(t, f) == Depth(t, up) + 1);
    var e := FirstEntered(t, g, up, lb.pos, 0);
    if e.Some? {
      var kid := t[up].children[e.value];
      assert t[kid].parent == Some(up);
      assert Depth(t, kid) == Depth(t, up) + 1;
    }
  }

  /** Every body of `bs` that may move frame has a frame in the arena. */
  predicate Placed(t: Arena, mayMove: BodyId -> bool, bs: seq<BodyId>, m: map<BodyId, Body>)
  {
    forall k :: 0 <= k < |bs| ==> bs[k] in m && (mayMove(bs[k]) ==> Located(t, m[bs[k]]))
  }

  /** The loop of `UpdateFramesOfReference` over the body list `bs`, body by
      body in list order; bodies without `FLAG_CAN_MOVE_FRAME` are skipped. */
  function MigrateAll(t: Arena, g: Geometry, mayMove: BodyId -> bool, bs: seq<BodyId>,
                      m: map<BodyId, Body>): (r: map<BodyId, Body>)
    requires ValidArena(t) && Placed(t, mayMove, bs, m)
    ensures r.Keys == m.Keys
    ensures forall x :: x in m && (x !in bs || !mayMove(x)) ==> r[x] == m[x]
    ensures forall x :: x in m ==> r[x].kind == m[x].kind && r[x].name == m[x].name
    ensures forall x :: x in m && Located(t, m[x]) ==> Located(t, r[x])
    decreases |bs|
  {
    if bs == [] then m
    else
      var n := |bs| - 1;
      assert Placed(t, mayMove, bs[..n], m);
      var prev := MigrateAll(t, g, mayMove, bs[..n], m);
      var x := bs[n];
      if mayMove(x) then prev[x := Migrate(t, g, prev[x])] else prev
  }

  /** One more body through the loop. */
  lemma MigrateAllStep(t: Arena, g: Geometry, mayMove: BodyId -> bool, bs: seq<BodyId>,
                       m: map<BodyId, Body>, i: nat)
    requires ValidArena(t) && Placed(t, mayMove, bs, m) && i < |bs|
    ensures Placed(t, mayMove, bs[..i], m) && Placed(t, mayMove, bs[..i + 1], m)
    ensures var prev := MigrateAll(t, g, mayMove, bs[..i], m);
      && bs[i] in prev && (mayMove(bs[i]) ==> Located(t, prev[bs[i]]))
      && MigrateAll(t, g, mayMove, bs[..i + 1], m) ==
           if mayMove(bs[i]) then prev[bs[i] := Migrate(t, g, prev[bs[i]])] else prev
  {
    assert bs[..i + 1][..i] == bs[..i];
    assert bs[..i + 1][i] == bs[i];
  }

  /** A movable body listed once is migrated exactly once. */
  lemma {:induction false} MigrateAllOnce(t: Arena, g: Geometry, mayMove: BodyId -> bool,
                                          bs: seq<BodyId>, m: map<BodyId, Body>, x: BodyId)
    requires ValidArena(t) && Placed(t, mayMove, bs, m)
    requires mayMove(x) && multiset(bs)[x] == 1
    ensures x in m && MigrateAll(t, g, mayMove, bs, m)[x] == Migrate(t, g, m[x])
    decreases |bs|
  {
    var n := |bs| - 1;
    assert bs == bs[..n] + [bs[n]];
    assert Placed(t, mayMove, bs[..n], m);
    if bs[n] == x {
      assert multiset(bs[..n])[x] == 0;
      assert x !in bs[..n];
    } else {
      assert multiset(bs[..n])[x] == 1;
      MigrateAllOnce(t, g, mayMove, bs[..n], m, x);
    }
  }
}
