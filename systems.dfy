/** The part of a generated star system that building the frame tree reads:
    the tree of system-body descriptors (`SBody`), the paths that name a
    system and a body in it, and the frame shapes `MakeFrameFor` builds for
    each kind of descriptor. */
module Systems {
  import opened Common
  import opened Frames

  /** The descriptor types `MakeFrameFor` and `GenBody` tell apart; each
      stands for every `SBody::TYPE_*` of that super-type. */
  datatype SBodyType = Gravpoint | Star | GasGiant | RockyPlanet | StarportOrbital | StarportSurface

  predicate IsPlanet(k: SBodyType)
  {
    k == GasGiant || k == RockyPlanet
  }

  /** A system-body descriptor and its children. `hasParent` is whether
      `parent` is non-null; `maxChildOrbit` is `GetMaxChildOrbitalDistance()`. */
  datatype SBody = SBody(
    id: SBodyId,
    name: string,
    kind: SBodyType,
    hasParent: bool,
    radius: real,
    rotationPeriod: real,
    maxChildOrbit: real,
    children: seq<SBody>)

  /** A system's coordinates: sector and index in the sector. */
  datatype SystemPath = SystemPath(sectorX: int, sectorY: int, systemIdx: int)

  /** `SBodyPath`: a system and one body of it. */
  datatype SBodyPath = SBodyPath(system: SystemPath, sbodyId: SBodyId)

  /** What the generator guarantees and `MakeFrameFor` asserts: only the root
      lacks a parent, planets and orbital starports rotate, and a surface
      starport hangs under a planet that is not the root. */
  predicate WellFormed(sb: SBody, isRoot: bool)
  {
    && sb.hasParent == !isRoot
    && (IsPlanet(sb.kind) || sb.kind == StarportOrbital ==> sb.rotationPeriod != 0.0)
    && (forall c :: c in sb.children ==>
          WellFormed(c, false) && (c.kind == StarportSurface ==> IsPlanet(sb.kind) && !isRoot))
  }

  /** The descriptor `sb` itself, if a frame will carry it: every one but a
      surface starport below the root. */
  function Own(sb: SBody): set<SBodyId>
  {
    if sb.kind == StarportSurface && sb.hasParent then {} else {sb.id}
  }

  /** The descriptors of the tree `sb` that a frame will carry. */
  function FramedIds(sb: SBody): set<SBodyId>
  {
    Own(sb) + FramedIdsOf(sb.children)
  }

  function FramedIdsOf(cs: seq<SBody>): set<SBodyId>
  {
    if cs == [] then {} else FramedIdsOf(cs[..|cs| - 1]) + FramedIds(cs[|cs| - 1])
  }

  /** One more child's tree of descriptors. */
  lemma FramedIdsOfStep(cs: seq<SBody>, i: nat)
    requires i < |cs|
    ensures FramedIdsOf(cs[..i + 1]) == FramedIdsOf(cs[..i]) + FramedIds(cs[i])
  {
    assert cs[..i + 1][..i] == cs[..i];
  }

  /** The descriptors a frame of `t` carries. */
  function Carried(t: Arena): set<SBodyId>
  {
    set g | 0 <= g < |t| && t[g].sbody.Some? :: t[g].sbody.value
  }

  /** The result of `MakeFrameFor`: the new tree, the frame returned (where
      the children go), and the frame the body was put in, if any. */
  datatype Made = Made(frames: Arena, next: FrameId, home: Option<FrameId>)

  /** The single non-rotating frame a gravpoint or a star gets under `f`:
      it carries the descriptor and names `b` as its body, and reaches to
      1.1 times the widest child orbit. */
  function GroupFrame(sb: SBody, f: FrameId, b: Option<BodyId>): Frame
  {
    Frame(sb.name, Some(f), [], Some(sb.id), b, sb.maxChildOrbit * 1.1, None)
  }

  /** The two frames a planet or an orbital starport gets under `f`: a
      non-rotating one carrying the descriptor, and inside it a rotating one
      turning once per rotation period, naming `body` as its body. */
  function FramePair(t: Arena, f: FrameId, sb: SBody, orbRadius: real, body: Option<BodyId>,
                     rotRadius: real): (u: Arena)
    requires ValidArena(t) && f < |t|
    ensures ValidArena(u) && |u| == |t| + 2
    ensures u[|t|] == Frame(sb.name, Some(f), [|t| + 1], Some(sb.id), None, orbRadius, None)
    ensures u[|t| + 1] == Frame(sb.name, Some(|t|), [], None, body, rotRadius, Some(sb.rotationPeriod))
    ensures u[f].children == t[f].children + [|t|]
  {
    var orb := AddFrame(t, Frame(sb.name, Some(f), [], Some(sb.id), None, orbRadius, None));
    AddFrame(orb, Frame(sb.name, Some(|t|), [], None, body, rotRadius, Some(sb.rotationPeriod)))
  }

  /** The radius of a planet's non-rotating frame: 1.1 times the widest
      child orbit, or ten planet radii when that comes out zero. */
  function PlanetOrbitRadius(sb: SBody): real
  {
    var frameRadius := sb.maxChildOrbit * 1.1;
    if frameRadius != 0.0 then frameRadius else 10.0 * sb.radius
  }

  /** The root descriptor takes over the frame it is given. */
  function TakeOver(t: Arena, sb: SBody, b: Option<BodyId>, f: FrameId): (u: Arena)
    requires ValidArena(t) && f < |t|
    ensures ValidArena(u) && |u| == |t|
  {
    UpdateKeepsValid(t, f, t[f].(sbody := Some(sb.id), astroBody := b));
    t[f := t[f].(sbody := Some(sb.id), astroBody := b)]
  }

  /** `MakeFrameFor(sbody, b, f)` on the frame tree. `b` is the body made for
      the descriptor (none for a gravpoint). */
  function MakeFrames(t: Arena, sb: SBody, b: Option<BodyId>, f: FrameId): (m: Made)
    requires ValidArena(t) && f < |t|
    requires sb.kind == StarportSurface && sb.hasParent ==> t[f].children != []
    ensures ValidArena(m.frames) && m.next < |m.frames| && |t| <= |m.frames|
    ensures m.home.Some? ==> m.home.value < |m.frames|
  {
    if !sb.hasParent then
      Made(TakeOver(t, sb, b, f), f, if b.Some? then Some(f) else None)
    else
      match sb.kind
      case Gravpoint => Made(AddFrame(t, GroupFrame(sb, f, b)), |t|, None)
      case GasGiant => PlanetFrames(t, sb, b, f)
      case RockyPlanet => PlanetFrames(t, sb, b, f)
      case Star => Made(AddFrame(t, GroupFrame(sb, f, b)), |t|, Some(|t|))
      case StarportOrbital => Made(FramePair(t, f, sb, 1000000.0, None, 5000.0), |t|, Some(|t| + 1))
      case StarportSurface => Made(t, t[f].children[0], Some(t[f].children[0]))
  }

  /** Gas giants and rocky planets are built alike: a non-rotating frame
      carrying the descriptor and, below it, a rotating frame holding the
      body, which is where the body goes. */
  function PlanetFrames(t: Arena, sb: SBody, b: Option<BodyId>, f: FrameId): Made
    requires ValidArena(t) && f < |t|
  {
    Made(FramePair(t, f, sb, PlanetOrbitRadius(sb), b, PlanetSpinRadius(sb)), |t|, Some(|t| + 1))
  }

  /** The radius of a planet's rotating frame: 1.1 planet radii. */
  function PlanetSpinRadius(sb: SBody): real
  {
    1.1 * sb.radius
  }

  /** `u` grows `t`: frames are only appended, child lists only grow at
      their end, and no other field of an existing frame changes, except
      that frame `f` (if it is in `t`) may have been given a descriptor and
      a body. */
  predicate Extends(t: Arena, u: Arena, f: FrameId)
  {
    && |t| <= |u|
    && forall g :: 0 <= g < |t| ==>
         && u[g].name == t[g].name && u[g].parent == t[g].parent
         && u[g].radius == t[g].radius && u[g].spinPeriod == t[g].spinPeriod
         && |t[g].children| <= |u[g].children| && u[g].children[..|t[g].children|] == t[g].children
         && (g != f ==> u[g].sbody == t[g].sbody && u[g].astroBody == t[g].astroBody)
  }

  /** Growing twice is growing: the second step may only retag a frame the
      first could retag, or one the first did not have. */
  lemma ExtendsTrans(t: Arena, u: Arena, v: Arena, e1: FrameId, e2: FrameId)
    requires Extends(t, u, e1) && Extends(u, v, e2)
    requires e2 == e1 || |t| <= e2
    ensures Extends(t, v, e1)
  {
    forall g | 0 <= g < |t|
      ensures v[g].children[..|t[g].children|] == t[g].children
    {
      assert v[g].children[..|t[g].children|] == v[g].children[..|u[g].children|][..|t[g].children|];
    }
  }

  /** Appending a frame grows the tree. */
  lemma AddFrameExtends(t: Arena, fr: Frame, f: FrameId)
    requires ValidArena(t)
    requires fr.parent.Some? && fr.parent.value < |t| && fr.children == []
    ensures Extends(t, AddFrame(t, fr), f)
  {
    var u := AddFrame(t, fr);
    var p := fr.parent.value;
    assert u[p].children[..|t[p].children|] == t[p].children;
  }

  /** Appending a frame adds its descriptor, if any, to those carried. */
  lemma AddFrameCarried(t: Arena, fr: Frame)
    requires ValidArena(t)
    requires fr.parent.Some? && fr.parent.value < |t| && fr.children == []
    ensures Carried(AddFrame(t, fr)) == Carried(t) + (if fr.sbody.Some? then {fr.sbody.value} else {})
  {
    var u := AddFrame(t, fr);
    forall x | x in Carried(u) ensures x in Carried(t) + (if fr.sbody.Some? then {fr.sbody.value} else {}) {
      var g :| 0 <= g < |u| && u[g].sbody == Some(x);
      if g < |t| { assert t[g].sbody == Some(x); }
    }
    forall x | x in Carried(t) ensures x in Carried(u) {
      var g :| 0 <= g < |t| && t[g].sbody == Some(x);
      assert u[g].sbody == Some(x);
    }
    if fr.sbody.Some? {
      assert u[|t|].sbody == fr.sbody;
    }
  }
}
