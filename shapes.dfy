/** The frame shapes `MakeFrameFor` builds, one lemma per kind of
    descriptor, and what building them does to the frames already there and
    to the set of descriptors the frames carry. */
module Shapes {
  import opened Common
  import opened Frames
  import opened Systems

  /** The two frames of a pair are appended one after the other. */
  lemma FramePairSteps(t: Arena, f: FrameId, sb: SBody, orbRadius: real, body: Option<BodyId>, rotRadius: real)
    requires ValidArena(t) && f < |t|
    ensures FramePair(t, f, sb, orbRadius, body, rotRadius)
      == AddFrame(AddFrame(t, Frame(sb.name, Some(f), [], Some(sb.id), None, orbRadius, None)),
                  Frame(sb.name, Some(|t|), [], None, body, rotRadius, Some(sb.rotationPeriod)))
  {
  }

  lemma FramePairExtends(t: Arena, f: FrameId, sb: SBody, orbRadius: real, body: Option<BodyId>, rotRadius: real)
    requires ValidArena(t) && f < |t|
    ensures Extends(t, FramePair(t, f, sb, orbRadius, body, rotRadius), |t|)
  {
    var ofr := Frame(sb.name, Some(f), [], Some(sb.id), None, orbRadius, None);
    var orb := AddFrame(t, ofr);
    var rfr := Frame(sb.name, Some(|t|), [], None, body, rotRadius, Some(sb.rotationPeriod));
    FramePairSteps(t, f, sb, orbRadius, body, rotRadius);
    AddFrameExtends(t, ofr, |t|);
    AddFrameExtends(orb, rfr, |t|);
    ExtendsTrans(t, orb, AddFrame(orb, rfr), |t|, |t|);
  }

  lemma FramePairCarried(t: Arena, f: FrameId, sb: SBody, orbRadius: real, body: Option<BodyId>, rotRadius: real)
    requires ValidArena(t) && f < |t|
    ensures Carried(FramePair(t, f, sb, orbRadius, body, rotRadius)) == Carried(t) + {sb.id}
  {
    var ofr := Frame(sb.name, Some(f), [], Some(sb.id), None, orbRadius, None);
    var orb := AddFrame(t, ofr);
    var rfr := Frame(sb.name, Some(|t|), [], None, body, rotRadius, Some(sb.rotationPeriod));
    FramePairSteps(t, f, sb, orbRadius, body, rotRadius);
    AddFrameCarried(t, ofr);
    AddFrameCarried(orb, rfr);
  }

  /** A pair of frames grows the tree and adds the descriptor. */
  lemma FramePairGrows(t: Arena, f: FrameId, sb: SBody, orbRadius: real, body: Option<BodyId>, rotRadius: real)
    requires ValidArena(t) && f < |t|
    ensures Extends(t, FramePair(t, f, sb, orbRadius, body, rotRadius), |t|)
    ensures Carried(FramePair(t, f, sb, orbRadius, body, rotRadius)) == Carried(t) + {sb.id}
  {
    FramePairExtends(t, f, sb, orbRadius, body, rotRadius);
    FramePairCarried(t, f, sb, orbRadius, body, rotRadius);
  }

  /** A root descriptor takes over the frame it is given: that frame gets
      the descriptor and the body, holds the body, and is returned; the
      tree keeps its shape. */
  lemma RootShape(t: Arena, sb: SBody, b: Option<BodyId>, f: FrameId)
    requires ValidArena(t) && f < |t| && !sb.hasParent
    ensures var m := MakeFrames(t, sb, b, f);
      && m.next == f && |m.frames| == |t|
      && m.frames[f].sbody == Some(sb.id) && m.frames[f].astroBody == b
      && (b.Some? <==> m.home == Some(f))
      && Extends(t, m.frames, f)
      && Carried(m.frames) <= Carried(t) + {sb.id} && sb.id in Carried(m.frames)
  {
    var u := t[f := t[f].(sbody := Some(sb.id), astroBody := b)];
    assert MakeFrames(t, sb, b, f).frames == u;
    assert u[f].sbody == Some(sb.id);
    forall x | x in Carried(u) ensures x in Carried(t) + {sb.id} {
      var g :| 0 <= g < |u| && u[g].sbody == Some(x);
      if g != f { assert t[g].sbody == Some(x); }
    }
  }

  /** A planet gets a non-rotating frame carrying its descriptor, of radius
      1.1 times the widest child orbit (ten planet radii when that is zero),
      with exactly one child: a rotating frame of 1.1 planet radii turning
      once per rotation period, which names the planet as its body and
      holds it. The non-rotating frame is returned. */
  lemma PlanetShape(t: Arena, sb: SBody, b: Option<BodyId>, f: FrameId)
    requires ValidArena(t) && f < |t| && sb.hasParent && IsPlanet(sb.kind)
    ensures var m := MakeFrames(t, sb, b, f);
      && m.next == |t| && |m.frames| == |t| + 2
      && m.frames[|t|] == Frame(sb.name, Some(f), [|t| + 1], Some(sb.id), None,
                                if sb.maxChildOrbit != 0.0 then sb.maxChildOrbit * 1.1 else 10.0 * sb.radius, None)
      && m.frames[|t| + 1] == Frame(sb.name, Some(|t|), [], None, b, 1.1 * sb.radius, Some(sb.rotationPeriod))
      && m.home == Some(|t| + 1)
      && m.frames[f].children == t[f].children + [|t|]
  {
    PlanetMade(t, sb, b, f);
  }

  /** Gas giants and rocky planets are built alike. */
  lemma PlanetMade(t: Arena, sb: SBody, b: Option<BodyId>, f: FrameId)
    requires ValidArena(t) && f < |t| && sb.hasParent && IsPlanet(sb.kind)
    ensures MakeFrames(t, sb, b, f) == PlanetFrames(t, sb, b, f)
  {
    if sb.kind == GasGiant {
      GasGiantMade(t, sb, b, f);
    } else {
      RockyPlanetMade(t, sb, b, f);
    }
  }

  lemma GasGiantMade(t: Arena, sb: SBody, b: Option<BodyId>, f: FrameId)
    requires ValidArena(t) && f < |t| && sb.hasParent && sb.kind == GasGiant
    ensures MakeFrames(t, sb, b, f) == PlanetFrames(t, sb, b, f)
  {
  }

  lemma RockyPlanetMade(t: Arena, sb: SBody, b: Option<BodyId>, f: FrameId)
    requires ValidArena(t) && f < |t| && sb.hasParent && sb.kind == RockyPlanet
    ensures MakeFrames(t, sb, b, f) == PlanetFrames(t, sb, b, f)
  {
  }

  /** An orbital starport gets a non-rotating frame of radius 1e6 carrying
      its descriptor and one rotating child frame of radius 5000 that holds
      the station but does not name it as its body. */
  lemma OrbitalStarportShape(t: Arena, sb: SBody, b: Option<BodyId>, f: FrameId)
    requires ValidArena(t) && f < |t| && sb.hasParent && sb.kind == StarportOrbital
    ensures var m := MakeFrames(t, sb, b, f);
      && m.next == |t| && |m.frames| == |t| + 2
      && m.frames[|t|] == Frame(sb.name, Some(f), [|t| + 1], Some(sb.id), None, 1000000.0, None)
      && m.frames[|t| + 1] == Frame(sb.name, Some(|t|), [], None, None, 5000.0, Some(sb.rotationPeriod))
      && m.home == Some(|t| + 1)
      && Extends(t, m.frames, |t|)
      && Carried(m.frames) == Carried(t) + {sb.id}
  {
    assert MakeFrames(t, sb, b, f).frames == FramePair(t, f, sb, 1000000.0, None, 5000.0);
    FramePairGrows(t, f, sb, 1000000.0, None, 5000.0);
  }

  /** A star or a gravpoint gets one non-rotating frame of 1.1 times the
      widest child orbit, carrying the descriptor and naming the body; a
      star is put in it, a gravpoint has no body to put. */
  lemma SingleFrameShape(t: Arena, sb: SBody, b: Option<BodyId>, f: FrameId)
    requires ValidArena(t) && f < |t| && sb.hasParent && (sb.kind == Star || sb.kind == Gravpoint)
    ensures var m := MakeFrames(t, sb, b, f);
      && m.next == |t| && |m.frames| == |t| + 1
      && m.frames[|t|] == Frame(sb.name, Some(f), [], Some(sb.id), b, sb.maxChildOrbit * 1.1, None)
      && m.home == (if sb.kind == Star then Some(|t|) else None)
      && Extends(t, m.frames, |t|)
      && Carried(m.frames) == Carried(t) + {sb.id}
  {
    assert MakeFrames(t, sb, b, f).frames == AddFrame(t, GroupFrame(sb, f, b));
    AddFrameExtends(t, GroupFrame(sb, f, b), |t|);
    AddFrameCarried(t, GroupFrame(sb, f, b));
  }

  /** A surface starport gets no frame: it goes into the first child of the
      frame it is given, the planet's rotating frame, and that is returned. */
  lemma SurfaceStarportShape(t: Arena, sb: SBody, b: Option<BodyId>, f: FrameId)
    requires ValidArena(t) && f < |t| && sb.hasParent && sb.kind == StarportSurface
    requires t[f].children != []
    ensures var m := MakeFrames(t, sb, b, f);
      && m.frames == t && m.next == t[f].children[0] && m.home == Some(t[f].children[0])
  {
  }

  /** `u` is what building the frames for `sb` from `t` may leave: the tree
      only grows (a root descriptor may retag the frame `f` it is given),
      the descriptor is carried unless it is a surface starport below the
      root, and no other descriptor is added. */
  predicate GrowsBy(t: Arena, sb: SBody, f: FrameId, u: Arena)
  {
    && Extends(t, u, if sb.hasParent then |t| else f)
    && Carried(u) <= Carried(t) + Own(sb)
    && Own(sb) <= Carried(u)
    && (sb.hasParent ==> Carried(t) <= Carried(u))
  }

  lemma RootGrowsBy(t: Arena, sb: SBody, b: Option<BodyId>, f: FrameId)
    requires ValidArena(t) && f < |t| && !sb.hasParent
    ensures GrowsBy(t, sb, f, MakeFrames(t, sb, b, f).frames)
  {
    RootShape(t, sb, b, f);
  }

  lemma SingleFrameGrowsBy(t: Arena, sb: SBody, b: Option<BodyId>, f: FrameId)
    requires ValidArena(t) && f < |t| && sb.hasParent && (sb.kind == Star || sb.kind == Gravpoint)
    ensures GrowsBy(t, sb, f, MakeFrames(t, sb, b, f).frames)
  {
    SingleFrameShape(t, sb, b, f);
  }

  lemma PlanetGrowsBy(t: Arena, sb: SBody, b: Option<BodyId>, f: FrameId)
    requires ValidArena(t) && f < |t| && sb.hasParent && IsPlanet(sb.kind)
    ensures GrowsBy(t, sb, f, MakeFrames(t, sb, b, f).frames)
  {
    PlanetMade(t, sb, b, f);
    PlanetExtends(t, sb, b, f);
    PlanetCarries(t, sb, b, f);
    PairGrowsBy(t, sb, f, PlanetFrames(t, sb, b, f).frames);
  }

  lemma PlanetExtends(t: Arena, sb: SBody, b: Option<BodyId>, f: FrameId)
    requires ValidArena(t) && f < |t|
    ensures Extends(t, PlanetFrames(t, sb, b, f).frames, |t|)
  {
    FramePairExtends(t, f, sb, PlanetOrbitRadius(sb), b, PlanetSpinRadius(sb));
  }

  lemma PlanetCarries(t: Arena, sb: SBody, b: Option<BodyId>, f: FrameId)
    requires ValidArena(t) && f < |t|
    ensures Carried(PlanetFrames(t, sb, b, f).frames) == Carried(t) + {sb.id}
  {
    FramePairCarried(t, f, sb, PlanetOrbitRadius(sb), b, PlanetSpinRadius(sb));
  }

  lemma PairGrowsBy(t: Arena, sb: SBody, f: FrameId, u: Arena)
    requires sb.hasParent && sb.kind != StarportSurface
    requires Extends(t, u, |t|) && Carried(u) == Carried(t) + {sb.id}
    ensures GrowsBy(t, sb, f, u)
  {
  }

  lemma OrbitalGrowsBy(t: Arena, sb: SBody, b: Option<BodyId>, f: FrameId)
    requires ValidArena(t) && f < |t| && sb.hasParent && sb.kind == StarportOrbital
    ensures GrowsBy(t, sb, f, MakeFrames(t, sb, b, f).frames)
  {
    OrbitalStarportShape(t, sb, b, f);
  }

  lemma SurfaceGrowsBy(t: Arena, sb: SBody, b: Option<BodyId>, f: FrameId)
    requires ValidArena(t) && f < |t| && sb.hasParent && sb.kind == StarportSurface
    requires t[f].children != []
    ensures GrowsBy(t, sb, f, MakeFrames(t, sb, b, f).frames)
  {
    SurfaceStarportShape(t, sb, b, f);
    assert Own(sb) == {};
  }

  /** What every call of `MakeFrameFor` does to the tree: it only grows it
      (a root descriptor may retag the frame it is given), the descriptor
      ends up carried by a frame unless it is a surface starport below the
      root, and no other descriptor is added. */
  lemma MakeFramesGrows(t: Arena, sb: SBody, b: Option<BodyId>, f: FrameId)
    requires ValidArena(t) && f < |t|
    requires sb.kind == StarportSurface && sb.hasParent ==> t[f].children != []
    ensures GrowsBy(t, sb, f, MakeFrames(t, sb, b, f).frames)
  {
    if !sb.hasParent {
      RootGrowsBy(t, sb, b, f);
    } else if sb.kind == Gravpoint || sb.kind == Star {
      SingleFrameGrowsBy(t, sb, b, f);
    } else if IsPlanet(sb.kind) {
      PlanetGrowsBy(t, sb, b, f);
    } else if sb.kind == StarportOrbital {
      OrbitalGrowsBy(t, sb, b, f);
    } else {
      SurfaceGrowsBy(t, sb, b, f);
    }
  }
}
