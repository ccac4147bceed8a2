/** `namespace Space`: the global state of the simulation and the operations
    on it. The globals become the fields of one `Space` object; every
    operation is a method proved to move the registry part of that state
    exactly as the functions of `Registry` say, so the lemmas proved there
    are about these methods too. */
module Space {
  import opened Common
  import opened Frames
  import opened Bodies
  import opened Registry
  import opened Systems
  import opened Shapes
  import opened Migration

  /** One `OnDamage(attacker, amount)` call made by `RadiusDamage`. */
  datatype Hit = Hit(victim: BodyId, attacker: BodyId, amount: real)

  /** The variant of body `GenBody` makes for a descriptor. */
  function BodyKindFor(k: SBodyType): BodyKind
  {
    if k == Star then StarBody
    else if k == StarportOrbital || k == StarportSurface then SpaceStationBody
    else PlanetBody
  }

  /** The damage a body `dist` away from the centre of a blast of radius
      `radius` takes: `kgDamage`, decaying linearly to zero at the radius. */
  function Falloff(kgDamage: real, radius: real, dist: real): real
    requires dist < radius && 0.0 <= dist
  {
    kgDamage * (radius - dist) / radius
  }

  /** The calls `RadiusDamage` makes, in list order: one to every listed body
      in frame `f` that is nearer than `radius` to `pos`. `length` is the
      length of a vector. */
  function DamageCalls(bs: seq<BodyId>, objects: map<BodyId, Body>, attacker: BodyId, f: FrameId,
                       pos: Vec3, radius: real, kgDamage: real, length: Vec3 -> real): seq<Hit>
    requires forall x :: x in bs ==> x in objects
    requires forall v :: 0.0 <= length(v)
    decreases |bs|
  {
    if bs == [] then []
    else
      var n := |bs| - 1;
      var prev := DamageCalls(bs[..n], objects, attacker, f, pos, radius, kgDamage, length);
      var b := objects[bs[n]];
      if b.frame != Some(f) then prev
      else
        var dist := length(Sub(b.pos, pos));
        if dist < radius then prev + [Hit(bs[n], attacker, Falloff(kgDamage, radius, dist))] else prev
  }

  /** Every damage call goes to a listed body in frame `f` nearer than
      `radius`, from `attacker`, with the linear falloff of its distance. */
  lemma {:induction false} DamageOnlyInRange(bs: seq<BodyId>, objects: map<BodyId, Body>, attacker: BodyId,
                                              f: FrameId, pos: Vec3, radius: real, kgDamage: real,
                                              length: Vec3 -> real)
    requires forall x :: x in bs ==> x in objects
    requires forall v :: 0.0 <= length(v)
    ensures forall h :: h in DamageCalls(bs, objects, attacker, f, pos, radius, kgDamage, length) ==>
      && h.victim in bs && h.attacker == attacker
      && objects[h.victim].frame == Some(f)
      && length(Sub(objects[h.victim].pos, pos)) < radius
      && h.amount == Falloff(kgDamage, radius, length(Sub(objects[h.victim].pos, pos)))
    decreases |bs|
  {
    if bs != [] {
      var n := |bs| - 1;
      DamageOnlyInRange(bs[..n], objects, attacker, f, pos, radius, kgDamage, length);
      assert forall x :: x in bs[..n] ==> x in bs;
    }
  }

  /** Every listed body in frame `f` nearer than `radius` is damaged, once per
      entry in the list. */
  lemma {:induction false} DamageReachesAll(bs: seq<BodyId>, objects: map<BodyId, Body>, attacker: BodyId,
                                             f: FrameId, pos: Vec3, radius: real, kgDamage: real,
                                             length: Vec3 -> real, k: nat)
    requires forall x :: x in bs ==> x in objects
    requires forall v :: 0.0 <= length(v)
    requires k < |bs| && objects[bs[k]].frame == Some(f) && length(Sub(objects[bs[k]].pos, pos)) < radius
    ensures Hit(bs[k], attacker, Falloff(kgDamage, radius, length(Sub(objects[bs[k]].pos, pos))))
            in DamageCalls(bs, objects, attacker, f, pos, radius, kgDamage, length)
    decreases |bs|
  {
    var n := |bs| - 1;
    if k < n {
      assert bs[..n][k] == bs[k];
      DamageReachesAll(bs[..n], objects, attacker, f, pos, radius, kgDamage, length, k);
    }
  }

  /** One more body through the loop of `RadiusDamage`. */
  lemma DamageStep(bs: seq<BodyId>, objects: map<BodyId, Body>, attacker: BodyId, f: FrameId,
                   pos: Vec3, radius: real, kgDamage: real, length: Vec3 -> real, i: nat)
    requires forall x :: x in bs ==> x in objects
    requires forall v :: 0.0 <= length(v)
    requires i < |bs|
    ensures forall x :: x in bs[..i] ==> x in objects
    ensures forall x :: x in bs[..i + 1] ==> x in objects
    ensures var prev := DamageCalls(bs[..i], objects, attacker, f, pos, radius, kgDamage, length);
      var b := objects[bs[i]];
      var dist := length(Sub(b.pos, pos));
      DamageCalls(bs[..i + 1], objects, attacker, f, pos, radius, kgDamage, length) ==
        if b.frame == Some(f) && dist < radius then prev + [Hit(bs[i], attacker, Falloff(kgDamage, radius, dist))]
        else prev
  {
    assert bs[..i + 1][..i] == bs[..i];
    assert forall x :: x in bs[..i + 1] ==> x in bs;
  }

  /** The falloff is positive and at most the full damage for a positive
      `kgDamage`, and never grows with distance. */
  lemma FalloffBounds(kgDamage: real, radius: real, d1: real, d2: real)
    requires 0.0 <= d1 <= d2 < radius && 0.0 < kgDamage
    ensures 0.0 < Falloff(kgDamage, radius, d2) <= Falloff(kgDamage, radius, d1) <= kgDamage
    ensures d1 == 0.0 ==> Falloff(kgDamage, radius, d1) == kgDamage
  {
    var q1 := (radius - d1) / radius;
    var q2 := (radius - d2) / radius;
    assert 0.0 < q2 <= q1 <= 1.0;
    assert Falloff(kgDamage, radius, d1) == kgDamage * q1;
    assert Falloff(kgDamage, radius, d2) == kgDamage * q2;
    MulMonotone(kgDamage, q2, q1);
    MulMonotone(kgDamage, q1, 1.0);
  }

  lemma MulMonotone(k: real, a: real, b: real)
    requires 0.0 < k && 0.0 < a <= b
    ensures 0.0 < k * a <= k * b
  {
  }

  /** The state after the outer loop of `PruneCorpses` has handled the
      first `k` corpses (the corpse list itself is emptied at the end). */
  function PrunedTo(w: World, k: nat): World
    requires k <= |w.corpses|
  {
    var cs := w.corpses[..k];
    w.(bodies := Survivors(w.bodies, cs),
       notices := w.notices + DeathNotices(w.bodies, cs),
       objects := w.objects - ElementsOf(cs),
       dead := w.dead - ElementsOf(cs))
  }

  /** One corpse pruned from `p`: it is told about to every body of the
      list, then dropped from the list, the objects and the dead. */
  function PruneCorpse(p: World, c: BodyId): World
  {
    p.(bodies := Keep(p.bodies, {c}),
       notices := p.notices + Broadcast(p.bodies, c),
       objects := p.objects - {c},
       dead := p.dead - {c})
  }

  /** One more corpse through the outer loop of `PruneCorpses`. */
  lemma PruneStep(w: World, k: nat)
    requires k < |w.corpses|
    ensures PrunedTo(w, k + 1) == PruneCorpse(PrunedTo(w, k), w.corpses[k])
  {
    PruneStepLists(w, k);
    PruneStepSets(w, k);
  }

  lemma PruneStepLists(w: World, k: nat)
    requires k < |w.corpses|
    ensures PrunedTo(w, k + 1).bodies == PruneCorpse(PrunedTo(w, k), w.corpses[k]).bodies
    ensures PrunedTo(w, k + 1).notices == PruneCorpse(PrunedTo(w, k), w.corpses[k]).notices
  {
    var bs, cs := w.bodies, w.corpses;
    PrefixStep(bs, cs, k);
    ConcatAssoc(w.notices, DeathNotices(bs, cs[..k]), Broadcast(Survivors(bs, cs[..k]), cs[k]));
  }

  lemma ConcatAssoc(a: seq<Notice>, b: seq<Notice>, c: seq<Notice>)
    ensures a + (b + c) == (a + b) + c
  {
  }

  lemma PruneStepSets(w: World, k: nat)
    requires k < |w.corpses|
    ensures PrunedTo(w, k + 1).objects == PruneCorpse(PrunedTo(w, k), w.corpses[k]).objects
    ensures PrunedTo(w, k + 1).dead == PruneCorpse(PrunedTo(w, k), w.corpses[k]).dead
  {
    var cs := w.corpses;
    PrefixStep(w.bodies, cs, k);
    MapMinusMinus(w.objects, ElementsOf(cs[..k]), {cs[k]});
    SetMinusMinus(w.dead, ElementsOf(cs[..k]), {cs[k]});
  }

  lemma MapMinusMinus(m: map<BodyId, Body>, a: set<BodyId>, b: set<BodyId>)
    ensures m - (a + b) == (m - a) - b
  {
    assert (m - (a + b)).Keys == ((m - a) - b).Keys;
  }

  lemma SetMinusMinus(s: set<BodyId>, a: set<BodyId>, b: set<BodyId>)
    ensures s - (a + b) == (s - a) - b
  {
  }

  /** The list, notices and removed set for one more corpse of `cs`. */
  lemma PrefixStep(bs: seq<BodyId>, cs: seq<BodyId>, k: nat)
    requires k < |cs|
    ensures Survivors(bs, cs[..k + 1]) == Keep(Survivors(bs, cs[..k]), {cs[k]})
    ensures DeathNotices(bs, cs[..k + 1]) == DeathNotices(bs, cs[..k]) + Broadcast(Survivors(bs, cs[..k]), cs[k])
    ensures ElementsOf(cs[..k + 1]) == ElementsOf(cs[..k]) + {cs[k]}
  {
    assert cs[..k + 1][..k] == cs[..k];
    assert cs[..k + 1] == cs[..k] + [cs[k]];
  }

  lemma PrunedNone(w: World)
    ensures PrunedTo(w, 0) == w
  {
    assert w.corpses[..0] == [];
  }

  /** Handling every corpse and emptying the list is `Prune`. */
  lemma PrunedAll(w: World)
    ensures PrunedTo(w, |w.corpses|).(corpses := []) == Prune(w)
  {
    assert w.corpses[..|w.corpses|] == w.corpses;
  }

  /** One more body through the first loop of `Clear`. */
  lemma ClearStep(w: World, i: nat)
    requires Valid(w) && i < |w.bodies|
    ensures forall x :: x in w.bodies[..i + 1] ==> x in w.objects
    ensures Valid(ClearLoop(w, w.bodies[..i])) && w.bodies[i] in ClearLoop(w, w.bodies[..i]).objects
    ensures var u := Unframe(ClearLoop(w, w.bodies[..i]), w.bodies[i]);
      ClearLoop(w, w.bodies[..i + 1]) == if w.bodies[i] != w.player then Kill(u, w.bodies[i]) else u
  {
    ListedLive(w, i + 1);
    ListedLive(w, i);
    assert w.bodies[..i + 1][..i] == w.bodies[..i];
    ClearLoopValid(w, w.bodies[..i]);
  }

  lemma ListedLive(w: World, i: nat)
    requires Valid(w) && i <= |w.bodies|
    ensures forall x :: x in w.bodies[..i] ==> x in w.objects
  {
    forall x | x in w.bodies[..i] ensures x in w.objects {
      assert Placeable(w, x);
    }
  }

  /** The frame handed to a surface starport is ready for it: its first
      child names a live planet as its body (what `MakeFrameFor` asserts). */
  predicate SurfaceReady(t: Arena, objects: map<BodyId, Body>, f: FrameId)
  {
    && f < |t| && t[f].children != [] && t[f].children[0] < |t|
    && var rot := t[t[f].children[0]];
    && rot.astroBody.Some? && rot.astroBody.value in objects
    && objects[rot.astroBody.value].kind == PlanetBody
  }

  /** Growing the tree without retagging old frames and adding objects
      without touching old ones keeps a frame ready. */
  lemma SurfaceReadyKept(t: Arena, u: Arena, o: map<BodyId, Body>, o2: map<BodyId, Body>, f: FrameId)
    requires SurfaceReady(t, o, f) && Extends(t, u, |t|)
    requires forall x :: x in o ==> x in o2 && o2[x] == o[x]
    ensures SurfaceReady(u, o2, f)
  {
    var kid := t[f].children[0];
    assert u[f].children[..|t[f].children|] == t[f].children;
    assert u[f].children[0] == kid;
  }

  /** Adding an object does not change a ready frame. */
  lemma ReadyAfterNewBody(t: Arena, o: map<BodyId, Body>, o2: map<BodyId, Body>, f: FrameId)
    requires SurfaceReady(t, o, f)
    requires forall x :: x in o ==> x in o2 && o2[x] == o[x]
    ensures SurfaceReady(t, o2, f)
  {
  }

  /** A planet's non-rotating frame, just built, is ready for the surface
      starports among its children. */
  lemma PlanetReady(t: Arena, o: map<BodyId, Body>, sb: SBody, b: Option<BodyId>, f: FrameId, surfacePos: Vec3)
    requires ValidArena(t) && f < |t| && sb.hasParent && IsPlanet(sb.kind)
    requires b.Some? && b.value in o && o[b.value].kind == BodyKindFor(sb.kind)
    ensures var m := MakeFrames(t, sb, b, f);
      m.next == |t| && SurfaceReady(m.frames, Settle(o, b, m.home, SurfacePlace(sb, surfacePos)), m.next)
  {
    PlanetShape(t, sb, b, f);
  }

  /** How many bodies `GenBody` makes for a tree of descriptors: one for
      every descriptor but a gravpoint. */
  function BodyCount(sb: SBody): nat
  {
    (if sb.kind == Gravpoint then 0 else 1) + BodyCountOf(sb.children)
  }

  function BodyCountOf(cs: seq<SBody>): nat
  {
    if cs == [] then 0 else BodyCountOf(cs[..|cs| - 1]) + BodyCount(cs[|cs| - 1])
  }

  lemma BodyCountOfStep(cs: seq<SBody>, i: nat)
    requires i < |cs|
    ensures BodyCountOf(cs[..i + 1]) == BodyCountOf(cs[..i]) + BodyCount(cs[i])
  {
    assert cs[..i + 1][..i] == cs[..i];
  }

  /** What `MakeFrameFor` does to the body it is given: it is put in the
      frame `home`, if there is one, and a surface starport is also moved
      to its place on the planet. */
  function Settle(objects: map<BodyId, Body>, b: Option<BodyId>, home: Option<FrameId>, pos: Option<Vec3>)
    : (r: map<BodyId, Body>)
    requires b.Some? ==> b.value in objects
    ensures r.Keys == objects.Keys
    ensures forall x :: x in objects && (b.None? || x != b.value) ==> r[x] == objects[x]
  {
    if b.None? || home.None? then objects
    else
      var o := objects[b.value];
      objects[b.value := o.(frame := home, pos := if pos.Some? then pos.value else o.pos)]
  }

  /** The place a descriptor's body is moved to besides its frame: only a
      surface starport below the root has one. */
  function SurfacePlace(sb: SBody, surfacePos: Vec3): Option<Vec3>
  {
    if sb.hasParent && sb.kind == StarportSurface then Some(surfacePos) else None
  }

  /** Growing the tree and settling a live body in one of its frames keeps
      the registry valid. */
  lemma SettleValid(w: World, u: Arena, b: Option<BodyId>, home: Option<FrameId>, pos: Option<Vec3>)
    requires Valid(w) && ValidArena(u) && |w.frames| <= |u|
    requires b.Some? ==> b.value in w.objects
    requires home.Some? ==> home.value < |u|
    ensures Valid(w.(frames := u, objects := Settle(w.objects, b, home, pos)))
  {
    var r := w.(frames := u, objects := Settle(w.objects, b, home, pos));
    forall x | x in w.objects && Placeable(w, x) ensures Placeable(r, x) {
    }
  }

  /** From `w0` (next fresh handle `n0`) to `w1` (next handle `n1`) the
      registry only grew: the tree was extended (frame `e` may have been
      retagged), no existing object changed, new objects have fresh handles,
      new bodies were listed at the end, and nothing else changed. */
  predicate Grown(w0: World, n0: nat, w1: World, n1: nat, e: FrameId)
  {
    && Extends(w0.frames, w1.frames, e)
    && (forall x :: x in w0.objects ==> x in w1.objects && w1.objects[x] == w0.objects[x])
    && (forall x :: x in w1.objects && x !in w0.objects ==> n0 <= x)
    && |w0.bodies| <= |w1.bodies| && w1.bodies[..|w0.bodies|] == w0.bodies
    && (forall k :: |w0.bodies| <= k < |w1.bodies| ==> w1.bodies[k] !in w0.objects)
    && w1.player == w0.player && w1.corpses == w0.corpses && w1.dead == w0.dead
    && w1.notices == w0.notices && n0 <= n1
  }

  lemma GrownTrans(w0: World, n0: nat, w1: World, n1: nat, w2: World, n2: nat, e1: FrameId, e2: FrameId)
    requires Grown(w0, n0, w1, n1, e1) && Grown(w1, n1, w2, n2, e2)
    requires e2 == e1 || |w0.frames| <= e2
    ensures Grown(w0, n0, w2, n2, e1)
  {
    ExtendsTrans(w0.frames, w1.frames, w2.frames, e1, e2);
    assert w2.bodies[..|w0.bodies|] == w2.bodies[..|w1.bodies|][..|w0.bodies|];
    forall k | |w0.bodies| <= k < |w2.bodies| ensures w2.bodies[k] !in w0.objects {
      if k < |w1.bodies| {
        assert w2.bodies[k] == w1.bodies[k];
      }
    }
  }

  /** What `GenBody(sb, f)` promises: the registry only grew (the frame `f`
      is retagged only by a root descriptor), every descriptor of the tree
      but a surface starport below the root is now carried by a frame and
      no other descriptor was added (old ones stay unless the root retagged
      `f`), and one body was listed per descriptor that is not a gravpoint. */
  predicate GenPost(w0: World, n0: nat, w1: World, n1: nat, sb: SBody, f: FrameId)
  {
    && Grown(w0, n0, w1, n1, if sb.hasParent then |w0.frames| else f)
    && Carried(w1.frames) <= Carried(w0.frames) + FramedIds(sb)
    && FramedIds(sb) <= Carried(w1.frames)
    && (sb.hasParent ==> Carried(w0.frames) <= Carried(w1.frames))
    && |w1.bodies| == |w0.bodies| + BodyCount(sb)
  }

  /** The invariant of the child loop of `GenBody` after `i` children. */
  predicate GenLoop(w0: World, n0: nat, w1: World, n1: nat, sb: SBody, f: FrameId, i: nat)
  {
    && i <= |sb.children|
    && Grown(w0, n0, w1, n1, if sb.hasParent then |w0.frames| else f)
    && Carried(w1.frames) <= Carried(w0.frames) + Own(sb) + FramedIdsOf(sb.children[..i])
    && Own(sb) + FramedIdsOf(sb.children[..i]) <= Carried(w1.frames)
    && (sb.hasParent ==> Carried(w0.frames) <= Carried(w1.frames))
    && |w1.bodies| == |w0.bodies| + (if sb.kind == Gravpoint then 0 else 1) + BodyCountOf(sb.children[..i])
  }

  /** One more child built keeps the loop invariant. */
  lemma GenLoopStep(w0: World, n0: nat, wi: World, ni: nat, w2: World, n2: nat, sb: SBody, f: FrameId,
                    i: nat, next: FrameId)
    requires GenLoop(w0, n0, wi, ni, sb, f, i) && i < |sb.children|
    requires GenPost(wi, ni, w2, n2, sb.children[i], next) && sb.children[i].hasParent
    ensures GenLoop(w0, n0, w2, n2, sb, f, i + 1)
  {
    GrownTrans(w0, n0, wi, ni, w2, n2, if sb.hasParent then |w0.frames| else f, |wi.frames|);
    FramedIdsOfStep(sb.children, i);
    BodyCountOfStep(sb.children, i);
  }

  /** All children built: the loop invariant is the promise of `GenBody`. */
  lemma GenLoopDone(w0: World, n0: nat, w1: World, n1: nat, sb: SBody, f: FrameId)
    requires GenLoop(w0, n0, w1, n1, sb, f, |sb.children|)
    ensures GenPost(w0, n0, w1, n1, sb, f)
  {
    assert sb.children[..|sb.children|] == sb.children;
  }

  /** Growing keeps a frame ready for a surface starport. */
  lemma GrownKeepsReady(w0: World, n0: nat, w1: World, n1: nat, f: FrameId)
    requires Grown(w0, n0, w1, n1, |w0.frames|) && SurfaceReady(w0.frames, w0.objects, f)
    ensures SurfaceReady(w1.frames, w1.objects, f)
  {
    SurfaceReadyKept(w0.frames, w1.frames, w0.objects, w1.objects, f);
  }

  /** The descriptor's own body made, listed and settled, and its frames
      built: the registry grew, by that one body unless the descriptor is a
      gravpoint, and by that descriptor among those carried. */
  lemma MakeOwnGrown(w0: World, n0: nat, wa: World, na: nat, w1: World, n1: nat, sb: SBody,
                     b: Option<BodyId>, f: FrameId, surfacePos: Vec3)
    requires Valid(w0) && f < |w0.frames| && (forall x :: x in w0.objects ==> x < n0)
    requires sb.kind == Gravpoint ==> b.None? && wa == w0 && na == n0
    requires sb.kind != Gravpoint ==>
      && b == Some(n0) && na == n0 + 1
      && wa == w0.(objects := w0.objects[n0 := Body(BodyKindFor(sb.kind), sb.name, None, Zero, Zero)],
                   bodies := w0.bodies + [n0])
    requires sb.hasParent && sb.kind == StarportSurface ==> w0.frames[f].children != []
    requires var m := MakeFrames(w0.frames, sb, b, f);
      w1 == wa.(frames := m.frames, objects := Settle(wa.objects, b, m.home, SurfacePlace(sb, surfacePos)))
      && n1 == na
    ensures GenLoop(w0, n0, w1, n1, sb, f, 0)
  {
    var m := MakeFrames(w0.frames, sb, b, f);
    MakeFramesGrows(w0.frames, sb, b, f);
    OwnBodyGrown(w0, n0, wa, na, w1, n1, sb, b, m.frames, m.home, SurfacePlace(sb, surfacePos),
                 if sb.hasParent then |w0.frames| else f);
    assert sb.children[..0] == [];
  }

  /** The body made for a descriptor, listed and settled in a grown tree:
      the registry grew by that one body, none for a gravpoint. */
  lemma OwnBodyGrown(w0: World, n0: nat, wa: World, na: nat, w1: World, n1: nat, sb: SBody,
                     b: Option<BodyId>, u: Arena, home: Option<FrameId>, pos: Option<Vec3>, e: FrameId)
    requires forall x :: x in w0.objects ==> x < n0
    requires sb.kind == Gravpoint ==> b.None? && wa == w0 && na == n0
    requires sb.kind != Gravpoint ==>
      && b == Some(n0) && na == n0 + 1
      && wa == w0.(objects := w0.objects[n0 := Body(BodyKindFor(sb.kind), sb.name, None, Zero, Zero)],
                   bodies := w0.bodies + [n0])
    requires Extends(w0.frames, u, e)
    requires w1 == wa.(frames := u, objects := Settle(wa.objects, b, home, pos)) && n1 == na
    ensures Grown(w0, n0, w1, n1, e)
    ensures |w1.bodies| == |w0.bodies| + (if sb.kind == Gravpoint then 0 else 1)
  {
    if sb.kind != Gravpoint {
      assert w1.bodies[..|w0.bodies|] == w0.bodies;
    }
  }

  /** After `Clear` no frame carries a descriptor. */
  lemma ClearedCarriesNothing(w: World)
    requires Valid(w)
    ensures Carried(ClearAll(w).frames) == {}
  {
    ClearResetsFrames(w);
    var t := ClearAll(w).frames;
    assert |t| == 1 && t[0].sbody == None;
  }

  /** `GetFrameWithSBody` finds a frame for a descriptor exactly when some
      frame carries it. */
  lemma FoundIffCarried(t: Arena, id: SBodyId)
    requires ValidArena(t)
    ensures FindFrameWithSBody(t, Root, Some(id)).Some? <==> id in Carried(t)
  {
    GetFrameWithSBodyComplete(t, Some(id));
    if id in Carried(t) {
      var g :| 0 <= g < |t| && t[g].sbody.Some? && t[g].sbody.value == id;
      assert t[g].sbody == Some(id);
    }
  }

  /** After growing from a registry listing at most the player, every
      listed body is the player or new. */
  lemma OnlyNewBodies(w0: World, n0: nat, w1: World, n1: nat, e: FrameId)
    requires Grown(w0, n0, w1, n1, e) && Valid(w1)
    requires forall x :: x in w0.bodies ==> x == w0.player
    ensures forall x :: x in w1.bodies ==> x == w1.player || n0 <= x
  {
    forall x | x in w1.bodies ensures x == w1.player || n0 <= x {
      var k :| 0 <= k < |w1.bodies| && w1.bodies[k] == x;
      if k < |w0.bodies| {
        assert w1.bodies[..|w0.bodies|][k] == x;
        assert w0.bodies[k] == x && x in w0.bodies;
      } else {
        assert Placeable(w1, x) && x !in w0.objects;
      }
    }
  }

  /** Growing only appends new bodies to the list, so the player is listed
      afterwards exactly when it was before. */
  lemma PlayerStaysListed(w0: World, n0: nat, w1: World, n1: nat, e: FrameId)
    requires Grown(w0, n0, w1, n1, e) && w0.player in w0.objects
    ensures w1.player in w1.bodies <==> w0.player in w0.bodies
  {
    if w0.player in w0.bodies {
      var k :| 0 <= k < |w0.bodies| && w0.bodies[k] == w0.player;
      assert w1.bodies[..|w0.bodies|][k] == w1.bodies[k];
    }
    if w1.player in w1.bodies {
      var k :| 0 <= k < |w1.bodies| && w1.bodies[k] == w1.player;
      if k < |w0.bodies| {
        assert w1.bodies[..|w0.bodies|][k] == w0.bodies[k];
      }
    }
  }

  /** A system built into an empty tree carries exactly its framed
      descriptors. */
  lemma BuiltCarries(w0: World, n0: nat, w1: World, n1: nat, system: SBody)
    requires GenPost(w0, n0, w1, n1, system, Root) && Carried(w0.frames) == {}
    ensures Carried(w1.frames) == FramedIds(system)
  {
  }

  /** Migrating the bodies keeps the registry valid: a migrated body stays
      in a frame of the tree and nothing else changes. */
  lemma MigrateValid(w: World, g: Geometry, mayMove: BodyId -> bool)
    requires Valid(w) && Placed(w.frames, mayMove, w.bodies, w.objects)
    ensures Valid(w.(objects := MigrateAll(w.frames, g, mayMove, w.bodies, w.objects)))
  {
    var r := w.(objects := MigrateAll(w.frames, g, mayMove, w.bodies, w.objects));
    forall x | x in w.objects && Placeable(w, x) ensures Placeable(r, x) {
      if x in w.bodies && mayMove(x) {
        var k :| 0 <= k < |w.bodies| && w.bodies[k] == x;
        assert Located(w.frames, w.objects[x]);
      }
    }
  }

  /** The simulation's global state. `objects` holds every live `Body`
      object, `notices` the `NotifyDeath` calls made so far, `nextId` the
      next fresh body handle. `hyperspacingTo`, `hyperspaceAnim` are the
      pending jump and its progress; `playerEnabled` stands for the player's
      `Enable`/`DisableBodyOnly` state and `currentSystem` for
      `Pi::currentSystem`. */
  class Space {
    const player: BodyId
    var bodies: seq<BodyId>
    var corpses: seq<BodyId>
    var dead: set<BodyId>
    var objects: map<BodyId, Body>
    var frames: Arena
    var notices: seq<Notice>
    var hyperspacingTo: Option<SBodyPath>
    var hyperspaceAnim: real
    var playerEnabled: bool
    var currentSystem: Option<SystemPath>
    var nextId: nat

    /** The registry part of the state. */
    function State(): World
      reads this`bodies, this`corpses, this`dead, this`objects, this`frames, this`notices
    {
      World(player, bodies, corpses, dead, objects, frames, notices)
    }

    /** The hyperspace part of the state. */
    function Journey(): (Option<SBodyPath>, real, bool, Option<SystemPath>)
      reads this`hyperspacingTo, this`hyperspaceAnim, this`playerEnabled, this`currentSystem
    {
      (hyperspacingTo, hyperspaceAnim, playerEnabled, currentSystem)
    }

    predicate Valid()
      reads this`bodies, this`corpses, this`dead, this`objects, this`frames, this`notices, this`nextId
    {
      && Registry.Valid(State())
      && (forall x :: x in objects ==> x < nextId)
    }

    /** `Init`, with the player object already made. */
    constructor Init(p: BodyId, pb: Body)
      requires pb.frame.None?
      ensures Valid() && State() == Initial(p, pb)
      ensures Journey() == (None, 0.0, true, None)
    {
      player := p;
      bodies := [];
      corpses := [];
      dead := {};
      objects := map[p := pb];
      frames := [RootFrame];
      notices := [];
      hyperspacingTo := None;
      hyperspaceAnim := 0.0;
      playerEnabled := true;
      currentSystem := None;
      nextId := p + 1;
    }

    /** `new Star(sbody)`, `new Planet(sbody)`, `new SpaceStation(sbody)`
        with its label set and its position at the origin, not yet listed. */
    method NewBody(kind: BodyKind, name: string) returns (b: BodyId)
      requires Valid()
      modifies this
      ensures Valid()
      ensures b == old(nextId) && nextId == b + 1 && b !in old(objects)
      ensures objects == old(objects)[b := Body(kind, name, None, Zero, Zero)]
      ensures bodies == old(bodies) && corpses == old(corpses) && dead == old(dead)
      ensures frames == old(frames) && notices == old(notices) && Journey() == old(Journey())
    {
      b := nextId;
      objects := objects[b := Body(kind, name, None, Zero, Zero)];
      nextId := nextId + 1;
    }

    method AddBody(b: BodyId)
      requires Valid() && Placeable(State(), b)
      modifies this
      ensures Valid() && State() == Registry.Add(old(State()), b)
      ensures Journey() == old(Journey()) && nextId == old(nextId)
    {
      AddValid(State(), b);
      bodies := bodies + [b];
    }

    method RemoveBody(b: BodyId)
      requires Valid() && b in objects
      modifies this
      ensures Valid() && State() == Remove(old(State()), b)
      ensures Journey() == old(Journey()) && nextId == old(nextId)
    {
      RemoveProperties(State(), b);
      objects := objects[b := objects[b].(frame := None)];
      bodies := Keep(bodies, {b});
    }

    method KillBody(b: BodyId)
      requires Valid() && b in objects
      modifies this
      ensures Valid() && State() == Kill(old(State()), b)
      ensures Journey() == old(Journey()) && nextId == old(nextId)
    {
      KillValid(State(), b);
      if b !in dead {
        dead := dead + {b};
        if b != player {
          corpses := corpses + [b];
        }
      }
    }

    /** The inner loop of `PruneCorpses`: `NotifyDeath(c)` to every listed
        body, in list order. */
    method NotifyAll(c: BodyId)
      modifies this
      ensures notices == old(notices) + Broadcast(bodies, c)
      ensures bodies == old(bodies) && corpses == old(corpses) && dead == old(dead)
      ensures objects == old(objects) && frames == old(frames)
      ensures Journey() == old(Journey()) && nextId == old(nextId)
    {
      var i := 0;
      while i < |bodies|
        invariant 0 <= i <= |bodies|
        invariant notices == old(notices) + Broadcast(bodies[..i], c)
        invariant bodies == old(bodies) && corpses == old(corpses) && dead == old(dead)
        invariant objects == old(objects) && frames == old(frames)
        invariant Journey() == old(Journey()) && nextId == old(nextId)
      {
        notices := notices + [Notice(bodies[i], c)];
        i := i + 1;
        assert Broadcast(bodies[..i], c) == Broadcast(bodies[..i - 1], c) + [Notice(bodies[i - 1], c)];
      }
      assert bodies[..i] == bodies;
    }

    /** One pass of the outer loop of `PruneCorpses`. */
    method PruneOne(ghost w: World, k: nat)
      requires k < |w.corpses| && State() == PrunedTo(w, k)
      requires forall x :: x in objects ==> x < nextId
      modifies this
      ensures State() == PrunedTo(w, k + 1)
      ensures forall x :: x in objects ==> x < nextId
      ensures Journey() == old(Journey()) && nextId == old(nextId)
    {
      var c := corpses[k];
      PruneStep(w, k);
      ghost var p := State();
      NotifyAll(c);
      bodies := Keep(bodies, {c});
      objects := objects - {c};
      dead := dead - {c};
    }

    method PruneCorpses()
      requires Valid()
      modifies this
      ensures Valid() && State() == Prune(old(State()))
      ensures Journey() == old(Journey()) && nextId == old(nextId)
    {
      ghost var w := State();
      PrunedNone(w);
      var k, n := 0, |corpses|;
      while k < n
        invariant n == |w.corpses| && 0 <= k <= n && State() == PrunedTo(w, k)
        invariant forall x :: x in objects ==> x < nextId
        invariant Journey() == old(Journey()) && nextId == old(nextId)
      {
        PruneOne(w, k);
        k := k + 1;
      }
      ForgetCorpses(w);
    }

    /** The end of `PruneCorpses`: every corpse has been handled, so the
        list is emptied. */
    method ForgetCorpses(ghost w: World)
      requires Registry.Valid(w) && State() == PrunedTo(w, |w.corpses|)
      requires forall x :: x in objects ==> x < nextId
      modifies this`corpses
      ensures Valid() && State() == Prune(w)
    {
      PrunedAll(w);
      PruneKeepsValid(w);
      corpses := [];
    }

    method Clear()
      requires Valid()
      modifies this
      ensures Valid() && State() == ClearAll(old(State()))
      ensures Journey() == old(Journey()) && nextId == old(nextId)
    {
      ghost var w := State();
      ClearValid(w);
      ClearEmptiesList(w);
      UnframeAndKill();
      PruneCorpses();
      ResetToRoot();
    }

    /** The first loop of `Clear`: every listed body loses its frame and,
        unless it is the player, is killed. */
    method UnframeAndKill()
      requires Valid()
      modifies this
      ensures forall x :: x in old(bodies) ==> x in old(objects)
      ensures Valid() && State() == ClearLoop(old(State()), old(bodies))
      ensures Journey() == old(Journey()) && nextId == old(nextId)
    {
      ghost var w := State();
      var i := 0;
      while i < |bodies|
        invariant 0 <= i <= |bodies| && bodies == w.bodies
        invariant forall x :: x in w.bodies[..i] ==> x in w.objects
        invariant State() == ClearLoop(w, w.bodies[..i])
        invariant Valid()
        invariant Journey() == old(Journey()) && nextId == old(nextId)
      {
        ClearOne(w, i);
        i := i + 1;
      }
      assert w.bodies[..i] == w.bodies;
    }

    /** The end of `Clear`: the player goes into the root frame and the tree
        is cut back to its root. */
    method ResetToRoot()
      requires Valid() && corpses == [] && forall x :: x in bodies ==> x == player
      modifies this
      ensures Valid() && State() == Reset(old(State()), old(frames[Root]))
      ensures Journey() == old(Journey()) && nextId == old(nextId)
    {
      ResetValid(State(), frames[Root]);
      objects := objects[player := objects[player].(frame := Some(Root))];
      frames := [frames[Root].(children := [], astroBody := None, sbody := None)];
    }

    /** One pass of the first loop of `Clear`: `bodies[i]` loses its frame
        and, unless it is the player, is killed. */
    method ClearOne(ghost w: World, i: nat)
      requires Valid() && Registry.Valid(w) && i < |w.bodies| && bodies == w.bodies
      requires forall x :: x in w.bodies[..i] ==> x in w.objects
      requires State() == ClearLoop(w, w.bodies[..i])
      modifies this
      ensures forall x :: x in w.bodies[..i + 1] ==> x in w.objects
      ensures Valid() && State() == ClearLoop(w, w.bodies[..i + 1])
      ensures Journey() == old(Journey()) && nextId == old(nextId)
    {
      var b := bodies[i];
      ClearStep(w, i);
      Unframe(b);
      if b != player {
        KillBody(b);
      }
    }

    /** `SetFrame(NULL)` on a live body. */
    method Unframe(b: BodyId)
      requires Valid() && b in objects
      modifies this
      ensures Valid() && State() == Registry.Unframe(old(State()), b)
      ensures Journey() == old(Journey()) && nextId == old(nextId)
    {
      UnframeValid(State(), b);
      objects := objects[b := objects[b].(frame := None)];
    }

    /** `MakeFrameFor(sbody, b, f)`: builds the frames for a descriptor under
        `f`, settles the body made for it, and returns the frame its children
        go under. A surface starport's place on the planet, found by
        sampling the terrain, is the input `surfacePos`. */
    method MakeFrameFor(sb: SBody, b: Option<BodyId>, f: FrameId, surfacePos: Vec3) returns (next: FrameId)
      requires Valid() && f < |frames|
      requires b.Some? ==> b.value in objects
      requires sb.hasParent && sb.kind != Gravpoint ==> b.Some?
      requires sb.hasParent && (IsPlanet(sb.kind) || sb.kind == StarportOrbital) ==> sb.rotationPeriod != 0.0
      requires sb.hasParent && sb.kind == StarportSurface ==> SurfaceReady(frames, objects, f)
      modifies this
      ensures Valid()
      ensures var m := MakeFrames(old(frames), sb, b, f);
        && next == m.next
        && State() == old(State()).(frames := m.frames, objects := Settle(old(objects), b, m.home, SurfacePlace(sb, surfacePos)))
      ensures Journey() == old(Journey()) && nextId == old(nextId)
    {
      var m := MakeFrames(frames, sb, b, f);
      var pos := SurfacePlace(sb, surfacePos);
      var settled := Settle(objects, b, m.home, pos);
      SettleValid(State(), m.frames, b, m.home, pos);
      frames, objects, next := m.frames, settled, m.next;
    }

    /** `GenBody(sbody, f)`: makes and lists the body of a descriptor (none
        for a gravpoint), builds its frames under `f`, then does the same for
        each child under the frame returned. */
    method GenBody(sb: SBody, f: FrameId, surfacePos: SBodyId -> Vec3)
      requires Valid() && f < |frames| && WellFormed(sb, !sb.hasParent)
      requires sb.hasParent && sb.kind == StarportSurface ==> SurfaceReady(frames, objects, f)
      modifies this
      decreases sb, 1
      ensures Valid() && GenPost(old(State()), old(nextId), State(), nextId, sb, f)
      ensures Journey() == old(Journey())
    {
      ghost var w0, n0 := State(), nextId;
      var next := MakeOwn(sb, f, surfacePos(sb.id));
      var i := 0;
      while i < |sb.children|
        invariant Valid() && next < |frames|
        invariant GenLoop(w0, n0, State(), nextId, sb, f, i)
        invariant Journey() == old(Journey())
        invariant sb.hasParent && IsPlanet(sb.kind) ==> SurfaceReady(frames, objects, next)
      {
        GenChild(sb, f, next, i, surfacePos, w0, n0);
        i := i + 1;
      }
      GenLoopDone(w0, n0, State(), nextId, sb, f);
    }

    /** One turn of the child loop of `GenBody`: the `i`th child is built
        below the frame `next`. */
    method GenChild(sb: SBody, f: FrameId, next: FrameId, i: nat, surfacePos: SBodyId -> Vec3,
                    ghost w0: World, ghost n0: nat)
      requires Valid() && next < |frames| && WellFormed(sb, !sb.hasParent) && i < |sb.children|
      requires GenLoop(w0, n0, State(), nextId, sb, f, i)
      requires sb.hasParent && IsPlanet(sb.kind) ==> SurfaceReady(frames, objects, next)
      modifies this
      decreases sb, 0
      ensures Valid() && next < |frames|
      ensures GenLoop(w0, n0, State(), nextId, sb, f, i + 1)
      ensures Journey() == old(Journey())
      ensures sb.hasParent && IsPlanet(sb.kind) ==> SurfaceReady(frames, objects, next)
    {
      ghost var wi, ni := State(), nextId;
      GenBody(sb.children[i], next, surfacePos);
      GenLoopStep(w0, n0, wi, ni, State(), nextId, sb, f, i, next);
      if sb.hasParent && IsPlanet(sb.kind) {
        GrownKeepsReady(wi, ni, State(), nextId, next);
      }
    }

    /** `new Star`/`Planet`/`SpaceStation(sbody)`, labelled and listed;
        a gravpoint gets no body. */
    method MakeBody(sb: SBody) returns (b: Option<BodyId>)
      requires Valid()
      modifies this
      ensures Valid() && Journey() == old(Journey())
      ensures sb.kind == Gravpoint ==> b.None? && State() == old(State()) && nextId == old(nextId)
      ensures sb.kind != Gravpoint ==>
        && b == Some(old(nextId)) && nextId == old(nextId) + 1 && old(nextId) !in old(objects)
        && old(nextId) in objects && objects[old(nextId)].kind == BodyKindFor(sb.kind)
        && State() == old(State()).(objects := old(objects)[old(nextId) := Body(BodyKindFor(sb.kind), sb.name, None, Zero, Zero)],
                                    bodies := old(bodies) + [old(nextId)])
    {
      b := None;
      if sb.kind != Gravpoint {
        var nb := NewBody(BodyKindFor(sb.kind), sb.name);
        AddBody(nb);
        b := Some(nb);
      }
    }

    /** The first half of `GenBody`: the descriptor's own body and frames.
        Returns the frame the children go under. */
    method MakeOwn(sb: SBody, f: FrameId, surfacePos: Vec3) returns (next: FrameId)
      requires Valid() && f < |frames| && WellFormed(sb, !sb.hasParent)
      requires sb.hasParent && sb.kind == StarportSurface ==> SurfaceReady(frames, objects, f)
      modifies this
      ensures Valid() && next < |frames|
      ensures GenLoop(old(State()), old(nextId), State(), nextId, sb, f, 0)
      ensures sb.hasParent && IsPlanet(sb.kind) ==> SurfaceReady(frames, objects, next)
      ensures Journey() == old(Journey())
    {
      ghost var w0, n0 := State(), nextId;
      var b := MakeBody(sb);
      ghost var wa, na := State(), nextId;
      if sb.hasParent && sb.kind == StarportSurface {
        ReadyAfterNewBody(w0.frames, w0.objects, objects, f);
      }
      if sb.hasParent && IsPlanet(sb.kind) {
        PlanetReady(frames, objects, sb, b, f, surfacePos);
      }
      next := MakeFrameFor(sb, b, f, surfacePos);
      MakeOwnGrown(w0, n0, wa, na, State(), nextId, sb, b, f, surfacePos);
    }

    /** The entry loop of `UpdateFramesOfReference` for one body: the
        children of its frame are tried in order and the first that contains
        it is entered. */
    method EnterChild(g: Geometry, b: Body) returns (r: Body)
      requires ValidArena(frames) && Located(frames, b)
      ensures r == Enter(frames, g, b)
    {
      r := b;
      var f := b.frame.value;
      var kids := frames[f].children;
      var j := 0;
      var entered := false;
      while j < |kids| && !entered
        invariant 0 <= j <= |kids|
        invariant forall k :: 0 <= k < j ==> !Enters(frames, g, f, b.pos, k)
        invariant !entered ==> r == b
        invariant entered ==> j < |kids| && Enters(frames, g, f, b.pos, j) && r == IntoChild(g, f, kids[j], b)
        decreases |kids| - j, if entered then 0 else 1
      {
        var kid := kids[j];
        var pos := g.toChildPos(f, kid, b.pos);
        if g.inside(kid, pos) {
          r := r.(pos := pos, frame := Some(kid));
          r := r.(vel := Common.Add(Sub(g.toChildRot(f, kid, b.vel), g.frameVel(kid)), g.stasisVel(kid, pos)));
          entered := true;
        } else {
          j := j + 1;
        }
      }
      FirstEnteredSkip(frames, g, f, b.pos, j);
    }

    /** One pass of the loop of `UpdateFramesOfReference`, on the `i`-th
        listed body. */
    method MigrateOne(ghost w: World, g: Geometry, mayMove: BodyId -> bool, i: nat)
      requires ValidArena(w.frames) && Placed(w.frames, mayMove, w.bodies, w.objects) && i < |w.bodies|
      requires Placed(w.frames, mayMove, w.bodies[..i], w.objects)
      requires State() == w.(objects := MigrateAll(w.frames, g, mayMove, w.bodies[..i], w.objects))
      modifies this
      ensures Placed(w.frames, mayMove, w.bodies[..i + 1], w.objects)
      ensures State() == w.(objects := MigrateAll(w.frames, g, mayMove, w.bodies[..i + 1], w.objects))
      ensures Journey() == old(Journey()) && nextId == old(nextId)
    {
      var x := bodies[i];
      MigrateAllStep(frames, g, mayMove, bodies, w.objects, i);
      if mayMove(x) {
        var b := Leave(frames, g, objects[x]);
        b := EnterChild(g, b);
        objects := objects[x := b];
      }
    }

    /** `UpdateFramesOfReference`: every listed body allowed to change frame
        (`mayMove`, standing for `FLAG_CAN_MOVE_FRAME`) first leaves its
        frame if it is outside it, then enters the first child of its frame
        that contains it, in list order. */
    method UpdateFramesOfReference(g: Geometry, mayMove: BodyId -> bool)
      requires Valid() && Placed(frames, mayMove, bodies, objects)
      modifies this
      ensures Valid()
      ensures State() == old(State()).(objects := MigrateAll(old(frames), g, mayMove, old(bodies), old(objects)))
      ensures Journey() == old(Journey()) && nextId == old(nextId)
    {
      ghost var w := State();
      MigrateValid(w, g, mayMove);
      assert w.bodies[..0] == [];
      var i := 0;
      while i < |bodies|
        invariant 0 <= i <= |w.bodies| && Placed(w.frames, mayMove, w.bodies[..i], w.objects)
        invariant State() == w.(objects := MigrateAll(w.frames, g, mayMove, w.bodies[..i], w.objects))
        invariant Journey() == old(Journey()) && nextId == old(nextId)
      {
        MigrateOne(w, g, mayMove, i);
        i := i + 1;
      }
      assert bodies[..i] == bodies;
    }

    /** `RadiusDamage(attacker, f, pos, radius, kgDamage)`: the
        `OnDamage` calls made, in list order. `length` is the length of a
        vector. */
    method RadiusDamage(attacker: BodyId, f: FrameId, pos: Vec3, radius: real, kgDamage: real,
                        length: Vec3 -> real) returns (hits: seq<Hit>)
      requires Valid() && forall v :: 0.0 <= length(v)
      ensures hits == DamageCalls(bodies, objects, attacker, f, pos, radius, kgDamage, length)
    {
      forall x | x in bodies ensures x in objects {
        assert Placeable(State(), x);
      }
      hits := [];
      var i := 0;
      while i < |bodies|
        invariant 0 <= i <= |bodies| && forall x :: x in bodies[..i] ==> x in objects
        invariant hits == DamageCalls(bodies[..i], objects, attacker, f, pos, radius, kgDamage, length)
      {
        DamageStep(bodies, objects, attacker, f, pos, radius, kgDamage, length, i);
        var b := objects[bodies[i]];
        if b.frame == Some(f) {
          var dist := length(Sub(b.pos, pos));
          if dist < radius {
            hits := hits + [Hit(bodies[i], attacker, Falloff(kgDamage, radius, dist))];
          }
        }
        i := i + 1;
      }
      assert bodies[..i] == bodies;
    }

    /** `BuildSystem`: the frames and bodies of the current system, built
        from its root descriptor into the root frame. */
    method BuildSystem(system: SBody, surfacePos: SBodyId -> Vec3)
      requires Valid() && WellFormed(system, true)
      modifies this
      ensures Valid() && GenPost(old(State()), old(nextId), State(), nextId, system, Root)
      ensures Journey() == old(Journey())
    {
      GenBody(system, Root, surfacePos);
    }

    /** `StartHyperspaceTo(dest)`: unless the player cannot make the jump
        (`canJump`, standing for `CanHyperspaceTo`) or the destination is in
        the current system, everything is cleared, the player is disabled
        and the jump is pending with its animation at zero. */
    method StartHyperspaceTo(dest: SBodyPath, canJump: bool)
      requires Valid() && currentSystem.Some?
      modifies this
      ensures Valid() && nextId == old(nextId)
      ensures !canJump || old(currentSystem) == Some(dest.system) ==>
        State() == old(State()) && Journey() == old(Journey())
      ensures canJump && old(currentSystem) != Some(dest.system) ==>
        State() == ClearAll(old(State())) && Journey() == (Some(dest), 0.0, false, old(currentSystem))
    {
      if !canJump {
        return;
      }
      if currentSystem == Some(dest.system) {
        return;
      }
      Depart(dest);
    }

    /** The jump itself: everything is cleared, the player disabled, and
        the destination and the start of the animation recorded. */
    method Depart(dest: SBodyPath)
      requires Valid()
      modifies this
      ensures Valid() && nextId == old(nextId) && State() == ClearAll(old(State()))
      ensures Journey() == (Some(dest), 0.0, false, old(currentSystem))
    {
      Clear();
      playerEnabled := false;
      hyperspacingTo := Some(dest);
      hyperspaceAnim := 0.0;
    }

    /** `DoHyperspaceTo(dest)`, to `dest` or, when that is null, to the
        pending jump: the current system becomes the destination's, whose
        descriptors are the input `system`; everything is cleared and the
        system built; the player is placed at `placement` (drawn at random
        in the source), at rest, in the frame carrying the destination
        body, and enabled; the jump is no longer pending. `found` is whether
        such a frame exists (the source asserts it). */
    method DoHyperspaceTo(dest: Option<SBodyPath>, system: SBody, surfacePos: SBodyId -> Vec3, placement: Vec3)
      returns (found: bool)
      requires Valid() && (dest.Some? || hyperspacingTo.Some?) && WellFormed(system, true)
      modifies this
      ensures Valid()
      ensures var d := if dest.Some? then dest.value else old(hyperspacingTo).value;
        && currentSystem == Some(d.system)
        && (found <==> d.sbodyId in FramedIds(system))
        && (found ==> objects[player].frame.Some? && frames[objects[player].frame.value].sbody == Some(d.sbodyId))
        && (!found ==> objects[player].frame.None?)
      ensures Carried(frames) == FramedIds(system)
      ensures forall x :: x in bodies ==> x == player || old(nextId) <= x
      ensures player in bodies <==> old(player in bodies)
      ensures objects[player].pos == placement && objects[player].vel == Zero
      ensures hyperspacingTo == None && playerEnabled && hyperspaceAnim == old(hyperspaceAnim)
    {
      var d := if dest.Some? then dest.value else hyperspacingTo.value;
      currentSystem := Some(d.system);
      found := Arrive(d.sbodyId, system, surfacePos, placement);
      playerEnabled := true;
      hyperspacingTo := None;
    }

    /** The arrival part of `DoHyperspaceTo`: the new system is built into
        the emptied tree and the player put at rest at `placement` in the
        frame carrying the descriptor `target`, if one does (`found`). */
    method Arrive(target: SBodyId, system: SBody, surfacePos: SBodyId -> Vec3, placement: Vec3)
      returns (found: bool)
      requires Valid() && WellFormed(system, true)
      modifies this
      ensures Valid() && Journey() == old(Journey())
      ensures found <==> target in FramedIds(system)
      ensures found ==> objects[player].frame.Some? && frames[objects[player].frame.value].sbody == Some(target)
      ensures !found ==> objects[player].frame.None?
      ensures Carried(frames) == FramedIds(system)
      ensures forall x :: x in bodies ==> x == player || old(nextId) <= x
      ensures player in bodies <==> old(player in bodies)
      ensures objects[player].pos == placement && objects[player].vel == Zero
    {
      Rebuild(system, surfacePos);
      var pframe := FindFrameWithSBody(frames, Root, Some(target));
      FoundIffCarried(frames, target);
      PlacePlayer(pframe, placement);
      found := pframe.Some?;
    }

    /** `Clear` then `BuildSystem`: the old system is gone and the new one
        is built into the emptied tree, whose frames then carry exactly the
        framed descriptors of the new system. */
    method Rebuild(system: SBody, surfacePos: SBodyId -> Vec3)
      requires Valid() && WellFormed(system, true)
      modifies this
      ensures Valid() && Carried(frames) == FramedIds(system)
      ensures forall x :: x in bodies ==> x == player || old(nextId) <= x
      ensures player in bodies <==> old(player in bodies)
      ensures Journey() == old(Journey())
    {
      ghost var w := State();
      ClearedCarriesNothing(w);
      ClearEmptiesList(w);
      Clear();
      ghost var wc, nc := State(), nextId;
      BuildSystem(system, surfacePos);
      BuiltCarries(wc, nc, State(), nextId, system);
      OnlyNewBodies(wc, nc, State(), nextId, Root);
      PlayerStaysListed(wc, nc, State(), nextId, Root);
    }

    /** The player is put at rest at `pos` in frame `f` (`SetPosition`,
        `SetVelocity(0)`, `SetFrame`). */
    method PlacePlayer(f: Option<FrameId>, pos: Vec3)
      requires Valid() && (f.Some? ==> f.value < |frames|)
      modifies this
      ensures Valid() && Journey() == old(Journey()) && nextId == old(nextId)
      ensures State() == old(State()).(objects := old(objects)[player := old(objects)[player].(pos := pos, vel := Zero, frame := f)])
    {
      objects := objects[player := objects[player].(pos := pos, vel := Zero, frame := f)];
    }

    /** The hyperspace part of `TimeStep(step)`: a pending jump's animation
        advances by `step`, and once past 1 the jump is made (to `system`,
        as `DoHyperspaceTo`) and the animation reset. */
    method TimeStep(step: real, system: SBody, surfacePos: SBodyId -> Vec3, placement: Vec3)
      returns (arrived: bool)
      requires Valid() && (hyperspacingTo.Some? ==> WellFormed(system, true))
      modifies this
      ensures Valid()
      ensures arrived <==> old(hyperspacingTo).Some? && old(hyperspaceAnim) + step > 1.0
      ensures old(hyperspacingTo).None? ==> State() == old(State()) && Journey() == old(Journey())
      ensures old(hyperspacingTo).Some? && !arrived ==>
        State() == old(State()) && Journey() == old(Journey()).(1 := old(hyperspaceAnim) + step)
      ensures arrived ==>
        && hyperspacingTo == None && hyperspaceAnim == 0.0 && playerEnabled
        && currentSystem == Some(old(hyperspacingTo).value.system)
        && Carried(frames) == FramedIds(system)
        && (forall x :: x in bodies ==> x == player || old(nextId) <= x)
        && (player in bodies <==> old(player in bodies))
        && objects[player].pos == placement && objects[player].vel == Zero
    ensures arrived ==> var target := old(hyperspacingTo).value.sbodyId;
        && (target in FramedIds(system) ==>
              objects[player].frame.Some? && frames[objects[player].frame.value].sbody == Some(target))
        && (target !in FramedIds(system) ==> objects[player].frame.None?)
    {
      arrived := false;
      if hyperspacingTo.Some? {
        hyperspaceAnim := hyperspaceAnim + step;
        if hyperspaceAnim > 1.0 {
          var _ := DoHyperspaceTo(None, system, surfacePos, placement);
          hyperspaceAnim := 0.0;
          arrived := true;
        }
      }
    }
  }
}