/** Collision response (`hitCallback` and `OnCollision`): one impulse per
    contact, applied only to a closing contact that neither participant
    vetoes. Detection (the collision space, terrain sampling) is outside. */
module Collision {
  import opened Common

  /** Which participant of a contact (`userData1` or `userData2`). */
  datatype Side = First | Second

  /** The state of a `DynamicBody` the response reads and writes. */
  datatype Dynamics = Dynamics(pos: Vec3, vel: Vec3, angVel: Vec3, mass: real, angInertia: real)

  /** One participant `Object` of a contact: whether it is a `Body` (only
      then is its `OnCollision` hook consulted), its dynamics when it is a
      `DynamicBody`, and the answer its hook gives for this contact. */
  datatype Participant = Participant(isBody: bool, dyn: Option<Dynamics>, accepts: bool)

  /** A `CollisionContact`: contact point, contact normal, participants. */
  datatype Contact = Contact(pos: Vec3, normal: Vec3, o1: Participant, o2: Participant)

  /** The answer of `OnCollision` and the hooks it consulted, in order. */
  datatype Verdict = Verdict(proceed: bool, asked: seq<Side>)

  /** The participants after the response, and the hooks consulted. */
  datatype Response = Response(o1: Participant, o2: Participant, asked: seq<Side>)

  /** `coeff_rest` */
  const Restitution: real := 0.5

  /** A dynamic participant is a `DynamicBody`, hence a `Body`; its mass
      and angular inertia are positive, so their inverses exist. */
  predicate Physical(p: Participant)
  {
    p.dyn.Some? ==> p.isBody && p.dyn.value.mass > 0.0 && p.dyn.value.angInertia > 0.0
  }

  /** `hitCallback` asserts that at least one participant is dynamic. */
  predicate Collidable(c: Contact)
  {
    (c.o1.dyn.Some? || c.o2.dyn.Some?) && Physical(c.o1) && Physical(c.o2)
  }

  /** The velocity of the material point of `d` at `at` (`hitVel`). */
  function PointVelocity(d: Dynamics, at: Vec3): Vec3
  {
    Add(d.vel, Cross(d.angVel, Sub(at, d.pos)))
  }

  /** `OnCollision` in Space.cpp: a contact goes ahead exactly when no body
      participant vetoes it; the first participant's hook is consulted
      whenever it is a body, and the second's never after the first has
      vetoed. */
  function OnCollision(o1: Participant, o2: Participant): (r: Verdict)
    ensures r.proceed <==> (!o1.isBody || o1.accepts) && (!o2.isBody || o2.accepts)
    ensures First in r.asked <==> o1.isBody
    ensures Second in r.asked <==> o2.isBody && (!o1.isBody || o1.accepts)
  {
    if o1.isBody && !o1.accepts then Verdict(false, [First])
    else
      var asked := if o1.isBody then [First] else [];
      if o2.isBody && !o2.accepts then Verdict(false, asked + [Second])
      else Verdict(true, asked + (if o2.isBody then [Second] else []))
  }

  /** The response leaves a participant the same object: its kind, its hook's
      answer and, for a dynamic body, its position, mass and angular
      inertia; only velocities may change. */
  predicate SameObject(before: Participant, after: Participant)
  {
    && after.isBody == before.isBody && after.accepts == before.accepts
    && after.dyn.Some? == before.dyn.Some?
    && (before.dyn.Some? ==>
          && after.dyn.value.pos == before.dyn.value.pos
          && after.dyn.value.mass == before.dyn.value.mass
          && after.dyn.value.angInertia == before.dyn.value.angInertia)
  }

  /** The angular term of the impulse denominator,
      `n . (((r x n) / I) x r)`, for lever arm `r`, normal `n` and inverse
      angular inertia `invI`. */
  function AngularTerm(r: Vec3, n: Vec3, invI: real): real
  {
    Dot(n, Cross(Scale(Cross(r, n), invI), r))
  }

  /** The angular term is `invI * |r x n|^2`, so never negative. */
  lemma AngularTermNonNegative(r: Vec3, n: Vec3, invI: real)
    requires invI >= 0.0
    ensures AngularTerm(r, n, invI) >= 0.0
  {
    var a := Cross(r, n);
    CrossScaleLeft(a, r, invI);
    DotScale(Cross(a, r), invI, n);
    TripleProduct(a, r, n);
    SquaresNonNegative(a);
    MulNonNegative(invI, Dot(a, a));
  }

  /** The scalar triple product is invariant under rotation of its factors. */
  lemma TripleProduct(a: Vec3, b: Vec3, c: Vec3)
    ensures Dot(c, Cross(a, b)) == Dot(a, Cross(b, c))
  {
  }

  lemma SquaresNonNegative(a: Vec3)
    ensures Dot(a, a) >= 0.0
  {
    assert a.x * a.x >= 0.0 && a.y * a.y >= 0.0 && a.z * a.z >= 0.0;
  }

  lemma MulNonNegative(x: real, y: real)
    requires x >= 0.0 && y >= 0.0
    ensures x * y >= 0.0
  {
  }

  /** A dynamic body after the impulse `force` at the point `at`:
      `vel += force * invMass`, `angVel += ((at - pos) x force) * invAngInert`. */
  function Kick(d: Dynamics, at: Vec3, force: Vec3, invMass: real, invAngInert: real): Dynamics
  {
    d.(vel := Add(d.vel, Scale(force, invMass)),
       angVel := Add(d.angVel, Scale(Cross(Sub(at, d.pos), force), invAngInert)))
  }

  /** The normal velocity of participant 1 relative to participant 2 at
      the contact point, for two dynamic participants. */
  function RelativeNormalVelocity(c: Contact, d1: Dynamics, d2: Dynamics): real
  {
    Dot(Sub(PointVelocity(d1, c.pos), PointVelocity(d2, c.pos)), c.normal)
  }

  /** The denominator of the two-dynamic impulse,
      `1/m1 + 1/m2 + term3 + term4`; positive for physical bodies. */
  function DynamicDenominator(c: Contact): (r: real)
    requires Collidable(c) && c.o1.dyn.Some? && c.o2.dyn.Some?
    ensures r > 0.0
  {
    var d1 := c.o1.dyn.value;
    var d2 := c.o2.dyn.value;
    AngularTermNonNegative(Sub(c.pos, d1.pos), c.normal, 1.0 / d1.angInertia);
    AngularTermNonNegative(Sub(c.pos, d2.pos), c.normal, 1.0 / d2.angInertia);
    1.0 / d1.mass + 1.0 / d2.mass
    + AngularTerm(Sub(c.pos, d1.pos), c.normal, 1.0 / d1.angInertia)
    + AngularTerm(Sub(c.pos, d2.pos), c.normal, 1.0 / d2.angInertia)
  }

  /** The impulse magnitude `j = -(1 + e) * relVel / den` for a closing
      speed `relVel` and an impulse denominator `den`. */
  function Impulse(relVel: real, den: real): real
    requires den > 0.0
  {
    -(1.0 + Restitution) * relVel / den
  }

  /** The response for two dynamic participants: a separating contact
      (positive relative normal velocity) or a vetoed one changes nothing;
      otherwise equal and opposite impulses `j * normal` are applied, with
      `j = -(1 + e) * relVel / (1/m1 + 1/m2 + angular terms)`. */
  function RespondDynamic(c: Contact): (r: Response)
    requires Collidable(c) && c.o1.dyn.Some? && c.o2.dyn.Some?
    ensures SameObject(c.o1, r.o1) && SameObject(c.o2, r.o2)
    ensures r.asked == [] || r.asked == OnCollision(c.o1, c.o2).asked
    ensures RelativeNormalVelocity(c, c.o1.dyn.value, c.o2.dyn.value) > 0.0 || !OnCollision(c.o1, c.o2).proceed ==>
              r.o1 == c.o1 && r.o2 == c.o2
  {
    var d1 := c.o1.dyn.value;
    var d2 := c.o2.dyn.value;
    var relVel := RelativeNormalVelocity(c, d1, d2);
    if relVel > 0.0 then Response(c.o1, c.o2, [])
    else
      var v := OnCollision(c.o1, c.o2);
      if !v.proceed then Response(c.o1, c.o2, v.asked)
      else
        var j := Impulse(relVel, DynamicDenominator(c));
        var force := Scale(c.normal, j);
        // the second body receives the opposite impulse
        var n1 := Kick(d1, c.pos, force, 1.0 / d1.mass, 1.0 / d1.angInertia);
        var n2 := Kick(d2, c.pos, Neg(force), 1.0 / d2.mass, 1.0 / d2.angInertia);
        Response(c.o1.(dyn := Some(n1)), c.o2.(dyn := Some(n2)), v.asked)
  }

  /** The normal along which the one-dynamic-participant response measures
      and pushes, when the mover is the first participant or not. The
      contact normal points from the second participant towards the first
      (that is the convention of the two-dynamic case), so for a mover in
      second place it is `-normal`: the `hitNormal` that `hitCallback`
      computes. */
  function HitNormal(c: Contact, moverFirst: bool): Vec3
  {
    if moverFirst then c.normal else Neg(c.normal)
  }

  /** The denominator of the one-dynamic impulse along `n`,
      `1/m + term3`; positive for a physical body. */
  function StaticDenominator(d: Dynamics, at: Vec3, n: Vec3): (r: real)
    requires d.mass > 0.0 && d.angInertia > 0.0
    ensures r > 0.0
  {
    AngularTermNonNegative(Sub(at, d.pos), n, 1.0 / d.angInertia);
    1.0 / d.mass + AngularTerm(Sub(at, d.pos), n, 1.0 / d.angInertia)
  }

  /** The response for one dynamic participant against a static one,
      measuring and pushing along `n`. */
  function RespondStatic(c: Contact, moverFirst: bool, n: Vec3): (r: Response)
    requires Collidable(c)
    requires if moverFirst then c.o1.dyn.Some? else c.o2.dyn.Some?
    ensures SameObject(c.o1, r.o1) && SameObject(c.o2, r.o2)
    ensures if moverFirst then r.o2 == c.o2 else r.o1 == c.o1
    ensures r.asked == [] || r.asked == OnCollision(c.o1, c.o2).asked
    ensures var d := if moverFirst then c.o1.dyn.value else c.o2.dyn.value;
            Dot(PointVelocity(d, c.pos), n) > 0.0 || !OnCollision(c.o1, c.o2).proceed ==>
              r.o1 == c.o1 && r.o2 == c.o2
  {
    var d := if moverFirst then c.o1.dyn.value else c.o2.dyn.value;
    var relVel := Dot(PointVelocity(d, c.pos), n);
    if relVel > 0.0 then Response(c.o1, c.o2, [])
    else
      var v := OnCollision(c.o1, c.o2);
      if !v.proceed then Response(c.o1, c.o2, v.asked)
      else
        var j := Impulse(relVel, StaticDenominator(d, c.pos, n));
        var moved := Kick(d, c.pos, Scale(n, j), 1.0 / d.mass, 1.0 / d.angInertia);
        if moverFirst then Response(c.o1.(dyn := Some(moved)), c.o2, v.asked)
        else Response(c.o1, c.o2.(dyn := Some(moved)), v.asked)
  }

  /** `hitCallback`, with the one-dynamic-participant case measuring along
      `hitNormal` (see the findings in the README). */
  function HitCallback(c: Contact): (r: Response)
    requires Collidable(c)
    ensures SameObject(c.o1, r.o1) && SameObject(c.o2, r.o2)
    ensures c.o1.dyn.None? ==> r.o1 == c.o1
    ensures c.o2.dyn.None? ==> r.o2 == c.o2
    ensures r.asked == [] || r.asked == OnCollision(c.o1, c.o2).asked
  {
    if c.o1.dyn.Some? && c.o2.dyn.Some? then RespondDynamic(c)
    else if c.o1.dyn.Some? then RespondStatic(c, true, HitNormal(c, true))
    else RespondStatic(c, false, HitNormal(c, false))
  }

  /** `hitCallback` as written: the one-dynamic-participant case computes
      `hitNormal` but measures and pushes along `c->normal` whichever side
      the mover is on. */
  function HitCallbackAsWritten(c: Contact): (r: Response)
    requires Collidable(c)
    ensures SameObject(c.o1, r.o1) && SameObject(c.o2, r.o2)
    ensures c.o1.dyn.None? ==> r.o1 == c.o1
    ensures c.o2.dyn.None? ==> r.o2 == c.o2
    ensures r.asked == [] || r.asked == OnCollision(c.o1, c.o2).asked
  {
    if c.o1.dyn.Some? && c.o2.dyn.Some? then RespondDynamic(c)
    else if c.o1.dyn.Some? then RespondStatic(c, true, c.normal)
    else RespondStatic(c, false, c.normal)
  }

  /** The closing speed `hitCallback` tests: the relative normal velocity,
      with a static participant counted as being at rest. */
  function ClosingVelocity(c: Contact): real
    requires c.o1.dyn.Some? || c.o2.dyn.Some?
  {
    if c.o1.dyn.Some? && c.o2.dyn.Some? then RelativeNormalVelocity(c, c.o1.dyn.value, c.o2.dyn.value)
    else if c.o1.dyn.Some? then Dot(PointVelocity(c.o1.dyn.value, c.pos), HitNormal(c, true))
    else Dot(PointVelocity(c.o2.dyn.value, c.pos), HitNormal(c, false))
  }

  /** A separating contact does nothing: no velocity changes and no hook is
      consulted. */
  lemma SeparatingContactIgnored(c: Contact)
    requires Collidable(c) && ClosingVelocity(c) > 0.0
    ensures HitCallback(c) == Response(c.o1, c.o2, [])
  {
  }

  /** A closing contact that either body vetoes changes no velocity; the
      hooks consulted are exactly those `OnCollision` asks. */
  lemma VetoedContactIgnored(c: Contact)
    requires Collidable(c) && ClosingVelocity(c) <= 0.0
    requires (c.o1.isBody && !c.o1.accepts) || (c.o2.isBody && !c.o2.accepts)
    ensures HitCallback(c).o1 == c.o1 && HitCallback(c).o2 == c.o2
    ensures HitCallback(c).asked == OnCollision(c.o1, c.o2).asked
  {
  }

  /** A closing contact both sides accept changes the dynamic participants
      only, and consults every body's hook. */
  lemma AcceptedContactResponds(c: Contact)
    requires Collidable(c) && ClosingVelocity(c) <= 0.0
    requires (!c.o1.isBody || c.o1.accepts) && (!c.o2.isBody || c.o2.accepts)
    ensures c.o1.dyn.None? ==> HitCallback(c).o1 == c.o1
    ensures c.o2.dyn.None? ==> HitCallback(c).o2 == c.o2
    ensures HitCallback(c).o1.isBody == c.o1.isBody && HitCallback(c).o2.isBody == c.o2.isBody
    ensures HitCallback(c).o1.dyn.Some? == c.o1.dyn.Some? && HitCallback(c).o2.dyn.Some? == c.o2.dyn.Some?
    ensures (First in HitCallback(c).asked <==> c.o1.isBody) && (Second in HitCallback(c).asked <==> c.o2.isBody)
  {
  }

  /** The speed `hitCallback` as written tests: as `ClosingVelocity`, except
      that a lone mover's velocity is measured along `c->normal` whichever
      side it is on. */
  function ClosingVelocityAsWritten(c: Contact): real
    requires c.o1.dyn.Some? || c.o2.dyn.Some?
  {
    if c.o1.dyn.Some? && c.o2.dyn.Some? then RelativeNormalVelocity(c, c.o1.dyn.value, c.o2.dyn.value)
    else if c.o1.dyn.Some? then Dot(PointVelocity(c.o1.dyn.value, c.pos), c.normal)
    else Dot(PointVelocity(c.o2.dyn.value, c.pos), c.normal)
  }

  /** As written, a contact whose tested speed is positive does nothing. */
  lemma SeparatingContactIgnoredAsWritten(c: Contact)
    requires Collidable(c) && ClosingVelocityAsWritten(c) > 0.0
    ensures HitCallbackAsWritten(c) == Response(c.o1, c.o2, [])
  {
  }

  /** As written, a contact whose tested speed is not positive and that
      either body vetoes changes no velocity. */
  lemma VetoedContactIgnoredAsWritten(c: Contact)
    requires Collidable(c) && ClosingVelocityAsWritten(c) <= 0.0
    requires (c.o1.isBody && !c.o1.accepts) || (c.o2.isBody && !c.o2.accepts)
    ensures HitCallbackAsWritten(c).o1 == c.o1 && HitCallbackAsWritten(c).o2 == c.o2
    ensures HitCallbackAsWritten(c).asked == OnCollision(c.o1, c.o2).asked
  {
  }

  /** As written, a contact whose tested speed is not positive and that both
      sides accept consults every body's hook. */
  lemma AcceptedContactRespondsAsWritten(c: Contact)
    requires Collidable(c) && ClosingVelocityAsWritten(c) <= 0.0
    requires (!c.o1.isBody || c.o1.accepts) && (!c.o2.isBody || c.o2.accepts)
    ensures (First in HitCallbackAsWritten(c).asked <==> c.o1.isBody)
    ensures (Second in HitCallbackAsWritten(c).asked <==> c.o2.isBody)
  {
  }

  lemma DotAdd(a: Vec3, b: Vec3, n: Vec3)
    ensures Dot(Add(a, b), n) == Dot(a, n) + Dot(b, n)
  {
  }

  lemma DotScale(a: Vec3, k: real, n: Vec3)
    ensures Dot(Scale(a, k), n) == k * Dot(a, n)
    ensures Dot(n, Scale(a, k)) == k * Dot(n, a)
  {
  }

  lemma CrossAdd(a: Vec3, b: Vec3, r: Vec3)
    ensures Cross(Add(a, b), r) == Add(Cross(a, r), Cross(b, r))
  {
  }

  lemma CrossScale(a: Vec3, b: Vec3, k: real)
    ensures Cross(a, Scale(b, k)) == Scale(Cross(a, b), k)
    ensures Cross(Scale(a, k), b) == Scale(Cross(a, b), k)
  {
    CrossScaleRight(a, b, k);
    CrossScaleLeft(a, b, k);
  }

  /** Scaling the right factor scales the product. */
  lemma CrossScaleRight(a: Vec3, b: Vec3, k: real)
    ensures Cross(a, Scale(b, k)) == Scale(Cross(a, b), k)
  {
    RightX(a, b, k);
    RightY(a, b, k);
    RightZ(a, b, k);
  }

  /** Scaling the left factor scales the product. */
  lemma CrossScaleLeft(a: Vec3, b: Vec3, k: real)
    ensures Cross(Scale(a, k), b) == Scale(Cross(a, b), k)
  {
    LeftX(a, b, k);
    LeftY(a, b, k);
    LeftZ(a, b, k);
  }

  /** The components of `CrossScaleRight` and `CrossScaleLeft`, one per lemma. */
  lemma RightX(a: Vec3, b: Vec3, k: real)
    ensures Cross(a, Scale(b, k)).x == Cross(a, b).x * k
  {
    DiffScale(a.y, b.z, a.z, b.y, k);
  }

  lemma LeftX(a: Vec3, b: Vec3, k: real)
    ensures Cross(Scale(a, k), b).x == Cross(a, b).x * k
  {
    DiffScale(a.y, b.z, a.z, b.y, k);
  }

  lemma RightY(a: Vec3, b: Vec3, k: real)
    ensures Cross(a, Scale(b, k)).y == Cross(a, b).y * k
  {
    DiffScale(a.z, b.x, a.x, b.z, k);
  }

  lemma LeftY(a: Vec3, b: Vec3, k: real)
    ensures Cross(Scale(a, k), b).y == Cross(a, b).y * k
  {
    DiffScale(a.z, b.x, a.x, b.z, k);
  }

  lemma RightZ(a: Vec3, b: Vec3, k: real)
    ensures Cross(a, Scale(b, k)).z == Cross(a, b).z * k
  {
    DiffScale(a.x, b.y, a.y, b.x, k);
  }

  lemma LeftZ(a: Vec3, b: Vec3, k: real)
    ensures Cross(Scale(a, k), b).z == Cross(a, b).z * k
  {
    DiffScale(a.x, b.y, a.y, b.x, k);
  }

  /** `p*(q*k) - r*(s*k) == (p*k)*q - (r*k)*s == (p*q - r*s)*k` */
  lemma DiffScale(p: real, q: real, r: real, s: real, k: real)
    ensures p * (q * k) - r * (s * k) == (p * q - r * s) * k
    ensures (p * k) * q - (r * k) * s == (p * q - r * s) * k
  {
  }

  lemma ScaleScale(a: Vec3, k: real, l: real)
    ensures Scale(Scale(a, k), l) == Scale(a, k * l)
  {
  }

  /** The normal velocity of the contact point after an impulse `j * n`
      grows by `j * (invMass + AngularTerm)` when `n` is a unit vector. */
  lemma KickNormalVelocity(d: Dynamics, at: Vec3, n: Vec3, j: real, im: real, ii: real)
    requires Dot(n, n) == 1.0
    ensures Dot(PointVelocity(Kick(d, at, Scale(n, j), im, ii), at), n) ==
            Dot(PointVelocity(d, at), n) + j * (im + AngularTerm(Sub(at, d.pos), n, ii))
  {
    var r := Sub(at, d.pos);
    var dv := Scale(Scale(n, j), im);
    var dw := Scale(Cross(r, Scale(n, j)), ii);
    LinearKick(n, j, im);
    AngularKick(r, n, j, ii);
    var k := Kick(d, at, Scale(n, j), im, ii);
    assert PointVelocity(k, at) == Add(Add(d.vel, dv), Cross(Add(d.angVel, dw), r));
    SumNormal(d.vel, dv, d.angVel, dw, r, n);
  }

  /** The linear part of a kick along a unit normal. */
  lemma LinearKick(n: Vec3, j: real, im: real)
    requires Dot(n, n) == 1.0
    ensures Dot(Scale(Scale(n, j), im), n) == j * im
  {
    ScaleScale(n, j, im);
    DotScale(n, j * im, n);
  }

  /** The angular part of a kick: `j` times the angular term. */
  lemma AngularKick(r: Vec3, n: Vec3, j: real, ii: real)
    ensures Dot(Cross(Scale(Cross(r, Scale(n, j)), ii), r), n) == j * AngularTerm(r, n, ii)
  {
    var w := Cross(Scale(Cross(r, n), ii), r);
    KickTorque(r, n, j, ii);
    DotComm(n, w);
    ScaledNormal(Cross(Scale(Cross(r, Scale(n, j)), ii), r), w, n, j, AngularTerm(r, n, ii));
  }

  /** The lever term of the impulse `j * n` is `j` times that of `n`. */
  lemma KickTorque(r: Vec3, n: Vec3, j: real, ii: real)
    ensures Cross(Scale(Cross(r, Scale(n, j)), ii), r) == Scale(Cross(Scale(Cross(r, n), ii), r), j)
  {
    var u := Cross(r, n);
    assert Scale(Cross(r, Scale(n, j)), ii) == Scale(Scale(u, ii), j) by {
      CrossScale(r, n, j);
      ScaleSwap(u, j, ii);
    }
    CrossScale(Scale(u, ii), r, j);
  }

  /** The normal component of `j * w` is `j` times that of `w`. */
  lemma ScaledNormal(v: Vec3, w: Vec3, n: Vec3, j: real, x: real)
    requires v == Scale(w, j) && Dot(w, n) == x
    ensures Dot(v, n) == j * x
  {
    DotOfScaled(v, w, j, n);
  }

  lemma ScaleSwap(a: Vec3, k: real, l: real)
    ensures Scale(Scale(a, k), l) == Scale(Scale(a, l), k)
  {
  }

  lemma DotOfScaled(v: Vec3, a: Vec3, k: real, n: Vec3)
    requires v == Scale(a, k)
    ensures Dot(v, n) == k * Dot(a, n)
  {
    DotScale(a, k, n);
  }

  /** `AngularTerm(r, n, ii) == ii * ((r x n) x r) . n` */
  lemma AngularTermIs(r: Vec3, n: Vec3, ii: real)
    ensures AngularTerm(r, n, ii) == ii * Dot(Cross(Cross(r, n), r), n)
  {
    var a := Cross(Cross(r, n), r);
    CrossScale(Cross(r, n), r, ii);
    DotScale(a, ii, n);
    DotComm(n, a);
  }

  /** The normal component of `(v + dv) + (w + dw) x r` splits term by term. */
  lemma SumNormal(v: Vec3, dv: Vec3, w: Vec3, dw: Vec3, r: Vec3, n: Vec3)
    ensures Dot(Add(Add(v, dv), Cross(Add(w, dw), r)), n) ==
            Dot(Add(v, Cross(w, r)), n) + Dot(dv, n) + Dot(Cross(dw, r), n)
  {
    CrossAdd(w, dw, r);
    DotAdd(Add(v, dv), Cross(Add(w, dw), r), n);
    DotAdd(v, dv, n);
    DotAdd(Cross(w, r), Cross(dw, r), n);
    DotAdd(v, Cross(w, r), n);
  }

  lemma DotComm(a: Vec3, b: Vec3)
    ensures Dot(a, b) == Dot(b, a)
  {
  }

  /** The impulse `j = -(1 + e) * p / den` turns the normal velocity `p`
      into `p + j * den == -e * p`. */
  lemma ImpulseAlgebra(p: real, den: real, j: real, a: real)
    requires den > 0.0
    requires j == Impulse(p, den)
    requires a == p + j * den
    ensures a == -Restitution * p
  {
  }

  /** `ImpulseAlgebra` for a denominator of two terms, each passed on its
      own so that the product matches the caller's term for term. */
  lemma ImpulseAlgebra2(p: real, den: real, im: real, t: real, j: real, a: real)
    requires den > 0.0 && den == im + t
    requires j == Impulse(p, den)
    requires a == p + j * (im + t)
    ensures a == -Restitution * p
  {
    ImpulseAlgebra(p, den, j, a);
  }

  /** `ImpulseAlgebra` for a denominator of four terms. */
  lemma ImpulseAlgebra4(p: real, den: real, im1: real, im2: real, t1: real, t2: real, j: real, a: real)
    requires den > 0.0 && den == im1 + im2 + t1 + t2
    requires j == Impulse(p, den)
    requires a == p + j * (im1 + im2 + t1 + t2)
    ensures a == -Restitution * p
  {
    ImpulseAlgebra(p, den, j, a);
  }

  /** The normal velocity of two points, relative to each other. */
  lemma RelativeNormalSplit(u: Vec3, v: Vec3, n: Vec3)
    ensures Dot(Sub(u, v), n) == Dot(u, n) - Dot(v, n)
  {
  }

  /** The opposite impulse is the impulse of the opposite magnitude. */
  lemma NegScale(n: Vec3, j: real)
    ensures Neg(Scale(n, j)) == Scale(n, -j)
  {
  }

  /** Two bodies kicked by `j * n` and `-j * n`: their relative normal
      velocity grows by `j * (1/m1 + term3 + 1/m2 + term4)`. */
  lemma OppositeKicks(d1: Dynamics, d2: Dynamics, at: Vec3, n: Vec3, j: real,
                      im1: real, ii1: real, im2: real, ii2: real)
    requires Dot(n, n) == 1.0
    ensures Dot(Sub(PointVelocity(Kick(d1, at, Scale(n, j), im1, ii1), at),
                    PointVelocity(Kick(d2, at, Neg(Scale(n, j)), im2, ii2), at)), n) ==
            Dot(Sub(PointVelocity(d1, at), PointVelocity(d2, at)), n) +
            j * (im1 + im2 + AngularTerm(Sub(at, d1.pos), n, ii1) + AngularTerm(Sub(at, d2.pos), n, ii2))
  {
    KickNormalVelocity(d1, at, n, j, im1, ii1);
    RecoilNormalVelocity(d2, at, n, j, im2, ii2);
    RelativeNormalSplit(PointVelocity(Kick(d1, at, Scale(n, j), im1, ii1), at),
                        PointVelocity(Kick(d2, at, Neg(Scale(n, j)), im2, ii2), at), n);
    RelativeNormalSplit(PointVelocity(d1, at), PointVelocity(d2, at), n);
    // the arithmetic is done on scalars, away from the vector definitions
    CombineKicks(Dot(Sub(PointVelocity(Kick(d1, at, Scale(n, j), im1, ii1), at),
                         PointVelocity(Kick(d2, at, Neg(Scale(n, j)), im2, ii2), at)), n),
                 Dot(Sub(PointVelocity(d1, at), PointVelocity(d2, at)), n),
                 Dot(PointVelocity(Kick(d1, at, Scale(n, j), im1, ii1), at), n),
                 Dot(PointVelocity(Kick(d2, at, Neg(Scale(n, j)), im2, ii2), at), n),
                 Dot(PointVelocity(d1, at), n), Dot(PointVelocity(d2, at), n), j,
                 im1, AngularTerm(Sub(at, d1.pos), n, ii1), im2, AngularTerm(Sub(at, d2.pos), n, ii2));
  }

  /** The recoil `-j * n` lowers the normal velocity by `j * (1/m + term)`. */
  lemma RecoilNormalVelocity(d: Dynamics, at: Vec3, n: Vec3, j: real, im: real, ii: real)
    requires Dot(n, n) == 1.0
    ensures Dot(PointVelocity(Kick(d, at, Neg(Scale(n, j)), im, ii), at), n) ==
            Dot(PointVelocity(d, at), n) - j * (im + AngularTerm(Sub(at, d.pos), n, ii))
  {
    NegScale(n, j);
    KickNormalVelocity(d, at, n, -j, im, ii);
    NegMul(j, im + AngularTerm(Sub(at, d.pos), n, ii));
  }

  lemma NegMul(j: real, x: real)
    ensures (-j) * x == -(j * x)
  {
  }

  /** Every argument is a single term, so the products here match the
      callers' products term for term. */
  lemma CombineKicks(rel': real, rel: real, q1: real, q2: real, p1: real, p2: real,
                      j: real, im1: real, a1: real, im2: real, a2: real)
    requires rel' == q1 - q2 && rel == p1 - p2
    requires q1 == p1 + j * (im1 + a1) && q2 == p2 - j * (im2 + a2)
    ensures rel' == rel + j * (im1 + im2 + a1 + a2)
  {
  }

  /** The relative normal velocity after the impulses `j * n` and `-j * n`. */
  lemma KickedRelativeVelocity(c: Contact, n1: Dynamics, n2: Dynamics, j: real, im1: real, ii1: real, im2: real, ii2: real)
    requires Dot(c.normal, c.normal) == 1.0
    requires c.o1.dyn.Some? && c.o2.dyn.Some?
    requires var d1, d2 := c.o1.dyn.value, c.o2.dyn.value;
             && n1 == Kick(d1, c.pos, Scale(c.normal, j), im1, ii1)
             && n2 == Kick(d2, c.pos, Neg(Scale(c.normal, j)), im2, ii2)
    ensures var d1, d2 := c.o1.dyn.value, c.o2.dyn.value;
            RelativeNormalVelocity(c, n1, n2) ==
            RelativeNormalVelocity(c, d1, d2) +
            j * (im1 + im2
                 + AngularTerm(Sub(c.pos, d1.pos), c.normal, ii1)
                 + AngularTerm(Sub(c.pos, d2.pos), c.normal, ii2))
  {
    var d1, d2 := c.o1.dyn.value, c.o2.dyn.value;
    OppositeKicks(d1, d2, c.pos, c.normal, j, im1, ii1, im2, ii2);
  }

  lemma ShiftedBy(a: real, b: real, p: real, q: real, gain: real)
    requires a == b && b == p + gain && q == p
    ensures a == q + gain
  {
  }

  /** For two dynamic bodies and a unit normal, a resolved contact leaves
      the relative normal velocity at `-e` times what it was (e = 0.5). */
  lemma RestitutionDynamic(c: Contact)
    requires Collidable(c) && c.o1.dyn.Some? && c.o2.dyn.Some?
    requires Dot(c.normal, c.normal) == 1.0
    requires ClosingVelocity(c) <= 0.0 && OnCollision(c.o1, c.o2).proceed
    ensures var r := RespondDynamic(c);
            RelativeNormalVelocity(c, r.o1.dyn.value, r.o2.dyn.value) ==
            -Restitution * RelativeNormalVelocity(c, c.o1.dyn.value, c.o2.dyn.value)
  {
    var d1, d2 := c.o1.dyn.value, c.o2.dyn.value;
    var den := DynamicDenominator(c);
    var j := Impulse(RelativeNormalVelocity(c, d1, d2), den);
    var r := RespondDynamic(c);
    assert r.o1.dyn.value == Kick(d1, c.pos, Scale(c.normal, j), 1.0 / d1.mass, 1.0 / d1.angInertia);
    assert r.o2.dyn.value == Kick(d2, c.pos, Neg(Scale(c.normal, j)), 1.0 / d2.mass, 1.0 / d2.angInertia);
    OppositeKicksRestitution(c, r.o1.dyn.value, r.o2.dyn.value, j, den,
                             1.0 / d1.mass, 1.0 / d1.angInertia, 1.0 / d2.mass, 1.0 / d2.angInertia);
  }

  /** The impulses `j * n` and `-j * n` of the magnitude `hitCallback`
      computes, for any inverse masses and inertias, restitute the relative
      normal velocity by `-e`. */
  lemma OppositeKicksRestitution(c: Contact, n1: Dynamics, n2: Dynamics, j: real, den: real,
                                 im1: real, ii1: real, im2: real, ii2: real)
    requires Dot(c.normal, c.normal) == 1.0
    requires c.o1.dyn.Some? && c.o2.dyn.Some?
    requires var d1, d2 := c.o1.dyn.value, c.o2.dyn.value;
             && n1 == Kick(d1, c.pos, Scale(c.normal, j), im1, ii1)
             && n2 == Kick(d2, c.pos, Neg(Scale(c.normal, j)), im2, ii2)
             && den == im1 + im2 + AngularTerm(Sub(c.pos, d1.pos), c.normal, ii1)
                       + AngularTerm(Sub(c.pos, d2.pos), c.normal, ii2)
             && den > 0.0
             && j == Impulse(RelativeNormalVelocity(c, d1, d2), den)
    ensures RelativeNormalVelocity(c, n1, n2) ==
            -Restitution * RelativeNormalVelocity(c, c.o1.dyn.value, c.o2.dyn.value)
  {
    KickedRelativeVelocity(c, n1, n2, j, im1, ii1, im2, ii2);
    GainRestitutes(c, n1, n2, j, den, im1, ii1, im2, ii2);
  }

  /** Relative normal velocities that moved by `j * den`, for the impulse
      `j` computed from `den`, end at `-e` times what they were. */
  lemma GainRestitutes(c: Contact, n1: Dynamics, n2: Dynamics, j: real, den: real,
                       im1: real, ii1: real, im2: real, ii2: real)
    requires c.o1.dyn.Some? && c.o2.dyn.Some?
    requires var d1, d2 := c.o1.dyn.value, c.o2.dyn.value;
             && den == im1 + im2 + AngularTerm(Sub(c.pos, d1.pos), c.normal, ii1)
                       + AngularTerm(Sub(c.pos, d2.pos), c.normal, ii2)
             && den > 0.0
             && j == Impulse(RelativeNormalVelocity(c, d1, d2), den)
    requires var d1, d2 := c.o1.dyn.value, c.o2.dyn.value;
             RelativeNormalVelocity(c, n1, n2) ==
             RelativeNormalVelocity(c, d1, d2) +
             j * (im1 + im2
                  + AngularTerm(Sub(c.pos, d1.pos), c.normal, ii1)
                  + AngularTerm(Sub(c.pos, d2.pos), c.normal, ii2))
    ensures RelativeNormalVelocity(c, n1, n2) ==
            -Restitution * RelativeNormalVelocity(c, c.o1.dyn.value, c.o2.dyn.value)
  {
    var d1, d2 := c.o1.dyn.value, c.o2.dyn.value;
    ImpulseAlgebra4(RelativeNormalVelocity(c, d1, d2), den, im1, im2,
                    AngularTerm(Sub(c.pos, d1.pos), c.normal, ii1),
                    AngularTerm(Sub(c.pos, d2.pos), c.normal, ii2),
                    j, RelativeNormalVelocity(c, n1, n2));
  }

  /** For two dynamic bodies a resolved contact conserves linear momentum. */
  lemma MomentumConserved(c: Contact)
    requires Collidable(c) && c.o1.dyn.Some? && c.o2.dyn.Some?
    ensures var r := RespondDynamic(c);
            var d1, d2 := c.o1.dyn.value, c.o2.dyn.value;
            var n1, n2 := r.o1.dyn.value, r.o2.dyn.value;
            Add(Scale(n1.vel, d1.mass), Scale(n2.vel, d2.mass)) ==
            Add(Scale(d1.vel, d1.mass), Scale(d2.vel, d2.mass))
  {
    var d1, d2 := c.o1.dyn.value, c.o2.dyn.value;
    var r := RespondDynamic(c);
    if RelativeNormalVelocity(c, d1, d2) <= 0.0 && OnCollision(c.o1, c.o2).proceed {
      var j := Impulse(RelativeNormalVelocity(c, d1, d2), DynamicDenominator(c));
      var f := Scale(c.normal, j);
      assert r.o1.dyn.value.vel == Add(d1.vel, Scale(f, 1.0 / d1.mass));
      assert r.o2.dyn.value.vel == Add(d2.vel, Scale(Neg(f), 1.0 / d2.mass));
      OppositeMomenta(d1.vel, d2.vel, f, d1.mass, d2.mass);
    }
  }

  /** Velocities changed by `f / m1` and `-f / m2` keep `m1 v1 + m2 v2`. */
  lemma OppositeMomenta(v1: Vec3, v2: Vec3, f: Vec3, m1: real, m2: real)
    requires m1 > 0.0 && m2 > 0.0
    ensures Add(Scale(Add(v1, Scale(f, 1.0 / m1)), m1), Scale(Add(v2, Scale(Neg(f), 1.0 / m2)), m2)) ==
            Add(Scale(v1, m1), Scale(v2, m2))
  {
    ScaleAdd(v1, Scale(f, 1.0 / m1), m1);
    ScaleAdd(v2, Scale(Neg(f), 1.0 / m2), m2);
    ScaleInverse(f, m1);
    ScaleInverse(Neg(f), m2);
  }

  lemma ScaleInverse(k: Vec3, m: real)
    requires m != 0.0
    ensures Scale(Scale(k, 1.0 / m), m) == k
  {
    assert (1.0 / m) * m == 1.0;
  }

  lemma ScaleAdd(a: Vec3, b: Vec3, m: real)
    ensures Scale(Add(a, b), m) == Add(Scale(a, m), Scale(b, m))
  {
  }

  /** The one-dynamic-participant response measured along `hitNormal` is the
      two-dynamic response's test with the static participant taken to be at
      rest, whichever side the mover is on. */
  lemma StaticIsBodyAtRest(c: Contact, rest: Dynamics)
    requires c.o1.dyn.Some? != c.o2.dyn.Some?
    requires rest.vel == Zero && rest.angVel == Zero
    ensures c.o1.dyn.Some? ==> ClosingVelocity(c) == RelativeNormalVelocity(c, c.o1.dyn.value, rest)
    ensures c.o2.dyn.Some? ==> ClosingVelocity(c) == RelativeNormalVelocity(c, rest, c.o2.dyn.value)
  {
  }

  /** For a unit normal, a resolved one-dynamic-participant contact leaves
      the mover's normal velocity along `hitNormal` at `-e` times what it was. */
  lemma RestitutionStatic(c: Contact)
    requires Collidable(c) && c.o1.dyn.Some? != c.o2.dyn.Some?
    requires Dot(c.normal, c.normal) == 1.0
    requires ClosingVelocity(c) <= 0.0 && OnCollision(c.o1, c.o2).proceed
    ensures var first := c.o1.dyn.Some?;
            var n := HitNormal(c, first);
            var before := if first then c.o1.dyn.value else c.o2.dyn.value;
            var r := HitCallback(c);
            var after := if first then r.o1.dyn.value else r.o2.dyn.value;
            Dot(PointVelocity(after, c.pos), n) == -Restitution * Dot(PointVelocity(before, c.pos), n)
  {
    var first := c.o1.dyn.Some?;
    var n := HitNormal(c, first);
    assert Dot(n, n) == 1.0;
    var d := if first then c.o1.dyn.value else c.o2.dyn.value;
    var after := StaticMover(c);
    KickedRestitutes(d, c.pos, n, after);
  }

  /** A body kicked along a unit normal `n` at `at` by the impulse of the
      one-dynamic response ends with `-e` times its normal velocity there. */
  lemma KickedRestitutes(d: Dynamics, at: Vec3, n: Vec3, after: Dynamics)
    requires Dot(n, n) == 1.0 && d.mass > 0.0 && d.angInertia > 0.0
    requires after == Kick(d, at, Scale(n, Impulse(Dot(PointVelocity(d, at), n), StaticDenominator(d, at, n))),
                           1.0 / d.mass, 1.0 / d.angInertia)
    ensures Dot(PointVelocity(after, at), n) == -Restitution * Dot(PointVelocity(d, at), n)
  {
    var p := Dot(PointVelocity(d, at), n);
    var den := StaticDenominator(d, at, n);
    var j := Impulse(p, den);
    KickNormalVelocity(d, at, n, j, 1.0 / d.mass, 1.0 / d.angInertia);
    ImpulseAlgebra2(p, den, 1.0 / d.mass, AngularTerm(Sub(at, d.pos), n, 1.0 / d.angInertia),
                    j, Dot(PointVelocity(after, at), n));
  }

  /** The mover after a resolved one-dynamic-participant contact: kicked
      along `hitNormal` by the impulse `hitCallback` computes. */
  lemma StaticMover(c: Contact) returns (after: Dynamics)
    requires Collidable(c) && c.o1.dyn.Some? != c.o2.dyn.Some?
    requires ClosingVelocity(c) <= 0.0 && OnCollision(c.o1, c.o2).proceed
    ensures var first := c.o1.dyn.Some?;
            var n := HitNormal(c, first);
            var d := if first then c.o1.dyn.value else c.o2.dyn.value;
            var r := HitCallback(c);
            && after == (if first then r.o1.dyn.value else r.o2.dyn.value)
            && after == Kick(d, c.pos, Scale(n, Impulse(Dot(PointVelocity(d, c.pos), n), StaticDenominator(d, c.pos, n))),
                             1.0 / d.mass, 1.0 / d.angInertia)
  {
    var r := HitCallback(c);
    after := if c.o1.dyn.Some? then r.o1.dyn.value else r.o2.dyn.value;
  }

  /** As written, a dynamic body in second place that moves along the
      contact normal, into a static first participant, is taken to be
      separating: no impulse is applied and no hook is consulted, although
      the test along `hitNormal`, like the two-dynamic test with the static
      side at rest, sees it closing. */
  lemma SecondMoverAsWrittenMissesImpact(c: Contact)
    requires Collidable(c) && c.o1.dyn.None? && c.o2.dyn.Some?
    requires Dot(PointVelocity(c.o2.dyn.value, c.pos), c.normal) > 0.0
    ensures HitCallbackAsWritten(c) == Response(c.o1, c.o2, [])
    ensures ClosingVelocity(c) < 0.0
  {
    var v := PointVelocity(c.o2.dyn.value, c.pos);
    assert Dot(v, Neg(c.normal)) == -Dot(v, c.normal);
  }
}
