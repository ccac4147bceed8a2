/** The state `Space` keeps about bodies — the body list, the corpse queue,
    the dead marks, the live body objects, the frame tree and the death
    notices delivered so far — as one value, and each registry operation as
    a function from one such value to the next. The class in `Space` is
    proved to move between exactly these values. */
module Registry {
  import opened Common
  import opened Frames
  import opened Bodies

  /** `FLT_MAX`, the radius given to the root frame by `Init`. */
  const FltMax: real := 340282346638528859811704183484516925440.0

  /** The registry: `player` is `Pi::player`, `objects` the live `Body`
      objects (a deleted body leaves the map), `dead` the bodies whose
      `IsDead()` holds, `notices` every `NotifyDeath` call so far. */
  datatype World = World(
    player: BodyId,
    bodies: seq<BodyId>,
    corpses: seq<BodyId>,
    dead: set<BodyId>,
    objects: map<BodyId, Body>,
    frames: Arena,
    notices: seq<Notice>)

  /** `b` is a live body whose frame, if it has one, is in the tree. */
  predicate Placeable(w: World, b: BodyId)
  {
    b in w.objects && (w.objects[b].frame.Some? ==> w.objects[b].frame.value < |w.frames|)
  }

  /** What the registry keeps true between calls: the frame tree is a tree,
      listed bodies and the player are live and placed, the corpse queue
      holds each dead non-player body exactly once and never the player. */
  predicate Valid(w: World)
  {
    && ValidArena(w.frames)
    && Placeable(w, w.player)
    && (forall x :: x in w.bodies ==> Placeable(w, x))
    && w.dead <= w.objects.Keys
    && (forall c :: c in w.corpses ==> c in w.dead && c != w.player)
    && (forall x :: x in w.dead && x != w.player ==> x in w.corpses)
    && NoDuplicates(w.corpses)
  }

  /** The root frame `Init` creates: "System", no parent, radius `FLT_MAX`. */
  const RootFrame := Frame("System", None, [], None, None, FltMax, None)

  /** The registry after `Init`, with the player object already made. */
  function Initial(player: BodyId, pb: Body): (w: World)
    requires pb.frame.None?
    ensures Valid(w)
    ensures w.bodies == [] && w.corpses == [] && w.frames == [RootFrame]
  {
    World(player, [], [], {}, map[player := pb], [RootFrame], [])
  }

  /** `AddBody`: the body goes to the end of the list. */
  function Add(w: World, b: BodyId): World
  {
    w.(bodies := w.bodies + [b])
  }

  /** `RemoveBody`: the body loses its frame and every entry of it leaves
      the list; the object itself lives on. */
  function Remove(w: World, b: BodyId): World
    requires b in w.objects
  {
    w.(objects := w.objects[b := w.objects[b].(frame := None)], bodies := Keep(w.bodies, {b}))
  }

  /** `KillBody`: a body not yet dead is marked dead and, unless it is the
      player, queued as a corpse; a dead body is left alone. */
  function Kill(w: World, b: BodyId): World
  {
    if b in w.dead then w
    else w.(dead := w.dead + {b}, corpses := if b != w.player then w.corpses + [b] else w.corpses)
  }

  /** `PruneCorpses`: for each corpse in queue order, every listed body is
      notified, the corpse leaves the list and is deleted; the queue empties. */
  function Prune(w: World): World
  {
    w.(bodies := Survivors(w.bodies, w.corpses),
       notices := w.notices + DeathNotices(w.bodies, w.corpses),
       objects := w.objects - ElementsOf(w.corpses),
       dead := w.dead - ElementsOf(w.corpses),
       corpses := [])
  }

  /** `SetFrame(NULL)` on a live body. */
  function Unframe(w: World, x: BodyId): World
    requires x in w.objects
  {
    w.(objects := w.objects[x := w.objects[x].(frame := None)])
  }

  /** The first loop of `Clear` over the entries `bs`, in list order: each
      body loses its frame and, unless it is the player, is killed. */
  function ClearLoop(w: World, bs: seq<BodyId>): (r: World)
    requires forall x :: x in bs ==> x in w.objects
    ensures r.objects.Keys == w.objects.Keys
    ensures r.player == w.player && r.bodies == w.bodies && r.frames == w.frames && r.notices == w.notices
    decreases |bs|
  {
    if bs == [] then w
    else
      var n := |bs| - 1;
      var prev := ClearLoop(w, bs[..n]);
      var x := bs[n];
      var u := Unframe(prev, x);
      if x != w.player then Kill(u, x) else u
  }

  /** `Clear`: frames of listed bodies cleared and every listed body but the
      player killed, the corpses pruned, the player put in the root frame,
      and the root frame stripped of its children, body and descriptor. */
  function ClearAll(w: World): World
    requires Valid(w)
  {
    ClearLoopValid(w, w.bodies);
    PruneValid(ClearLoop(w, w.bodies));
    Reset(Prune(ClearLoop(w, w.bodies)), w.frames[Root])
  }

  /** The end of `Clear`: the player is put in the root frame and the tree
      is cut back to the root frame `root`, stripped of its children, body
      and descriptor. */
  function Reset(p: World, root: Frame): World
    requires p.player in p.objects
  {
    p.(objects := p.objects[p.player := p.objects[p.player].(frame := Some(Root))],
       frames := [root.(children := [], astroBody := None, sbody := None)])
  }

  // ----- Adding and removing -----

  /** A body added while live and placed keeps the registry valid and is
      listed once more than before, at the end. */
  lemma AddValid(w: World, b: BodyId)
    requires Valid(w) && Placeable(w, b)
    ensures Valid(Add(w, b))
    ensures Add(w, b).bodies[|w.bodies|] == b && Add(w, b).bodies[..|w.bodies|] == w.bodies
    ensures multiset(Add(w, b).bodies)[b] == multiset(w.bodies)[b] + 1
  {
    assert Add(w, b).bodies[..|w.bodies|] == w.bodies;
  }

  /** After `RemoveBody(b)` no entry of `b` is left, every other body keeps
      its entries in order, `b` has no frame and nothing else changes. */
  lemma RemoveProperties(w: World, b: BodyId)
    requires Valid(w) && b in w.objects
    ensures var r := Remove(w, b);
      && Valid(r)
      && b !in r.bodies
      && (forall x :: x != b ==> (x in r.bodies <==> x in w.bodies))
      && (forall x :: x != b ==> multiset(r.bodies)[x] == multiset(w.bodies)[x])
      && IsSubsequence(r.bodies, w.bodies)
      && r.objects[b].frame.None?
      && (forall x :: x in w.objects && x != b ==> x in r.objects && r.objects[x] == w.objects[x])
  {
    var r := Remove(w, b);
    KeepIsSubsequence(w.bodies, {b});
    KeepCounts(w.bodies, {b});
    forall x | x in r.bodies ensures Placeable(r, x) {
      assert x in w.bodies;
    }
  }

  // ----- Killing -----

  /** Killing marks the body dead, queues it unless it is the player, and
      keeps the registry valid. */
  lemma KillValid(w: World, b: BodyId)
    requires Valid(w) && b in w.objects
    ensures Valid(Kill(w, b))
    ensures b in Kill(w, b).dead
    ensures b != w.player ==> b in Kill(w, b).corpses
    ensures w.player !in Kill(w, b).corpses
  {
    var r := Kill(w, b);
    if b !in w.dead && b != w.player {
      forall i, j | 0 <= i < j < |r.corpses| ensures r.corpses[i] != r.corpses[j] {
        if j == |w.corpses| {
          assert r.corpses[j] == b && r.corpses[i] == w.corpses[i];
        }
      }
    }
  }

  /** Killing twice is killing once: the second call finds the body dead. */
  lemma KillIdempotent(w: World, b: BodyId)
    ensures Kill(Kill(w, b), b) == Kill(w, b)
    ensures Kill(w, b).corpses == w.corpses || Kill(w, b).corpses == w.corpses + [b]
  {
  }

  /** The player is marked dead but never queued, so it is never pruned. */
  lemma PlayerNeverQueued(w: World)
    ensures Kill(w, w.player).corpses == w.corpses
    ensures w.player in Kill(w, w.player).dead
  {
  }

  // ----- Pruning -----

  /** Pruning keeps the registry valid, empties the queue, deletes every
      corpse and takes it off the list, and keeps every other listed body
      in order; afterwards no listed body but the player is dead. */
  lemma PruneValid(w: World)
    requires Valid(w)
    ensures var r := Prune(w);
      && Valid(r)
      && r.corpses == []
      && (forall c :: c in w.corpses ==> c !in r.bodies && c !in r.objects)
      && IsSubsequence(r.bodies, w.bodies)
      && (forall x :: x in w.bodies && x !in w.corpses ==> x in r.bodies)
      && (forall x :: x !in w.corpses ==> multiset(r.bodies)[x] == multiset(w.bodies)[x])
      && (forall x :: x in r.bodies && x != w.player ==> x !in r.dead)
      && (forall x :: x in w.objects && x !in w.corpses ==> x in r.objects && r.objects[x] == w.objects[x])
  {
    var r := Prune(w);
    SurvivorsAreKept(w.bodies, w.corpses);
    KeepCounts(w.bodies, ElementsOf(w.corpses));
    forall x | x in r.bodies ensures Placeable(r, x) {
      assert x in w.bodies && x !in ElementsOf(w.corpses);
    }
    assert w.player !in ElementsOf(w.corpses);
  }

  /** Every notice pruning sends goes to a listed body and is about a corpse,
      and every listed body not pruned before a corpse hears of it. With
      each corpse queued once (as `Valid` keeps it), a body hears of a
      corpse exactly when it was listed and not pruned before it, and a
      body listed once hears of it exactly once. */
  lemma PruneNotices(w: World)
    ensures forall m :: m in Prune(w).notices[|w.notices|..] ==>
      m.receiver in w.bodies && m.deceased in w.corpses
    ensures forall k, b :: 0 <= k < |w.corpses| && b in w.bodies && b !in w.corpses[..k] ==>
      Notice(b, w.corpses[k]) in Prune(w).notices
    ensures NoDuplicates(w.corpses) ==>
      forall k, b :: 0 <= k < |w.corpses| ==>
        (Notice(b, w.corpses[k]) in Prune(w).notices[|w.notices|..] <==> b in w.bodies && b !in w.corpses[..k])
    ensures NoDuplicates(w.corpses) && NoDuplicates(w.bodies) ==>
      forall k, b :: 0 <= k < |w.corpses| && b in w.bodies && b !in w.corpses[..k] ==>
        CountNotice(Prune(w).notices[|w.notices|..], Notice(b, w.corpses[k])) == 1
  {
    var r := Prune(w);
    var sent := r.notices[|w.notices|..];
    assert sent == DeathNotices(w.bodies, w.corpses);
    forall m | m in sent ensures m.receiver in w.bodies && m.deceased in w.corpses {
      NoticesAreAboutCorpses(w.bodies, w.corpses, m);
    }
    forall k, b | 0 <= k < |w.corpses| && b in w.bodies && b !in w.corpses[..k]
      ensures Notice(b, w.corpses[k]) in sent
    {
      NoticeDelivered(w.bodies, w.corpses, k, b);
    }
    if NoDuplicates(w.corpses) {
      forall k, b | 0 <= k < |w.corpses| && Notice(b, w.corpses[k]) in sent
        ensures b in w.bodies && b !in w.corpses[..k]
      {
        NoticesAreAboutCorpses(w.bodies, w.corpses, Notice(b, w.corpses[k]));
        if b in w.corpses[..k] {
          NoNoticeAfterRemoval(w.bodies, w.corpses, k, b);
        }
      }
      if NoDuplicates(w.bodies) {
        forall k, b | 0 <= k < |w.corpses| && b in w.bodies && b !in w.corpses[..k]
          ensures CountNotice(sent, Notice(b, w.corpses[k])) == 1
        {
          NoticeExactlyOnce(w.bodies, w.corpses, k, b);
        }
      }
    }
  }

  // ----- Clearing -----

  /** Clearing a body's frame keeps the registry valid. */
  lemma UnframeValid(w: World, x: BodyId)
    requires Valid(w) && x in w.objects
    ensures Valid(Unframe(w, x))
  {
    var u := Unframe(w, x);
    assert u.objects.Keys == w.objects.Keys;
    forall y | y in u.bodies ensures Placeable(u, y) {
      assert Placeable(w, y);
    }
  }

  /** The first loop of `Clear` keeps the registry valid. */
  lemma {:induction false} ClearLoopValid(w: World, bs: seq<BodyId>)
    requires Valid(w) && forall x :: x in bs ==> x in w.objects
    ensures Valid(ClearLoop(w, bs))
    decreases |bs|
  {
    if bs != [] {
      var n := |bs| - 1;
      ClearLoopValid(w, bs[..n]);
      var prev := ClearLoop(w, bs[..n]);
      UnframeValid(prev, bs[n]);
      if bs[n] != w.player {
        KillValid(Unframe(prev, bs[n]), bs[n]);
      }
    }
  }

  /** The first loop of `Clear` kills every body of `bs` but the player and
      nothing else. */
  lemma {:induction false} ClearLoopKills(w: World, bs: seq<BodyId>)
    requires forall x :: x in bs ==> x in w.objects
    ensures var r := ClearLoop(w, bs);
      && (forall x :: x in bs && x != w.player ==> x in r.dead)
      && (forall x :: x in r.dead <==> x in w.dead || (x in bs && x != w.player))
      && (forall x :: x in r.corpses ==> x in w.corpses || x in bs)
    decreases |bs|
  {
    if bs != [] {
      var n := |bs| - 1;
      ClearLoopKills(w, bs[..n]);
      assert bs == bs[..n] + [bs[n]];
    }
  }

  /** The first loop of `Clear` unframes every body of `bs` and leaves every
      other body as it was. */
  lemma {:induction false} ClearLoopFrames(w: World, bs: seq<BodyId>)
    requires forall x :: x in bs ==> x in w.objects
    ensures var r := ClearLoop(w, bs);
      && (forall x :: x in bs ==> r.objects[x] == w.objects[x].(frame := None))
      && (forall x :: x in w.objects && x !in bs ==> r.objects[x] == w.objects[x])
    decreases |bs|
  {
    if bs != [] {
      var n := |bs| - 1;
      ClearLoopFrames(w, bs[..n]);
      var prev := ClearLoop(w, bs[..n]);
      var x := bs[n];
      var r := ClearLoop(w, bs);
      assert r.objects == prev.objects[x := prev.objects[x].(frame := None)];
      forall y | y in bs ensures r.objects[y] == w.objects[y].(frame := None) {
        if y != x {
          assert y in bs[..n] by { assert bs == bs[..n] + [x]; }
        }
      }
      forall y | y in w.objects && y !in bs ensures r.objects[y] == w.objects[y] {
        assert y !in bs[..n];
      }
    }
  }

  /** The list `Clear` leaves: the player is the only body left (if it was
      listed), and every other listed body is deleted. */
  lemma ClearEmptiesList(w: World)
    requires Valid(w)
    ensures var r := ClearAll(w);
      && (forall x :: x in r.bodies ==> x == w.player)
      && (w.player in r.bodies <==> w.player in w.bodies)
      && multiset(r.bodies)[w.player] == multiset(w.bodies)[w.player]
      && IsSubsequence(r.bodies, w.bodies)
      && (forall x :: x in w.bodies && x != w.player ==> x !in r.objects)
  {
    var k := ClearLoop(w, w.bodies);
    ClearLoopValid(w, w.bodies);
    ClearLoopKills(w, w.bodies);
    SurvivorsAreKept(k.bodies, k.corpses);
    var r := ClearAll(w);
    assert r.bodies == Survivors(w.bodies, k.corpses);
    assert r.objects.Keys == k.objects.Keys - ElementsOf(k.corpses);
    forall x | x in w.bodies && x != w.player ensures x in ElementsOf(k.corpses) {
      assert x in k.dead;
    }
    KeepCounts(w.bodies, ElementsOf(k.corpses));
    assert w.player !in ElementsOf(k.corpses);
  }

  /** `Clear` keeps the registry valid and empties the queue. */
  lemma ClearValid(w: World)
    requires Valid(w)
    ensures Valid(ClearAll(w)) && ClearAll(w).corpses == []
  {
    var k := ClearLoop(w, w.bodies);
    ClearLoopValid(w, w.bodies);
    PruneKeepsValid(k);
    ClearEmptiesList(w);
    ResetValid(Prune(k), w.frames[Root]);
  }

  /** Pruning keeps the registry valid. */
  lemma PruneKeepsValid(w: World)
    requires Valid(w)
    ensures Valid(Prune(w))
  {
    PruneValid(w);
  }

  /** Once no body but the player is listed, replacing the tree by a lone
      root frame and putting the player in it keeps the registry valid. */
  lemma ResetValid(p: World, root: Frame)
    requires Valid(p) && p.corpses == [] && (forall x :: x in p.bodies ==> x == p.player)
    requires root.parent == None
    ensures Valid(Reset(p, root))
  {
  }

  /** What `Clear` leaves of the frames and the surviving objects: only the
      root frame remains, without children, body or descriptor; the player
      sits in it; bodies that were neither listed nor dead are untouched. */
  lemma ClearResetsFrames(w: World)
    requires Valid(w)
    ensures var r := ClearAll(w);
      && r.frames == [w.frames[Root].(children := [], astroBody := None, sbody := None)]
      && r.objects[w.player].frame == Some(Root)
      && (forall x :: x in w.objects && x !in w.bodies && x !in w.dead ==>
            x in r.objects && (x != w.player ==> r.objects[x] == w.objects[x]))
  {
    var k := ClearLoop(w, w.bodies);
    ClearLoopValid(w, w.bodies);
    ClearLoopKills(w, w.bodies);
    ClearLoopFrames(w, w.bodies);
    var r := ClearAll(w);
    forall x | x in w.objects && x !in w.bodies && x !in w.dead
      ensures x in r.objects && (x != w.player ==> r.objects[x] == w.objects[x])
    {
      assert x !in k.dead;
      assert x !in k.corpses;
    }
  }
}
