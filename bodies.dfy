/** Bodies as the simulation core sees them, the body list
    (`std::list<Body*> bodies`) as a sequence, the list operations the
    registry uses, and the specification of corpse pruning. */
module Bodies {
  import opened Common

  /** The body variants the core tells apart (`Object::IsType`). */
  datatype BodyKind = StarBody | PlanetBody | SpaceStationBody | DynamicBody

  /** The state of one body that the core reads or writes: its variant, its
      label, its frame (`GetFrame`, null as `None`), position and velocity in
      that frame. */
  datatype Body = Body(kind: BodyKind, name: string, frame: Option<FrameId>, pos: Vec3, vel: Vec3)

  /** One `NotifyDeath` call: `receiver->NotifyDeath(deceased)`. */
  datatype Notice = Notice(receiver: BodyId, deceased: BodyId)

  /** `s` with every element of `gone` taken out and the rest in their order;
      `std::list::remove(x)` is `Keep(s, {x})`. */
  function Keep(s: seq<BodyId>, gone: set<BodyId>): (r: seq<BodyId>)
    ensures forall y :: y in r <==> y in s && y !in gone
    ensures |r| <= |s|
  {
    if s == [] then []
    else (if s[0] in gone then [] else [s[0]]) + Keep(s[1..], gone)
  }

  /** Removal drops every copy of a removed body and keeps every copy of
      every other body. */
  lemma {:induction false} KeepCounts(s: seq<BodyId>, gone: set<BodyId>)
    ensures forall y :: multiset(Keep(s, gone))[y] == if y in gone then 0 else multiset(s)[y]
  {
    if s != [] {
      KeepCounts(s[1..], gone);
      assert s == [s[0]] + s[1..];
    }
  }

  /** No body occurs twice in `s`. */
  predicate NoDuplicates(s: seq<BodyId>)
  {
    forall i, j :: 0 <= i < j < |s| ==> s[i] != s[j]
  }

  /** `r` can be obtained from `s` by deleting elements: relative order is kept. */
  predicate IsSubsequence(r: seq<BodyId>, s: seq<BodyId>)
    decreases |s|
  {
    if r == [] then true
    else if s == [] then false
    else (r[0] == s[0] && IsSubsequence(r[1..], s[1..])) || IsSubsequence(r, s[1..])
  }

  lemma {:induction false} KeepIsSubsequence(s: seq<BodyId>, gone: set<BodyId>)
    ensures IsSubsequence(Keep(s, gone), s)
  {
    if s != [] {
      KeepIsSubsequence(s[1..], gone);
      var r := Keep(s, gone);
      if s[0] in gone {
        assert r == Keep(s[1..], gone);
      } else {
        assert r == [s[0]] + Keep(s[1..], gone);
        assert r[0] == s[0] && r[1..] == Keep(s[1..], gone);
      }
    }
  }

  /** Removing two sets one after the other removes their union. */
  lemma {:induction false} KeepKeep(s: seq<BodyId>, a: set<BodyId>, b: set<BodyId>)
    ensures Keep(Keep(s, a), b) == Keep(s, a + b)
  {
    if s != [] {
      KeepKeep(s[1..], a, b);
      var ka := Keep(s[1..], a);
      if s[0] in a {
        assert Keep(s, a) == ka;
        assert Keep(s, a + b) == Keep(s[1..], a + b);
      } else {
        assert Keep(s, a) == [s[0]] + ka;
        assert ([s[0]] + ka)[1..] == ka;
        assert Keep([s[0]] + ka, b) == (if s[0] in b then [] else [s[0]]) + Keep(ka, b);
      }
    }
  }

  /** The body list after the corpses `cs` have been removed one at a time,
      in queue order. */
  function Survivors(bs: seq<BodyId>, cs: seq<BodyId>): seq<BodyId>
    decreases |cs|
  {
    if cs == [] then bs
    else Keep(Survivors(bs, cs[..|cs| - 1]), {cs[|cs| - 1]})
  }

  function ElementsOf(cs: seq<BodyId>): set<BodyId>
  {
    set c | c in cs
  }

  /** Pruning the corpses one by one leaves exactly the bodies that are not
      corpses, in their original order. */
  lemma SurvivorsAreKept(bs: seq<BodyId>, cs: seq<BodyId>)
    ensures Survivors(bs, cs) == Keep(bs, ElementsOf(cs))
    ensures IsSubsequence(Survivors(bs, cs), bs)
  {
    SurvivorsKeep(bs, cs);
    KeepIsSubsequence(bs, ElementsOf(cs));
  }

  lemma {:induction false} SurvivorsKeep(bs: seq<BodyId>, cs: seq<BodyId>)
    ensures Survivors(bs, cs) == Keep(bs, ElementsOf(cs))
    decreases |cs|
  {
    if cs == [] {
      assert ElementsOf(cs) == {};
      KeepNothing(bs);
    } else {
      var n := |cs| - 1;
      SurvivorsKeep(bs, cs[..n]);
      KeepKeep(bs, ElementsOf(cs[..n]), {cs[n]});
      ElementsOfLast(cs);
    }
  }

  lemma ElementsOfLast(cs: seq<BodyId>)
    requires cs != []
    ensures ElementsOf(cs) == ElementsOf(cs[..|cs| - 1]) + {cs[|cs| - 1]}
  {
    assert cs == cs[..|cs| - 1] + [cs[|cs| - 1]];
  }

  lemma {:induction false} KeepNothing(s: seq<BodyId>)
    ensures Keep(s, {}) == s
  {
    if s != [] {
      KeepNothing(s[1..]);
    }
  }

  /** One `NotifyDeath(c)` to each body of `bs`, in list order. */
  function Broadcast(bs: seq<BodyId>, c: BodyId): (r: seq<Notice>)
    ensures |r| == |bs|
    ensures forall k :: 0 <= k < |bs| ==> r[k] == Notice(bs[k], c)
  {
    seq(|bs|, k requires 0 <= k < |bs| => Notice(bs[k], c))
  }

  /** The notices sent by `PruneCorpses`: for each corpse in queue order, one
      to every body still in the list at that moment, the corpse included. */
  function DeathNotices(bs: seq<BodyId>, cs: seq<BodyId>): seq<Notice>
    decreases |cs|
  {
    if cs == [] then []
    else
      var n := |cs| - 1;
      DeathNotices(bs, cs[..n]) + Broadcast(Survivors(bs, cs[..n]), cs[n])
  }

  /** Every notice goes to a body of the list about a queued corpse. */
  lemma {:induction false} NoticesAreAboutCorpses(bs: seq<BodyId>, cs: seq<BodyId>, m: Notice)
    requires m in DeathNotices(bs, cs)
    ensures m.receiver in bs && m.deceased in cs
    decreases |cs|
  {
    var n := |cs| - 1;
    if m in DeathNotices(bs, cs[..n]) {
      NoticesAreAboutCorpses(bs, cs[..n], m);
    } else {
      var sv := Survivors(bs, cs[..n]);
      var k :| 0 <= k < |sv| && Broadcast(sv, cs[n])[k] == m;
      SurvivorsAreKept(bs, cs[..n]);
      assert sv[k] in sv;
    }
  }

  /** The `k`-th corpse is announced to every body of the list that was not
      removed before it: the survivors, and the corpse itself when it is
      still listed. */
  lemma {:induction false} NoticeDelivered(bs: seq<BodyId>, cs: seq<BodyId>, k: nat, b: BodyId)
    requires k < |cs| && b in bs && b !in cs[..k]
    ensures Notice(b, cs[k]) in DeathNotices(bs, cs)
    decreases |cs|
  {
    var n := |cs| - 1;
    if k < n {
      assert cs[..n][..k] == cs[..k];
      NoticeDelivered(bs, cs[..n], k, b);
    } else {
      var sv := Survivors(bs, cs[..n]);
      SurvivorsAreKept(bs, cs[..n]);
      assert b in sv;
      var j :| 0 <= j < |sv| && sv[j] == b;
      assert Broadcast(sv, cs[n])[j] == Notice(b, cs[k]);
    }
  }

  /** A broadcast about `c` to `bs` only reaches bodies of `bs`, and only
      about `c`. */
  lemma BroadcastReaches(bs: seq<BodyId>, c: BodyId, m: Notice)
    requires m in Broadcast(bs, c)
    ensures m.receiver in bs && m.deceased == c
  {
    var i :| 0 <= i < |Broadcast(bs, c)| && Broadcast(bs, c)[i] == m;
  }

  /** A body removed before the `k`-th corpse is processed hears nothing of
      it: with each corpse queued once, the only notices about `cs[k]` are
      those sent while `cs[k]` is processed, and those go to the list as it
      stands then. */
  lemma {:induction false} NoNoticeAfterRemoval(bs: seq<BodyId>, cs: seq<BodyId>, k: nat, b: BodyId)
    requires k < |cs| && b in cs[..k] && NoDuplicates(cs)
    ensures Notice(b, cs[k]) !in DeathNotices(bs, cs)
    decreases |cs|
  {
    var n := |cs| - 1;
    var m := Notice(b, cs[k]);
    var earlier, last := DeathNotices(bs, cs[..n]), Broadcast(Survivors(bs, cs[..n]), cs[n]);
    assert DeathNotices(bs, cs) == earlier + last;
    if k < n {
      assert cs[..n][..k] == cs[..k];
      NoNoticeAfterRemoval(bs, cs[..n], k, b);
      assert cs[k] != cs[n];
      if m in last {
        BroadcastReaches(Survivors(bs, cs[..n]), cs[n], m);
        assert false;
      }
    } else {
      assert cs[n] !in cs[..n];
      if m in earlier {
        NoticesAreAboutCorpses(bs, cs[..n], m);
        assert false;
      }
      SurvivorsAreKept(bs, cs[..n]);
      if m in last {
        BroadcastReaches(Survivors(bs, cs[..n]), cs[n], m);
        assert false;
      }
    }
  }

  /** How many notices of `ms` are `m`. */
  function CountNotice(ms: seq<Notice>, m: Notice): (r: nat)
    ensures r == 0 <==> m !in ms
  {
    if ms == [] then 0 else (if ms[0] == m then 1 else 0) + CountNotice(ms[1..], m)
  }

  lemma {:induction false} CountNoticeAppend(a: seq<Notice>, b: seq<Notice>, m: Notice)
    ensures CountNotice(a + b, m) == CountNotice(a, m) + CountNotice(b, m)
  {
    if a != [] {
      assert (a + b)[1..] == a[1..] + b;
      CountNoticeAppend(a[1..], b, m);
    } else {
      assert a + b == b;
    }
  }

  /** A body listed once hears once of each corpse broadcast to the list. */
  lemma {:induction false} BroadcastOnce(bs: seq<BodyId>, c: BodyId, b: BodyId)
    requires b in bs && NoDuplicates(bs)
    ensures CountNotice(Broadcast(bs, c), Notice(b, c)) == 1
  {
    var r := Broadcast(bs, c);
    assert r[1..] == Broadcast(bs[1..], c);
    if bs[0] == b {
      assert b !in bs[1..];
    } else {
      BroadcastOnce(bs[1..], c, b);
    }
  }

  /** Removing bodies from a list without duplicates leaves none. */
  lemma {:induction false} KeepNoDuplicates(s: seq<BodyId>, gone: set<BodyId>)
    requires NoDuplicates(s)
    ensures NoDuplicates(Keep(s, gone))
  {
    if s != [] {
      KeepNoDuplicates(s[1..], gone);
      assert s[0] !in s[1..];
    }
  }

  /** Each death is announced exactly once to every body listed once and not
      removed before it. */
  lemma {:induction false} NoticeExactlyOnce(bs: seq<BodyId>, cs: seq<BodyId>, k: nat, b: BodyId)
    requires k < |cs| && b in bs && b !in cs[..k] && NoDuplicates(bs) && NoDuplicates(cs)
    ensures CountNotice(DeathNotices(bs, cs), Notice(b, cs[k])) == 1
    decreases |cs|
  {
    var n := |cs| - 1;
    var m := Notice(b, cs[k]);
    var sv := Survivors(bs, cs[..n]);
    var earlier, last := DeathNotices(bs, cs[..n]), Broadcast(sv, cs[n]);
    assert DeathNotices(bs, cs) == earlier + last;
    CountNoticeAppend(earlier, last, m);
    if k < n {
      assert cs[..n][..k] == cs[..k];
      NoticeExactlyOnce(bs, cs[..n], k, b);
      assert cs[k] != cs[n];
      if m in last {
        BroadcastReaches(sv, cs[n], m);
        assert false;
      }
    } else {
      assert cs[n] !in cs[..n];
      if m in earlier {
        NoticesAreAboutCorpses(bs, cs[..n], m);
        assert false;
      }
      SurvivorsAreKept(bs, cs[..n]);
      KeepNoDuplicates(bs, ElementsOf(cs[..n]));
      BroadcastOnce(sv, cs[n], b);
    }
  }
}
