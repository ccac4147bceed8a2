/** The painter's order of `Render`: every body gets its distance from the
    camera, the entries are sorted farthest first with `body_zsort_compare`,
    and the bodies are drawn in that order. */
module ZSort {
  import opened Common

  /** `body_zsort_t`: a body and its distance from the camera. */
  datatype ZEntry = ZEntry(dist: real, b: BodyId)

  /** `body_zsort_compare`: `a` goes before `b` when it is farther away. */
  predicate FartherFirst(a: ZEntry, b: ZEntry)
  {
    a.dist > b.dist
  }

  /** No entry comes after one it should go before. */
  predicate Sorted(s: seq<ZEntry>)
  {
    forall i, j :: 0 <= i < j < |s| ==> !FartherFirst(s[j], s[i])
  }

  /** Sorted by the comparator is the same as non-increasing distance. */
  lemma SortedIsNonIncreasing(s: seq<ZEntry>)
    ensures Sorted(s) <==> forall i, j :: 0 <= i < j < |s| ==> s[i].dist >= s[j].dist
  {
  }

  /** The entries the fill loop of `Render` builds from the body list. */
  function Entries(bodies: seq<BodyId>, dist: BodyId -> real): (r: seq<ZEntry>)
    ensures |r| == |bodies|
    ensures forall k :: 0 <= k < |r| ==> r[k] == ZEntry(dist(bodies[k]), bodies[k])
  {
    seq(|bodies|, k requires 0 <= k < |bodies| => ZEntry(dist(bodies[k]), bodies[k]))
  }

  /** `sort(bz, bz + n, body_zsort_compare())` on the entry array. The
      library's algorithm is not specified beyond its result, so an
      insertion sort stands for it: the array ends up sorted and holds
      the same entries. */
  method Sort(a: array<ZEntry>)
    modifies a
    ensures Sorted(a[..])
    ensures multiset(a[..]) == multiset(old(a[..]))
  {
    var i := 0;
    while i < a.Length
      invariant 0 <= i <= a.Length
      invariant forall k, l :: 0 <= k < l < i ==> a[k].dist >= a[l].dist
      invariant multiset(a[..]) == multiset(old(a[..]))
    {
      Insert(a, i);
      i := i + 1;
    }
  }

  /** One pass of the insertion sort: `a[i]` moves down past every entry
      nearer than it, so the first `i + 1` entries are in order. */
  method Insert(a: array<ZEntry>, i: nat)
    requires i < a.Length
    requires forall k, l :: 0 <= k < l < i ==> a[k].dist >= a[l].dist
    modifies a
    ensures forall k, l :: 0 <= k < l <= i ==> a[k].dist >= a[l].dist
    ensures multiset(a[..]) == multiset(old(a[..]))
  {
    var j := i;
    while j > 0 && FartherFirst(a[j], a[j - 1])
      invariant 0 <= j <= i
      invariant forall k, l :: 0 <= k < l <= i && k != j && l != j ==> a[k].dist >= a[l].dist
      invariant forall l :: j < l <= i ==> a[j].dist > a[l].dist
      invariant multiset(a[..]) == multiset(old(a[..]))
    {
      a[j], a[j - 1] := a[j - 1], a[j];
      j := j - 1;
    }
  }

  /** `Render`: fills the entry array from the body list, sorts it, and
      returns the entries in drawing order. The distance of each body from
      the camera (`GetPositionRelTo(cam_frame).Length()`) is the input
      `dist`; the drawing itself is not modelled. */
  method Render(bodies: seq<BodyId>, dist: BodyId -> real) returns (order: seq<ZEntry>)
    ensures multiset(order) == multiset(Entries(bodies, dist))
    ensures Sorted(order)
    ensures forall k :: 0 <= k < |order| ==> order[k].dist == dist(order[k].b)
  {
    var bz := new ZEntry[|bodies|];
    var idx := 0;
    while idx < |bodies|
      invariant 0 <= idx <= |bodies|
      invariant bz[..idx] == Entries(bodies, dist)[..idx]
    {
      bz[idx] := ZEntry(dist(bodies[idx]), bodies[idx]);
      idx := idx + 1;
    }
    assert bz[..] == bz[..idx] == Entries(bodies, dist);
    Sort(bz);
    order := bz[..];
    forall k | 0 <= k < |order|
      ensures order[k].dist == dist(order[k].b)
    {
      assert order[k] in multiset(order);
      assert order[k] in Entries(bodies, dist);
    }
  }

  /** Drawing farthest first: a body drawn before another is at least as
      far from the camera. */
  lemma FarthestDrawnFirst(bodies: seq<BodyId>, dist: BodyId -> real, order: seq<ZEntry>)
    requires multiset(order) == multiset(Entries(bodies, dist)) && Sorted(order)
    ensures forall i, j :: 0 <= i < j < |order| ==> dist(order[i].b) >= dist(order[j].b)
    ensures forall k :: 0 <= k < |bodies| ==> ZEntry(dist(bodies[k]), bodies[k]) in order
  {
    forall k | 0 <= k < |order|
      ensures order[k].dist == dist(order[k].b)
    {
      assert order[k] in multiset(order);
      assert order[k] in Entries(bodies, dist);
    }
    forall k | 0 <= k < |bodies|
      ensures ZEntry(dist(bodies[k]), bodies[k]) in order
    {
      assert Entries(bodies, dist)[k] in multiset(order);
    }
  }
}
