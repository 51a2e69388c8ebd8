/** The scene's object lists, their bounds, and the closest-hit search over
    the candidates a bounding-volume traversal yields. Floating-point
    values are modelled as reals; the per-object ray test, the bounds
    computation and the traversal order are supplied from outside. */
module Scene {
  import opened Shared

  datatype Vec3 = Vec3(x: real, y: real, z: real)
  datatype Aabb = Aabb(lo: Vec3, hi: Vec3)
  datatype Sphere = Sphere(center: Vec3, radius: real, material: nat)
  /** A boxed hittable of some other kind; its geometry is opaque here. */
  datatype Hittable = Hittable(shape: nat)
  /** An object the search can test against a ray. */
  datatype Object = OtherObject(hittable: Hittable) | SphereObject(sphere: Sphere)

  /** A bounding box tagged with the position of its object in that
      object's own list. */
  datatype HittableBounds = HittableBounds(aabb: Aabb, hittableIndex: nat)
  /** The acceleration structure, built over the bounds list. */
  datatype Bvh = Bvh(shapeCount: nat)

  datatype RayQuery = RayQuery(origin: Vec3, direction: Vec3, tMin: real, tMax: real)
  datatype HitRecord = HitRecord(t: real, point: Vec3, normal: Vec3, material: nat)

  /** Outcome of `intersect`: the closest hit, or the out-of-bounds panic
      of an object lookup. */
  datatype Intersection = IndexOutOfRange | Closest(hit: Option<HitRecord>)

  function RealMin(a: real, b: real): real { if a <= b then a else b }

  // ---------------------------------------------------------------------
  // The closest-hit fold.

  /** The search state: the current end of the ray interval and the best
      hit so far. */
  datatype Search = Search(tMax: real, closest: Option<HitRecord>)

  /** One loop iteration of `intersect` with probe result `h`: a hit
      shortens the ray; the first hit is kept, and a later one replaces it
      only when strictly closer. */
  function Probe(s: Search, h: Option<HitRecord>): Search
  {
    var tMax := if h.Some? then RealMin(s.tMax, h.value.t) else s.tMax;
    if s.closest.None? then Search(tMax, h)
    else if h.Some? && h.value.t < s.closest.value.t then Search(tMax, h)
    else Search(tMax, s.closest)
  }

  /** The search after testing `objs` in order, each against the ray as
      shortened by the hits before it. */
  function Scan(objs: seq<Object>, query: RayQuery, hit: (Object, RayQuery) -> Option<HitRecord>): Search
  {
    if objs == [] then Search(query.tMax, None)
    else
      var s := Scan(objs[..|objs| - 1], query, hit);
      Probe(s, hit(objs[|objs| - 1], query.(tMax := s.tMax)))
  }

  /** What the test of each candidate returned during the scan. */
  function Probes(objs: seq<Object>, query: RayQuery, hit: (Object, RayQuery) -> Option<HitRecord>): (probes: seq<Option<HitRecord>>)
    ensures |probes| == |objs|
  {
    seq(|objs|, k requires 0 <= k < |objs| => hit(objs[k], query.(tMax := Scan(objs[..k], query, hit).tMax)))
  }

  /** Probe `k` hit, no earlier probe hit as close, and no probe hit closer. */
  predicate FirstClosest(probes: seq<Option<HitRecord>>, k: int)
  {
    && 0 <= k < |probes| && probes[k].Some?
    && (forall j :: 0 <= j < k && probes[j].Some? ==> probes[k].value.t < probes[j].value.t)
    && (forall j :: 0 <= j < |probes| && probes[j].Some? ==> probes[k].value.t <= probes[j].value.t)
  }

  lemma ProbesOfPrefix(objs: seq<Object>, query: RayQuery, hit: (Object, RayQuery) -> Option<HitRecord>)
    requires objs != []
    ensures var init := objs[..|objs| - 1];
      Probes(objs, query, hit) ==
        Probes(init, query, hit) + [hit(objs[|objs| - 1], query.(tMax := Scan(init, query, hit).tMax))]
  {
    var init := objs[..|objs| - 1];
    var probes := Probes(objs, query, hit);
    var shorter := Probes(init, query, hit);
    var last := hit(objs[|objs| - 1], query.(tMax := Scan(init, query, hit).tMax));
    forall k | 0 <= k < |probes| ensures probes[k] == (shorter + [last])[k] {
      if k < |init| {
        assert objs[..k] == init[..k] && objs[k] == init[k];
        assert shorter[k] == hit(init[k], query.(tMax := Scan(init[..k], query, hit).tMax));
      } else {
        assert objs[..k] == init;
      }
    }
  }

  /** The result of the fold: no hit exactly when no probe hit, and
      otherwise the earliest of the closest hits; the interval end is the
      query's, cut down to the closest hit. */
  lemma {:induction false} ScanFindsClosest(objs: seq<Object>, query: RayQuery, hit: (Object, RayQuery) -> Option<HitRecord>)
    ensures var s := Scan(objs, query, hit);
      var probes := Probes(objs, query, hit);
      && (s.closest.None? <==> forall k :: 0 <= k < |probes| ==> probes[k].None?)
      && (s.closest.Some? ==> exists k :: FirstClosest(probes, k) && probes[k] == s.closest)
      && s.tMax == if s.closest.Some? then RealMin(query.tMax, s.closest.value.t) else query.tMax
  {
    if objs != [] {
      var init := objs[..|objs| - 1];
      ScanFindsClosest(init, query, hit);
      ProbesOfPrefix(objs, query, hit);
      var s0 := Scan(init, query, hit);
      var p0 := Probes(init, query, hit);
      var probes := Probes(objs, query, hit);
      var n := |init|;
      var h := probes[n];
      assert forall k :: 0 <= k < n ==> probes[k] == p0[k];
      var s := Scan(objs, query, hit);
      if s0.closest.Some? {
        var k0 :| FirstClosest(p0, k0) && p0[k0] == s0.closest;
        if h.Some? && h.value.t < s0.closest.value.t {
          assert FirstClosest(probes, n);
        } else {
          assert FirstClosest(probes, k0);
        }
      } else if h.Some? {
        assert FirstClosest(probes, n);
      }
    }
  }

  /** The ray never lengthens during the search: the interval end after
      the first `j` candidates is at most the one after the first `i`, and
      at most the query's own. */
  lemma {:induction false} ScanShrinks(objs: seq<Object>, query: RayQuery, hit: (Object, RayQuery) -> Option<HitRecord>, i: nat, j: nat)
    requires i <= j <= |objs|
    ensures Scan(objs[..j], query, hit).tMax <= Scan(objs[..i], query, hit).tMax <= query.tMax
    decreases j, i
  {
    if i < j {
      ScanShrinks(objs, query, hit, i, j - 1);
      assert objs[..j][..j - 1] == objs[..j - 1];
    } else if 0 < i {
      ScanShrinks(objs, query, hit, 0, i);
    }
  }

  /** Every hit any probe produced bounds the final interval end from above. */
  lemma ScanBelowEveryHit(objs: seq<Object>, query: RayQuery, hit: (Object, RayQuery) -> Option<HitRecord>, k: nat)
    requires k < |objs| && Probes(objs, query, hit)[k].Some?
    ensures Scan(objs, query, hit).tMax <= Probes(objs, query, hit)[k].value.t
  {
    var probes := Probes(objs, query, hit);
    ScanShrinks(objs, query, hit, k + 1, |objs|);
    assert objs[..k + 1][..k] == objs[..k];
    assert objs[..|objs|] == objs;
  }

  // ---------------------------------------------------------------------
  // Bounds and lookup as written.

  /** The bounds `build_bvh` appends: one per object of `objects_other`,
      then one per sphere, each tagged with its position in its own list. */
  function BuiltBounds(others: seq<Hittable>, spheres: seq<Sphere>,
                       otherAabb: Hittable -> Aabb, sphereAabb: Sphere -> Aabb): seq<HittableBounds>
  {
    seq(|others|, i requires 0 <= i < |others| => HittableBounds(otherAabb(others[i]), i)) +
    seq(|spheres|, i requires 0 <= i < |spheres| => HittableBounds(sphereAabb(spheres[i]), i))
  }

  lemma BuiltBoundsLayout(others: seq<Hittable>, spheres: seq<Sphere>,
                          otherAabb: Hittable -> Aabb, sphereAabb: Sphere -> Aabb)
    ensures var bounds := BuiltBounds(others, spheres, otherAabb, sphereAabb);
      && |bounds| == |others| + |spheres|
      && (forall i :: 0 <= i < |others| ==> bounds[i] == HittableBounds(otherAabb(others[i]), i))
      && (forall i :: 0 <= i < |spheres| ==> bounds[|others| + i] == HittableBounds(sphereAabb(spheres[i]), i))
  {
  }

  /** Every traversed bound's index is a valid position in `objects_sphere`. */
  predicate SphereIndexed(spheres: seq<Sphere>, bounds: seq<HittableBounds>, traversal: seq<nat>)
    requires forall k :: 0 <= k < |traversal| ==> traversal[k] < |bounds|
  {
    forall k :: 0 <= k < |traversal| ==> bounds[traversal[k]].hittableIndex < |spheres|
  }

  /** The objects `intersect` tests: always the sphere at the bound's index. */
  function SphereCandidates(spheres: seq<Sphere>, bounds: seq<HittableBounds>, traversal: seq<nat>): (objs: seq<Object>)
    requires forall k :: 0 <= k < |traversal| ==> traversal[k] < |bounds|
    requires SphereIndexed(spheres, bounds, traversal)
    ensures |objs| == |traversal|
  {
    seq(|traversal|, k requires 0 <= k < |traversal| => SphereObject(spheres[bounds[traversal[k]].hittableIndex]))
  }

  /** `intersect` as written: no index, no hit; a bound whose index is past
      the sphere list panics; otherwise the closest hit among the spheres
      so looked up. */
  function IntersectAsWritten(spheres: seq<Sphere>, bounds: seq<HittableBounds>, bvh: Option<Bvh>,
                              traversal: seq<nat>, query: RayQuery, hit: (Object, RayQuery) -> Option<HitRecord>): Intersection
    requires forall k :: 0 <= k < |traversal| ==> traversal[k] < |bounds|
  {
    if bvh.None? then Closest(None)
    else if !SphereIndexed(spheres, bounds, traversal) then IndexOutOfRange
    else Closest(Scan(SphereCandidates(spheres, bounds, traversal), query, hit).closest)
  }

  /** The lookup error: once `objects_other` is non-empty, its first bound
      (index 0) is resolved in the sphere list, so it is tested as the
      first sphere instead of as itself, and with no spheres at all the
      lookup panics. */
  lemma OtherBoundsMisresolved(o: Hittable, s: Sphere, otherAabb: Hittable -> Aabb, sphereAabb: Sphere -> Aabb,
                               query: RayQuery, hit: (Object, RayQuery) -> Option<HitRecord>)
    ensures var bounds := BuiltBounds([o], [s], otherAabb, sphereAabb);
      SphereCandidates([s], bounds, [0]) == [SphereObject(s)]
    ensures var bounds := BuiltBounds([o], [], otherAabb, sphereAabb);
      IntersectAsWritten([], bounds, Some(Bvh(1)), [0], query, hit) == IndexOutOfRange
  {
    var bounds := BuiltBounds([o], [s], otherAabb, sphereAabb);
    assert bounds[0] == HittableBounds(otherAabb(o), 0);
    var lone := BuiltBounds([o], [], otherAabb, sphereAabb);
    assert lone[0].hittableIndex == 0;
  }

  // ---------------------------------------------------------------------
  // Bounds that record which list their object is in.

  datatype ObjectKind = OtherKind | SphereKind
  datatype TaggedBounds = TaggedBounds(aabb: Aabb, kind: ObjectKind, hittableIndex: nat)

  /** The bounds as `build_bvh` evidently means them: each also records
      which list its object is in. */
  function BuiltTaggedBounds(others: seq<Hittable>, spheres: seq<Sphere>,
                             otherAabb: Hittable -> Aabb, sphereAabb: Sphere -> Aabb): seq<TaggedBounds>
  {
    seq(|others|, i requires 0 <= i < |others| => TaggedBounds(otherAabb(others[i]), OtherKind, i)) +
    seq(|spheres|, i requires 0 <= i < |spheres| => TaggedBounds(sphereAabb(spheres[i]), SphereKind, i))
  }

  /** The object a tagged bound stands for, looked up in the list it names. */
  function Resolve(others: seq<Hittable>, spheres: seq<Sphere>, b: TaggedBounds): Option<Object>
  {
    match b.kind
    case OtherKind => if b.hittableIndex < |others| then Some(OtherObject(others[b.hittableIndex])) else None
    case SphereKind => if b.hittableIndex < |spheres| then Some(SphereObject(spheres[b.hittableIndex])) else None
  }

  /** The object whose bounds sit at position `p` of the built list. */
  function BuiltObject(others: seq<Hittable>, spheres: seq<Sphere>, p: nat): Object
    requires p < |others| + |spheres|
  {
    if p < |others| then OtherObject(others[p]) else SphereObject(spheres[p - |others|])
  }

  /** Every built tagged bound resolves, to exactly the object it was built
      from. */
  lemma TaggedBoundsResolveToOwnObject(others: seq<Hittable>, spheres: seq<Sphere>,
                                       otherAabb: Hittable -> Aabb, sphereAabb: Sphere -> Aabb, p: nat)
    requires p < |BuiltTaggedBounds(others, spheres, otherAabb, sphereAabb)|
    ensures p < |others| + |spheres|
    ensures Resolve(others, spheres, BuiltTaggedBounds(others, spheres, otherAabb, sphereAabb)[p]) ==
      Some(BuiltObject(others, spheres, p))
  {
  }

  /** `intersect` with lookup by the recorded list: a bound that does not
      resolve would still be an index panic. */
  function IntersectTagged(others: seq<Hittable>, spheres: seq<Sphere>, bounds: seq<TaggedBounds>, bvh: Option<Bvh>,
                           traversal: seq<nat>, query: RayQuery, hit: (Object, RayQuery) -> Option<HitRecord>): Intersection
    requires forall k :: 0 <= k < |traversal| ==> traversal[k] < |bounds|
  {
    if bvh.None? then Closest(None)
    else if exists k :: 0 <= k < |traversal| && Resolve(others, spheres, bounds[traversal[k]]).None? then IndexOutOfRange
    else Closest(Scan(seq(|traversal|, k requires 0 <= k < |traversal| && Resolve(others, spheres, bounds[traversal[k]]).Some? =>
                        Resolve(others, spheres, bounds[traversal[k]]).value), query, hit).closest)
  }

  /** With bounds built by `BuiltTaggedBounds`, the corrected search never
      panics and tests every traversed bound against the object it was
      built from, of either kind. */
  lemma IntersectTaggedTestsOwnObjects(others: seq<Hittable>, spheres: seq<Sphere>,
                                       otherAabb: Hittable -> Aabb, sphereAabb: Sphere -> Aabb,
                                       traversal: seq<nat>, query: RayQuery, hit: (Object, RayQuery) -> Option<HitRecord>)
    requires forall k :: 0 <= k < |traversal| ==> traversal[k] < |others| + |spheres|
    ensures var bounds := BuiltTaggedBounds(others, spheres, otherAabb, sphereAabb);
      var objs := seq(|traversal|, k requires 0 <= k < |traversal| => BuiltObject(others, spheres, traversal[k]));
      IntersectTagged(others, spheres, bounds, Some(Bvh(|bounds|)), traversal, query, hit) ==
        Closest(Scan(objs, query, hit).closest)
  {
    var bounds := BuiltTaggedBounds(others, spheres, otherAabb, sphereAabb);
    forall k | 0 <= k < |traversal|
      ensures Resolve(others, spheres, bounds[traversal[k]]) == Some(BuiltObject(others, spheres, traversal[k]))
    {
      TaggedBoundsResolveToOwnObject(others, spheres, otherAabb, sphereAabb, traversal[k]);
    }
    var objs := seq(|traversal|, k requires 0 <= k < |traversal| => BuiltObject(others, spheres, traversal[k]));
    var resolved := seq(|traversal|, k requires 0 <= k < |traversal| && Resolve(others, spheres, bounds[traversal[k]]).Some? =>
                        Resolve(others, spheres, bounds[traversal[k]]).value);
    assert resolved == objs;
  }

  // ---------------------------------------------------------------------
  // The scene.

  class Scene {
    var objectsOther: seq<Hittable>
    var objectsSphere: seq<Sphere>
    var bounds: seq<HittableBounds>
    var bvh: Option<Bvh>

    /** `Scene::new()`: no objects, no bounds, no index. */
    constructor ()
      ensures objectsOther == [] && objectsSphere == [] && bounds == [] && bvh == None
    {
      objectsOther, objectsSphere, bounds, bvh := [], [], [], None;
    }

    /** `add_sphere`: the sphere joins the end of the sphere list. */
    method AddSphere(s: Sphere)
      modifies this
      ensures objectsSphere == old(objectsSphere) + [s]
      ensures objectsOther == old(objectsOther) && bounds == old(bounds) && bvh == old(bvh)
    {
      objectsSphere := objectsSphere + [s];
    }

    /** `build_bvh`: append the bounds of every object (other objects first)
        to whatever bounds exist, then build the index over them. */
    method BuildBvh(otherAabb: Hittable -> Aabb, sphereAabb: Sphere -> Aabb)
      modifies this
      ensures bounds == old(bounds) + BuiltBounds(objectsOther, objectsSphere, otherAabb, sphereAabb)
      ensures bvh == Some(Bvh(|bounds|))
      ensures objectsOther == old(objectsOther) && objectsSphere == old(objectsSphere)
    {
      var others, spheres := objectsOther, objectsSphere;
      var i := 0;
      while i < |others|
        invariant 0 <= i <= |others|
        invariant others == objectsOther && spheres == objectsSphere
        invariant bounds == old(bounds) + seq(i, j requires 0 <= j < i => HittableBounds(otherAabb(others[j]), j))
      {
        bounds := bounds + [HittableBounds(otherAabb(others[i]), i)];
        i := i + 1;
      }
      ghost var mid := bounds;
      i := 0;
      while i < |spheres|
        invariant 0 <= i <= |spheres|
        invariant others == objectsOther && spheres == objectsSphere
        invariant bounds == mid + seq(i, j requires 0 <= j < i => HittableBounds(sphereAabb(spheres[j]), j))
      {
        bounds := bounds + [HittableBounds(sphereAabb(spheres[i]), i)];
        i := i + 1;
      }
      bvh := Some(Bvh(|bounds|));
    }

    /** `intersect`: walk the traversal's candidates, test each one's object
        against the current ray, shorten the ray on every hit and keep the
        closest hit, the earlier one on ties. `traversal` lists the
        positions, in the bounds list, of the candidates the index yields. */
    method Intersect(query: RayQuery, traversal: seq<nat>, hit: (Object, RayQuery) -> Option<HitRecord>) returns (res: Intersection)
      requires forall k :: 0 <= k < |traversal| ==> traversal[k] < |bounds|
      ensures res == IntersectAsWritten(objectsSphere, bounds, bvh, traversal, query, hit)
    {
      var closest: Option<HitRecord> := None;
      if bvh.None? {
        return Closest(closest);
      }
      var q := query;
      var i := 0;
      while i < |traversal|
        invariant 0 <= i <= |traversal|
        invariant SphereIndexed(objectsSphere, bounds, traversal[..i])
        invariant Search(q.tMax, closest) == Scan(SphereCandidates(objectsSphere, bounds, traversal[..i]), query, hit)
        invariant q == query.(tMax := q.tMax)
      {
        var b := bounds[traversal[i]];
        if b.hittableIndex >= |objectsSphere| {
          assert !SphereIndexed(objectsSphere, bounds, traversal) by {
            assert bounds[traversal[i]].hittableIndex >= |objectsSphere|;
          }
          return IndexOutOfRange;
        }
        ghost var before := SphereCandidates(objectsSphere, bounds, traversal[..i]);
        assert SphereCandidates(objectsSphere, bounds, traversal[..i + 1]) ==
          before + [SphereObject(objectsSphere[b.hittableIndex])];
        var h := hit(SphereObject(objectsSphere[b.hittableIndex]), q);
        if h.Some? {
          q := q.(tMax := RealMin(q.tMax, h.value.t));
        }
        if closest.None? {
          closest := h;
        } else if h.Some? {
          if h.value.t < closest.value.t {
            closest := h;
          }
        }
        i := i + 1;
      }
      assert traversal[..i] == traversal;
      return Closest(closest);
    }
  }
}
