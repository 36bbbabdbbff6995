// Planar patches do not depend on the order in which floods grow, but for their numbers
// (grow_planar_patches in libsimulator/src/geometry/region_split.cpp).
module GrowthOrder {
  import opened Wrappers
  import opened SurfaceMesh
  import opened PatchGrowing

  /** What "exactly coplanar" means between faces: an equivalence. */
  ghost predicate IsEquivalence(coplanar: (nat, nat) -> bool) {
    && (forall f :: coplanar(f, f))
    && (forall f, g :: coplanar(f, g) ==> coplanar(g, f))
    && forall f, g, h :: coplanar(f, g) && coplanar(g, h) ==> coplanar(f, h)
  }

  /** Two assignments of patches, with the rounds in which they came about. */
  datatype Growth = Growth(patchOf: seq<nat>, count: nat, log: seq<Round>)

  /** What the growing is about. */
  datatype Rules = Rules(m: Mesh, fits: (nat, nat) -> bool, coplanar: (nat, nat) -> bool, simple: set<nat> -> bool)

  ghost predicate ValidRules(u: Rules) {
    ValidMesh(u.m) && IsEquivalence(u.coplanar)
  }

  ghost predicate Grew(u: Rules, g: Growth)
    requires ValidRules(u)
  {
    Logged(u.m, u.fits, u.coplanar, u.simple, Complete(g.patchOf), g.count, g.log)
  }

  ghost function Base(g: Growth, k: nat): nat {
    BaseAt(g.log, k, g.count)
  }

  ghost predicate RoundOf(u: Rules, g: Growth, k: nat)
    requires ValidRules(u)
  {
    k < |g.log| && RoundDone(u.m, u.fits, u.coplanar, u.simple, Complete(g.patchOf), g.log[k].faces, Base(g, k),
      Base(g, k + 1))
  }

  lemma RoundIs(u: Rules, g: Growth, k: nat)
    requires ValidRules(u) && Grew(u, g) && k < |g.log|
    ensures RoundOf(u, g, k) && Base(g, k + 1) <= g.count
    ensures forall f: nat :: f in g.log[k].faces <==> f < |g.patchOf| && Base(g, k) <= g.patchOf[f] < Base(g, k + 1)
    ensures g.log[k].faces != []
  {
    assert RoundAt(u.m, u.fits, u.coplanar, u.simple, Complete(g.patchOf), g.count, g.log, k);
    forall f: nat ensures f in g.log[k].faces <==> f < |g.patchOf| && Base(g, k) <= g.patchOf[f] < Base(g, k + 1) {
      assert f in g.log[k].faces <==> Among(Complete(g.patchOf), f, Base(g, k), Base(g, k + 1));
    }
  }

  /** A round starts from the least face without a patch. */
  lemma BeforeStart(u: Rules, g: Growth, k: nat, f: nat)
    requires ValidRules(u) && Grew(u, g) && k < |g.log| && g.log[k].faces != [] && f < g.log[k].faces[0]
    ensures f < |g.patchOf| && g.patchOf[f] < Base(g, k)
  {
    assert RoundAt(u.m, u.fits, u.coplanar, u.simple, Complete(g.patchOf), g.count, g.log, k);
    assert Within(Complete(g.patchOf), f, Base(g, k));
  }

  // ---- Round after round, the same faces ----

  /** Both have given patches to the same faces before round k. */
  ghost predicate AgreeBefore(a: Growth, b: Growth, k: nat) {
    && |a.patchOf| == |b.patchOf|
    && forall f {:trigger a.patchOf[f]} {:trigger b.patchOf[f]} ::
         0 <= f < |a.patchOf| ==> (a.patchOf[f] < Base(a, k) <==> b.patchOf[f] < Base(b, k))
  }

  /** The next round starts from the same face. */
  lemma SameStart(u: Rules, a: Growth, b: Growth, k: nat)
    requires ValidRules(u) && Grew(u, a) && Grew(u, b) && AgreeBefore(a, b, k) && k < |a.log| && k < |b.log|
    ensures a.log[k].faces != [] && b.log[k].faces != [] && a.log[k].faces[0] == b.log[k].faces[0]
  {
    RoundIs(u, a, k);
    RoundIs(u, b, k);
    var s, t := a.log[k].faces[0], b.log[k].faces[0];
    assert s in a.log[k].faces && t in b.log[k].faces;
    if s < t {
      BeforeStart(u, b, k, s);
    } else if t < s {
      BeforeStart(u, a, k, t);
    }
  }

  /** And floods the same faces. */
  lemma FloodReachesToo(u: Rules, a: Growth, b: Growth, k: nat, n: nat)
    requires ValidRules(u) && Grew(u, a) && Grew(u, b) && AgreeBefore(a, b, k) && k < |a.log| && k < |b.log|
    requires n < |a.log[k].faces|
    ensures a.log[k].faces[n] in b.log[k].faces
    decreases n
  {
    SameStart(u, a, b, k);
    RoundIs(u, a, k);
    RoundIs(u, b, k);
    var fa, fb := a.log[k].faces, b.log[k].faces;
    if n > 0 {
      var joins := FromSeed(u.fits, fa[0]);
      assert JoinsAt(u.m, fa, joins, n);
      var j :| 0 <= j < n && Touches(u.m, fa[j], fa[n]);
      FloodReachesToo(u, a, b, k, j);
      assert fa[n] in fa;
      assert fa[n] !in fb ==> Within(Complete(b.patchOf), fa[n], Base(b, k));
    }
  }

  lemma SameFlood(u: Rules, a: Growth, b: Growth, k: nat)
    requires ValidRules(u) && Grew(u, a) && Grew(u, b) && AgreeBefore(a, b, k) && k < |a.log| && k < |b.log|
    ensures forall f: nat :: f in a.log[k].faces <==> f in b.log[k].faces
    ensures Elements(a.log[k].faces) == Elements(b.log[k].faces)
  {
    assert AgreeBefore(b, a, k);
    forall f: nat | f in a.log[k].faces ensures f in b.log[k].faces {
      var n :| 0 <= n < |a.log[k].faces| && a.log[k].faces[n] == f;
      FloodReachesToo(u, a, b, k, n);
    }
    forall f: nat | f in b.log[k].faces ensures f in a.log[k].faces {
      var n :| 0 <= n < |b.log[k].faces| && b.log[k].faces[n] == f;
      FloodReachesToo(u, b, a, k, n);
    }
  }

  /** There is a further round in one only if there is one in the other. */
  lemma RoundInBoth(u: Rules, a: Growth, b: Growth, k: nat)
    requires ValidRules(u) && Grew(u, a) && Grew(u, b) && AgreeBefore(a, b, k) && k < |a.log| && k <= |b.log|
    ensures k < |b.log|
  {
    RoundIs(u, a, k);
    var f := a.log[k].faces[0];
    assert f in a.log[k].faces;
    assert Complete(b.patchOf)[f].value < b.count;
  }

  lemma AgreeNext(u: Rules, a: Growth, b: Growth, k: nat)
    requires ValidRules(u) && Grew(u, a) && Grew(u, b) && AgreeBefore(a, b, k) && k < |a.log| && k < |b.log|
    ensures AgreeBefore(a, b, k + 1)
  {
    RoundIs(u, a, k);
    RoundIs(u, b, k);
    SameFlood(u, a, b, k);
    forall f | 0 <= f < |a.patchOf| ensures a.patchOf[f] < Base(a, k + 1) <==> b.patchOf[f] < Base(b, k + 1) {
      assert a.patchOf[f] < Base(a, k) <==> b.patchOf[f] < Base(b, k);
      assert f in a.log[k].faces <==> f in b.log[k].faces;
    }
  }

  lemma {:induction false} AgreeAlways(u: Rules, a: Growth, b: Growth, k: nat)
    requires ValidRules(u) && Grew(u, a) && Grew(u, b) && k <= |a.log|
    ensures k <= |b.log| && AgreeBefore(a, b, k)
  {
    if k > 0 {
      AgreeAlways(u, a, b, k - 1);
      RoundInBoth(u, a, b, k - 1);
      AgreeNext(u, a, b, k - 1);
    }
  }

  // ---- Within a round, the same parts ----

  lemma TouchesBack(m: Mesh, f: nat, g: nat)
    requires ValidMesh(m) && Touches(m, f, g)
    ensures Touches(m, g, f)
  {
    var h: nat :| h < |m.faceOf| && m.faceOf[h] == Some(f) && m.faceOf[m.opposite[h]] == Some(g);
    assert m.faceOf[m.opposite[m.opposite[h]]] == Some(f);
  }

  /** All faces of a part are coplanar with one another. */
  lemma PartIsCoplanar(u: Rules, patchOf: Assignment, failed: seq<nat>, p: nat, part: seq<nat>, f: nat)
    requires ValidRules(u) && part != [] && IsPart(u.m, u.coplanar, patchOf, failed, p, part) && f in part
    ensures u.coplanar(part[0], f)
  {
    var k :| 0 <= k < |part| && part[k] == f;
    var joins := FromSeedWithin(u.coplanar, part[0], Elements(failed));
    assert k > 0 ==> JoinsAt(u.m, part, joins, k);
  }

  /** Neighbouring coplanar faces of a failed flood end up in the same part, or the second one in an
      earlier part. */
  lemma NotLater(u: Rules, patchOf: seq<nat>, failed: seq<nat>, f: nat, g: nat)
    requires ValidRules(u) && f < |patchOf| && g < |patchOf| && f in failed && g in failed
    requires ExactPart(u.m, u.coplanar, Complete(patchOf), failed, patchOf[f])
    requires Touches(u.m, f, g) && u.coplanar(f, g)
    ensures patchOf[g] <= patchOf[f]
  {
    var p := patchOf[f];
    var part :| part != [] && IsPart(u.m, u.coplanar, Complete(patchOf), failed, p, part);
    assert f in AreaOf(Complete(patchOf), p) && f in Elements(part);
    PartIsCoplanar(u, Complete(patchOf), failed, p, part, f);
    var joins := FromSeedWithin(u.coplanar, part[0], Elements(failed));
    assert joins(g);
    if g in part {
      assert g in Elements(part);
    } else {
      assert Within(Complete(patchOf), g, p);
    }
  }

  lemma NeighboursTogether(u: Rules, patchOf: seq<nat>, failed: seq<nat>, f: nat, g: nat)
    requires ValidRules(u) && f < |patchOf| && g < |patchOf| && f in failed && g in failed
    requires ExactPart(u.m, u.coplanar, Complete(patchOf), failed, patchOf[f])
    requires ExactPart(u.m, u.coplanar, Complete(patchOf), failed, patchOf[g])
    requires Touches(u.m, f, g) && u.coplanar(f, g)
    ensures patchOf[g] == patchOf[f]
  {
    NotLater(u, patchOf, failed, f, g);
    TouchesBack(u.m, f, g);
    NotLater(u, patchOf, failed, g, f);
  }

  /** A part of one growth lies within a part of the other. */
  lemma PartWithin(u: Rules, a: Growth, b: Growth, fa: seq<nat>, fb: seq<nat>, p: nat, part: seq<nat>, n: nat)
    requires ValidRules(u) && part != [] && IsPart(u.m, u.coplanar, Complete(a.patchOf), fa, p, part) && n < |part|
    requires |a.patchOf| == |b.patchOf| && forall f: nat :: f in fa <==> f in fb
    requires forall f: nat :: f in fb ==>
               f < |b.patchOf| && ExactPart(u.m, u.coplanar, Complete(b.patchOf), fb, b.patchOf[f])
    ensures part[0] < |b.patchOf| && part[n] < |b.patchOf| && b.patchOf[part[n]] == b.patchOf[part[0]]
    decreases n
  {
    assert part[n] in part && part[0] in part;
    if n > 0 {
      var joins := FromSeedWithin(u.coplanar, part[0], Elements(fa));
      assert JoinsAt(u.m, part, joins, n);
      var j :| 0 <= j < n && Touches(u.m, part[j], part[n]);
      PartWithin(u, a, b, fa, fb, p, part, j);
      assert part[j] in part;
      PartIsCoplanar(u, Complete(a.patchOf), fa, p, part, part[j]);
      NeighboursTogether(u, b.patchOf, fb, part[j], part[n]);
    }
  }

  /** Faces f and g of round k that share a patch in one growth share one in the other. */
  lemma TogetherInRound(u: Rules, a: Growth, b: Growth, k: nat, f: nat, g: nat)
    requires ValidRules(u) && Grew(u, a) && Grew(u, b) && AgreeBefore(a, b, k) && k < |a.log| && k < |b.log|
    requires f in a.log[k].faces && g in a.log[k].faces && f < |a.patchOf| && g < |a.patchOf|
    requires a.patchOf[f] == a.patchOf[g]
    ensures b.patchOf[f] == b.patchOf[g]
  {
    RoundIs(u, a, k);
    RoundIs(u, b, k);
    SameFlood(u, a, b, k);
    var fa, fb := a.log[k].faces, b.log[k].faces;
    assert f in fb && g in fb;
    if !u.simple(BoundaryOf(u.m, Elements(fa))) {
      assert ExactPart(u.m, u.coplanar, Complete(a.patchOf), fa, a.patchOf[f]);
      var part :| part != [] && IsPart(u.m, u.coplanar, Complete(a.patchOf), fa, a.patchOf[f], part);
      assert f in AreaOf(Complete(a.patchOf), a.patchOf[f]) && g in AreaOf(Complete(a.patchOf), a.patchOf[f]);
      assert f in Elements(part) && g in Elements(part);
      var i :| 0 <= i < |part| && part[i] == f;
      var j :| 0 <= j < |part| && part[j] == g;
      forall x: nat | x in fb ensures x < |b.patchOf| &&
        ExactPart(u.m, u.coplanar, Complete(b.patchOf), fb, b.patchOf[x]) {
      }
      PartWithin(u, a, b, fa, fb, a.patchOf[f], part, i);
      PartWithin(u, a, b, fa, fb, a.patchOf[f], part, j);
    }
  }

  // ---- The partition ----

  /** The round in which face f got its patch. */
  lemma {:induction false} RoundOfFace(u: Rules, g: Growth, f: nat, n: nat) returns (k: nat)
    requires ValidRules(u) && Grew(u, g) && f < |g.patchOf| && n <= |g.log| && g.patchOf[f] < Base(g, n)
    ensures k < n && f in g.log[k].faces
    decreases n
  {
    if n == 0 || g.patchOf[f] >= Base(g, n - 1) {
      k := n - 1;
      RoundIs(u, g, k);
    } else {
      k := RoundOfFace(u, g, f, n - 1);
    }
  }

  ghost predicate SharedPatch(patchOf: seq<nat>, f: nat, g: nat) {
    f < |patchOf| && g < |patchOf| && patchOf[f] == patchOf[g]
  }

  lemma TogetherInBoth(u: Rules, a: Growth, b: Growth, f: nat, g: nat)
    requires ValidRules(u) && Grew(u, a) && Grew(u, b) && SharedPatch(a.patchOf, f, g)
    ensures SharedPatch(b.patchOf, f, g)
  {
    var k := RoundOfFace(u, a, f, |a.log|);
    RoundIs(u, a, k);
    AgreeAlways(u, a, b, k);
    RoundInBoth(u, a, b, k);
    TogetherInRound(u, a, b, k, f, g);
  }

  /** Whatever the order in which floods grow, the same faces end up in one patch, in failed floods
      too. */
  lemma PatchesAreDetermined(u: Rules, a: Growth, b: Growth)
    requires ValidRules(u) && Grew(u, a) && Grew(u, b)
    ensures |a.patchOf| == |b.patchOf|
    ensures forall f: nat, g: nat :: SharedPatch(a.patchOf, f, g) <==> SharedPatch(b.patchOf, f, g)
  {
    forall f: nat, g: nat ensures SharedPatch(a.patchOf, f, g) <==> SharedPatch(b.patchOf, f, g) {
      if SharedPatch(a.patchOf, f, g) {
        TogetherInBoth(u, a, b, f, g);
      }
      if SharedPatch(b.patchOf, f, g) {
        TogetherInBoth(u, b, a, f, g);
      }
    }
  }

  /** Every patch has a face. */
  lemma {:induction false} PatchHasFace(u: Rules, g: Growth, p: nat, n: nat) returns (f: nat)
    requires ValidRules(u) && Grew(u, g) && n <= |g.log| && p < Base(g, n)
    ensures f < |g.patchOf| && g.patchOf[f] == p
    decreases n
  {
    if p < Base(g, n - 1) {
      f := PatchHasFace(u, g, p, n - 1);
    } else {
      var k := n - 1;
      RoundIs(u, g, k);
      var faces := g.log[k].faces;
      if u.simple(BoundaryOf(u.m, Elements(faces))) {
        f := faces[0];
        assert f in faces;
      } else {
        assert ExactPart(u.m, u.coplanar, Complete(g.patchOf), faces, p);
        var part :| part != [] && IsPart(u.m, u.coplanar, Complete(g.patchOf), faces, p, part);
        f := part[0];
        assert f in Elements(part);
      }
    }
  }
}
