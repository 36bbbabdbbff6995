// Growing planar patches (grow_planar_patches and resplit_exactly_coplanar in
// libsimulator/src/geometry/region_split.cpp). Fitting a seed's plane, exact coplanarity and the
// projection certificate are parameters.
module PatchGrowing {
  import opened Sequences
  import opened Wrappers
  import opened SurfaceMesh
  import opened RegionMerging

  /** The patch of each face, as far as faces have one. */
  type Assignment = seq<Option<nat>>

  function AreaOf(patchOf: Assignment, p: nat): set<nat> {
    set f | 0 <= f < |patchOf| && patchOf[f] == Some(p)
  }

  function Elements(faces: seq<nat>): set<nat> {
    set f | f in faces
  }

  /** The face across the k-th side of face f. */
  function Across(m: Mesh, f: nat, k: nat): Option<nat>
    requires ValidMesh(m) && f < |m.around| && k < |m.around[f]|
  {
    assert m.around[f][k] in m.around[f];
    m.faceOf[m.opposite[m.around[f][k]]]
  }

  lemma AcrossIsFace(m: Mesh, f: nat, k: nat)
    requires ValidMesh(m) && f < |m.around| && k < |m.around[f]| && Across(m, f, k).Some?
    ensures Across(m, f, k).value < |m.around|
  {
    assert m.around[f][k] in m.around[f];
  }

  /** An edge has f on one side and g on the other. */
  ghost predicate Touches(m: Mesh, f: nat, g: nat)
    requires ValidMesh(m)
  {
    exists h: nat :: h < |m.faceOf| && m.faceOf[h] == Some(f) && m.faceOf[m.opposite[h]] == Some(g)
  }

  lemma TouchesAcross(m: Mesh, f: nat, k: nat)
    requires ValidMesh(m) && f < |m.around| && k < |m.around[f]| && Across(m, f, k).Some?
    ensures Touches(m, f, Across(m, f, k).value)
  {
    assert m.around[f][k] in m.around[f];
  }

  lemma AcrossTouching(m: Mesh, f: nat, g: nat) returns (k: nat)
    requires ValidMesh(m) && Touches(m, f, g)
    ensures f < |m.around| && k < |m.around[f]| && Across(m, f, k) == Some(g)
  {
    var h: nat :| h < |m.faceOf| && m.faceOf[h] == Some(f) && m.faceOf[m.opposite[h]] == Some(g);
    assert h in m.around[f];
    k :| k < |m.around[f]| && m.around[f][k] == h;
  }

  // ---- One flood ----

  /** The k-th face joins, and touches an earlier one. */
  ghost predicate JoinsAt(m: Mesh, faces: seq<nat>, joins: nat -> bool, k: nat)
    requires ValidMesh(m)
  {
    0 < k < |faces| && joins(faces[k]) && exists j :: 0 <= j < k && Touches(m, faces[j], faces[k])
  }

  /** The faces hang together from the first one on, and all others join. */
  ghost predicate Connected(m: Mesh, faces: seq<nat>, joins: nat -> bool)
    requires ValidMesh(m)
  {
    faces != [] && forall k: nat {:trigger JoinsAt(m, faces, joins, k)} :: 0 < k < |faces| ==>
      JoinsAt(m, faces, joins, k)
  }

  lemma ConnectedOneMore(m: Mesh, faces: seq<nat>, joins: nat -> bool, f: nat, g: nat)
    requires ValidMesh(m) && Connected(m, faces, joins) && f in faces && Touches(m, f, g) && joins(g)
    ensures Connected(m, faces + [g], joins)
  {
    var faces' := faces + [g];
    var i :| 0 <= i < |faces| && faces[i] == f;
    forall k: nat | 0 < k < |faces'| ensures JoinsAt(m, faces', joins, k) {
      if k < |faces| {
        assert JoinsAt(m, faces, joins, k);
        var j :| 0 <= j < k && Touches(m, faces[j], faces[k]);
        assert Touches(m, faces'[j], faces'[k]);
      } else {
        assert Touches(m, faces'[i], faces'[k]);
      }
    }
  }

  /** Across the first n sides of f there is nothing left that could join. */
  ghost predicate SettledUpTo(m: Mesh, patchOf: Assignment, joins: nat -> bool, f: nat, n: nat)
    requires ValidMesh(m) && |patchOf| == |m.around|
  {
    && f < |m.around| && n <= |m.around[f]|
    && forall k: nat {:trigger Across(m, f, k)} :: k < n ==>
         var g := Across(m, f, k); g.Some? ==> g.value < |m.around| && (patchOf[g.value].Some? || !joins(g.value))
  }

  ghost predicate Settled(m: Mesh, patchOf: Assignment, joins: nat -> bool, f: nat)
    requires ValidMesh(m) && |patchOf| == |m.around|
  {
    f < |m.around| && SettledUpTo(m, patchOf, joins, f, |m.around[f]|)
  }

  /** The faces marked with the new id, all unassigned before. */
  ghost predicate Marked(before: Assignment, patchOf: Assignment, faces: seq<nat>, id: nat) {
    && |patchOf| == |before|
    && NoDuplicates(faces)
    && (forall f :: f in faces ==> f < |before| && before[f].None?)
    && forall f :: 0 <= f < |before| ==> patchOf[f] == if f in faces then Some(id) else before[f]
  }

  /** The flood with `waiting` faces still to be looked around from. */
  ghost predicate Flooding(
    m: Mesh, before: Assignment, patchOf: Assignment, joins: nat -> bool, id: nat, seed: nat, faces: seq<nat>,
    waiting: nat)
    requires ValidMesh(m)
  {
    && |before| == |m.around|
    && Marked(before, patchOf, faces, id)
    && Connected(m, faces, joins) && faces[0] == seed
    && waiting <= |faces|
    && forall i {:trigger faces[i]} :: 0 <= i < |faces| - waiting ==> Settled(m, patchOf, joins, faces[i])
  }

  lemma StaysSettled(m: Mesh, patchOf: Assignment, joins: nat -> bool, f: nat, n: nat, g: nat, id: nat)
    requires ValidMesh(m) && |patchOf| == |m.around| && g < |patchOf| && SettledUpTo(m, patchOf, joins, f, n)
    ensures SettledUpTo(m, patchOf[g := Some(id)], joins, f, n)
  {
  }

  lemma JoinFlood(
    m: Mesh, before: Assignment, patchOf: Assignment, joins: nat -> bool, id: nat, seed: nat, faces: seq<nat>,
    waiting: nat, f: nat, g: nat)
    requires ValidMesh(m) && Flooding(m, before, patchOf, joins, id, seed, faces, waiting)
    requires f in faces && Touches(m, f, g) && g < |patchOf| && patchOf[g].None? && joins(g)
    ensures Flooding(m, before, patchOf[g := Some(id)], joins, id, seed, faces + [g], waiting + 1)
  {
    assert g !in faces;
    NoDuplicatesConcat(faces, [g]);
    ConnectedOneMore(m, faces, joins, f, g);
    forall i | 0 <= i < |faces| - waiting ensures Settled(m, patchOf[g := Some(id)], joins, faces[i]) {
      StaysSettled(m, patchOf, joins, faces[i], |m.around[faces[i]]|, g, id);
    }
  }

  function Unassigned(patchOf: Assignment): nat {
    if patchOf == [] then 0 else Unassigned(patchOf[..|patchOf| - 1]) + (if patchOf[|patchOf| - 1].None? then 1 else 0)
  }

  lemma {:induction false} AssignOne(patchOf: Assignment, f: nat, id: nat)
    requires f < |patchOf| && patchOf[f].None?
    ensures Unassigned(patchOf[f := Some(id)]) == Unassigned(patchOf) - 1
  {
    var n := |patchOf| - 1;
    if f == n {
      assert patchOf[f := Some(id)][..n] == patchOf[..n];
    } else {
      assert patchOf[f := Some(id)][..n] == patchOf[..n][f := Some(id)];
      AssignOne(patchOf[..n], f, id);
    }
  }

  /** Part-way around face f: across its first k sides, what joins has been marked and listed after
      the faces `listed` before. */
  ghost predicate Looking(
    m: Mesh, before: Assignment, start: Assignment, joins: nat -> bool, id: nat, seed: nat, listed: seq<nat>,
    waiting: nat, f: nat, patchOf: Assignment, faces: seq<nat>, k: nat)
    requires ValidMesh(m)
  {
    && 0 < waiting <= |listed| <= |faces| && faces[..|listed|] == listed && f == listed[|listed| - waiting]
    && Flooding(m, before, patchOf, joins, id, seed, faces, waiting + |faces| - |listed|)
    && SettledUpTo(m, patchOf, joins, f, k)
    && Unassigned(patchOf) <= Unassigned(start) && (|faces| > |listed| ==> Unassigned(patchOf) < Unassigned(start))
  }

  lemma LookJoin(
    m: Mesh, before: Assignment, start: Assignment, joins: nat -> bool, id: nat, seed: nat, listed: seq<nat>,
    waiting: nat, f: nat, patchOf: Assignment, faces: seq<nat>, k: nat)
    requires ValidMesh(m) && Looking(m, before, start, joins, id, seed, listed, waiting, f, patchOf, faces, k)
    requires k < |m.around[f]| && Across(m, f, k).Some? && Across(m, f, k).value < |patchOf|
    requires patchOf[Across(m, f, k).value].None? && joins(Across(m, f, k).value)
    ensures var g := Across(m, f, k).value;
            Looking(m, before, start, joins, id, seed, listed, waiting, f, patchOf[g := Some(id)], faces + [g], k + 1)
  {
    var g := Across(m, f, k).value;
    TouchesAcross(m, f, k);
    assert faces[..|listed|][|listed| - waiting] == f;
    JoinFlood(m, before, patchOf, joins, id, seed, faces, waiting + |faces| - |listed|, f, g);
    StaysSettled(m, patchOf, joins, f, k, g, id);
    AssignOne(patchOf, g, id);
    assert (faces + [g])[..|listed|] == faces[..|listed|];
  }

  lemma LookedAround(
    m: Mesh, before: Assignment, start: Assignment, joins: nat -> bool, id: nat, seed: nat, listed: seq<nat>,
    waiting: nat, f: nat, patchOf: Assignment, faces: seq<nat>)
    requires ValidMesh(m) && f < |m.around|
    requires Looking(m, before, start, joins, id, seed, listed, waiting, f, patchOf, faces, |m.around[f]|)
    ensures Flooding(m, before, patchOf, joins, id, seed, faces, waiting - 1 + |faces| - |listed|)
  {
    assert faces[..|listed|][|listed| - waiting] == f;
  }

  /** Look around from face f: mark and list the neighbours that join. */
  method LookAround(
    m: Mesh, ghost before: Assignment, start: Assignment, joins: nat -> bool, id: nat, ghost seed: nat,
    listed: seq<nat>, ghost waiting: nat, f: nat)
    returns (patchOf: Assignment, faces: seq<nat>)
    requires ValidMesh(m) && Flooding(m, before, start, joins, id, seed, listed, waiting)
    requires 0 < waiting && f == listed[|listed| - waiting]
    ensures |faces| >= |listed| && faces[..|listed|] == listed
    ensures Flooding(m, before, patchOf, joins, id, seed, faces, waiting - 1 + |faces| - |listed|)
    ensures Unassigned(patchOf) <= Unassigned(start) && (|faces| > |listed| ==> Unassigned(patchOf) < Unassigned(start))
  {
    patchOf, faces := start, listed;
    assert f in listed;
    for k: nat := 0 to |m.around[f]|
      invariant Looking(m, before, start, joins, id, seed, listed, waiting, f, patchOf, faces, k)
    {
      var g := Across(m, f, k);
      if g.Some? {
        AcrossIsFace(m, f, k);
        if patchOf[g.value].None? && joins(g.value) {
          LookJoin(m, before, start, joins, id, seed, listed, waiting, f, patchOf, faces, k);
          patchOf := patchOf[g.value := Some(id)];
          faces := faces + [g.value];
        }
      }
    }
    LookedAround(m, before, start, joins, id, seed, listed, waiting, f, patchOf, faces);
  }

  /** The flood from a seed: it marks the faces that can be reached from the seed through faces
      that join, and stops where nothing unassigned joins. */
  method Flood(
    m: Mesh, before: Assignment, seed: nat, id: nat, joins: nat -> bool)
    returns (patchOf: Assignment, faces: seq<nat>)
    requires ValidMesh(m) && |before| == |m.around| && seed < |before| && before[seed].None?
    ensures Flooding(m, before, patchOf, joins, id, seed, faces, 0)
  {
    patchOf, faces := before[seed := Some(id)], [seed];
    var frontier := [seed];
    while frontier != []
      invariant |frontier| <= |faces| && frontier == faces[|faces| - |frontier|..]
      invariant Flooding(m, before, patchOf, joins, id, seed, faces, |frontier|)
      decreases Unassigned(patchOf), |frontier|
    {
      var f := frontier[0];
      var listed := faces;
      patchOf, faces := LookAround(m, before, patchOf, joins, id, seed, faces, |frontier|, f);
      frontier := frontier[1..] + faces[|listed|..];
      assert faces == listed + faces[|listed|..];
    }
  }

  /** Whatever the order in which a flood grows, it marks the same faces. */
  lemma FloodIsDetermined(
    m: Mesh, before: Assignment, joins: nat -> bool, id: nat, seed: nat, p1: Assignment, faces1: seq<nat>,
    p2: Assignment, faces2: seq<nat>)
    requires ValidMesh(m)
    requires Flooding(m, before, p1, joins, id, seed, faces1, 0) && Flooding(m, before, p2, joins, id, seed, faces2, 0)
    ensures p1 == p2
  {
    forall k: nat | k < |faces1| ensures faces1[k] in faces2 {
      FloodReaches(m, before, joins, id, seed, p1, faces1, p2, faces2, k);
    }
    forall k: nat | k < |faces2| ensures faces2[k] in faces1 {
      FloodReaches(m, before, joins, id, seed, p2, faces2, p1, faces1, k);
    }
    forall f | 0 <= f < |before| ensures f in faces1 <==> f in faces2 {
    }
  }

  lemma {:induction false} FloodReaches(
    m: Mesh, before: Assignment, joins: nat -> bool, id: nat, seed: nat, p1: Assignment, faces1: seq<nat>,
    p2: Assignment, faces2: seq<nat>, k: nat)
    requires ValidMesh(m)
    requires Flooding(m, before, p1, joins, id, seed, faces1, 0) && Flooding(m, before, p2, joins, id, seed, faces2, 0)
    requires k < |faces1|
    ensures faces1[k] in faces2
    decreases k
  {
    if k > 0 {
      assert JoinsAt(m, faces1, joins, k);
      var j :| 0 <= j < k && Touches(m, faces1[j], faces1[k]);
      FloodReaches(m, before, joins, id, seed, p1, faces1, p2, faces2, j);
      assert faces1[k] in faces1;
      NothingLeft(m, p2, joins, faces2, faces1[j], faces1[k]);
    }
  }

  /** Around settled faces, whatever joins is assigned. */
  lemma NothingLeft(m: Mesh, patchOf: Assignment, joins: nat -> bool, faces: seq<nat>, f: nat, g: nat)
    requires ValidMesh(m) && |patchOf| == |m.around| && f in faces && Touches(m, f, g) && joins(g)
    requires forall i {:trigger faces[i]} :: 0 <= i < |faces| ==> Settled(m, patchOf, joins, faces[i])
    ensures g < |patchOf| && patchOf[g].Some?
  {
    var i :| 0 <= i < |faces| && faces[i] == f;
    assert Settled(m, patchOf, joins, faces[i]);
    var k := AcrossTouching(m, f, g);
  }

  // ---- One patch ----

  /** The boundary halfedges of the faces with patch id, walking only these faces. */
  method PatchBoundary(m: Mesh, faces: seq<nat>, patchOf: Assignment, id: nat) returns (boundary: seq<nat>)
    requires ValidMesh(m) && |patchOf| == |m.around| && NoDuplicates(faces) && Elements(faces) == AreaOf(patchOf, id)
    ensures ListsBoundary(m, AreaOf(patchOf, id), boundary)
  {
    boundary := [];
    assert forall f :: f in faces <==> f in AreaOf(patchOf, id);
    for i := 0 to |faces|
      invariant ListsPart(m, AreaOf(patchOf, id), boundary, faces[..i], [])
    {
      var f := faces[i];
      assert f in faces && f !in faces[..i];
      for k := 0 to |m.around[f]|
        invariant ListsPart(m, AreaOf(patchOf, id), boundary, faces[..i], m.around[f][..k])
      {
        var h := m.around[f][k];
        assert h in m.around[f];
        assert m.around[f][..k + 1] == m.around[f][..k] + [h];
        var opp := m.opposite[h];
        if m.faceOf[opp].None? || patchOf[m.faceOf[opp].value] != Some(id) {
          boundary := boundary + [h];
        }
      }
      assert m.around[f][..|m.around[f]|] == m.around[f];
      FaceListed(m, AreaOf(patchOf, id), boundary, faces, i);
    }
    assert faces[..|faces|] == faces;
  }

  /** The boundary halfedges found so far: those of the faces done, and of `sides`. */
  ghost predicate ListsPart(m: Mesh, area: set<nat>, boundary: seq<nat>, done: seq<nat>, sides: seq<nat>)
    requires ValidMesh(m)
  {
    && NoDuplicates(boundary)
    && forall h :: h in boundary <==> h in BoundaryOf(m, area) && (m.faceOf[h].value in done || h in sides)
  }

  lemma FaceListed(m: Mesh, area: set<nat>, boundary: seq<nat>, faces: seq<nat>, i: nat)
    requires ValidMesh(m) && i < |faces| && faces[i] < |m.around|
    requires ListsPart(m, area, boundary, faces[..i], m.around[faces[i]])
    ensures ListsPart(m, area, boundary, faces[..i + 1], [])
  {
    assert faces[..i + 1] == faces[..i] + [faces[i]];
  }

  /** The patch's key: its smallest face and its lowest height. */
  method LowestOf(m: Mesh, faces: seq<nat>) returns (seed: nat, minZ: real)
    requires faces != [] && forall i :: 0 <= i < |faces| ==> faces[i] < |m.minZ|
    ensures seed in faces && forall i :: 0 <= i < |faces| ==> seed <= faces[i] && minZ <= m.minZ[faces[i]]
    ensures exists i :: 0 <= i < |faces| && m.minZ[faces[i]] == minZ
  {
    seed, minZ := faces[0], m.minZ[faces[0]];
    for i := 1 to |faces|
      invariant seed in faces && forall k :: 0 <= k < i ==> seed <= faces[k] && minZ <= m.minZ[faces[k]]
      invariant exists k :: 0 <= k < |faces| && m.minZ[faces[k]] == minZ
    {
      if faces[i] < seed {
        seed := faces[i];
      }
      if m.minZ[faces[i]] < minZ {
        minZ := m.minZ[faces[i]];
      }
    }
  }

  /** A finished patch: its exact key and boundary. */
  ghost predicate Finished(m: Mesh, area: set<nat>, patch: Patch)
    requires ValidMesh(m)
  {
    && patch.alive && patch.version == 0 && patch.neighbors == []
    && HasKeyOf(m, area, patch) && ListsBoundary(m, area, patch.boundary)
  }

  method FinishPatch(m: Mesh, faces: seq<nat>, patchOf: Assignment, id: nat) returns (patch: Patch)
    requires ValidMesh(m) && |patchOf| == |m.around|
    requires faces != [] && NoDuplicates(faces) && Elements(faces) == AreaOf(patchOf, id)
    ensures Finished(m, AreaOf(patchOf, id), patch)
  {
    assert forall f :: f in faces <==> f in AreaOf(patchOf, id);
    assert forall i :: 0 <= i < |faces| ==> faces[i] in AreaOf(patchOf, id);
    var seed, minZ := LowestOf(m, faces);
    var boundary := PatchBoundary(m, faces, patchOf, id);
    patch := Patch(seed, minZ, boundary, [], 0, true);
  }

  // ---- All patches ----

  function FromSeed(relates: (nat, nat) -> bool, seed: nat): nat -> bool {
    (f: nat) => relates(seed, f)
  }

  function FromSeedWithin(relates: (nat, nat) -> bool, seed: nat, faces: set<nat>): nat -> bool {
    (f: nat) => f in faces && relates(seed, f)
  }

  /** Face f has one of the first n patches. */
  ghost predicate Within(patchOf: Assignment, f: nat, n: nat) {
    f < |patchOf| && patchOf[f].Some? && patchOf[f].value < n
  }

  /** Whatever else joins around the given faces has one of the first n patches. */
  ghost predicate Closed(m: Mesh, patchOf: Assignment, faces: seq<nat>, joins: nat -> bool, n: nat)
    requires ValidMesh(m)
  {
    forall f, g {:trigger Touches(m, f, g)} :: f in faces && Touches(m, f, g) && joins(g) && g !in faces ==>
      Within(patchOf, g, n)
  }

  /** A flood from the least face without a patch, when there were n patches, through what fits the
      plane of that face, as far as it goes. */
  ghost predicate FitsFrom(m: Mesh, fits: (nat, nat) -> bool, patchOf: Assignment, faces: seq<nat>, n: nat)
    requires ValidMesh(m) && faces != []
  {
    && Connected(m, faces, FromSeed(fits, faces[0]))
    && Closed(m, patchOf, faces, FromSeed(fits, faces[0]), n)
    && forall f: nat :: f < faces[0] ==> Within(patchOf, f, n)
  }

  /** Patch p is a flood within a failed one, through what is exactly coplanar with its first face,
      as far as it goes. */
  ghost predicate IsPart(
    m: Mesh, coplanar: (nat, nat) -> bool, patchOf: Assignment, failed: seq<nat>, p: nat, part: seq<nat>)
    requires ValidMesh(m) && part != []
  {
    && Elements(part) == AreaOf(patchOf, p)
    && (forall f :: f in part ==> f in failed)
    && Connected(m, part, FromSeedWithin(coplanar, part[0], Elements(failed)))
    && Closed(m, patchOf, part, FromSeedWithin(coplanar, part[0], Elements(failed)), p)
  }

  ghost predicate ExactPart(m: Mesh, coplanar: (nat, nat) -> bool, patchOf: Assignment, failed: seq<nat>, p: nat)
    requires ValidMesh(m)
  {
    exists part :: part != [] && IsPart(m, coplanar, patchOf, failed, p, part)
  }

  /** Face f has one of the patches lo..hi. */
  ghost predicate Among(patchOf: Assignment, f: nat, lo: nat, hi: nat) {
    f < |patchOf| && patchOf[f].Some? && lo <= patchOf[f].value < hi
  }

  /** All faces of a flood got the patches base..next: one patch if they pass the certificate, else
      exactly coplanar parts. */
  ghost predicate RoundDone(
    m: Mesh, fits: (nat, nat) -> bool, coplanar: (nat, nat) -> bool, simple: set<nat> -> bool, patchOf: Assignment,
    faces: seq<nat>, base: nat, next: nat)
    requires ValidMesh(m)
  {
    && faces != [] && base < next
    && FitsFrom(m, fits, patchOf, faces, base)
    && (forall f: nat {:trigger Among(patchOf, f, base, next)} :: f in faces <==> Among(patchOf, f, base, next))
    && if simple(BoundaryOf(m, Elements(faces))) then
         next == base + 1
       else
         forall p: nat {:trigger ExactPart(m, coplanar, patchOf, faces, p)} ::
           base <= p < next ==> ExactPart(m, coplanar, patchOf, faces, p)
  }

  /** An area around a seed, grown through what relates to the seed: every other face in it does, and faces
      around it that do, if they are among the given ones, have one of the first n patches. */
  ghost predicate GrownFrom(
    m: Mesh, relates: (nat, nat) -> bool, among: nat -> bool, patchOf: Assignment, area: set<nat>, seed: nat, n: nat)
    requires ValidMesh(m)
  {
    && seed in area
    && (forall f :: f in area && f != seed ==> among(f) && relates(seed, f))
    && forall f, g {:trigger Touches(m, f, g)} ::
         f in area && Touches(m, f, g) && among(g) && g !in area && relates(seed, g) ==> Within(patchOf, g, n)
  }

  /** Patch p is grown within the given faces through what is exactly coplanar with its seed. */
  ghost predicate PartGrown(m: Mesh, coplanar: (nat, nat) -> bool, faces: seq<nat>, patchOf: Assignment, p: nat)
    requires ValidMesh(m)
  {
    exists seed :: seed in faces && GrownFrom(m, coplanar, (f: nat) => f in faces, patchOf, AreaOf(patchOf, p), seed, p)
  }

  lemma FloodIsGrown(
    m: Mesh, relates: (nat, nat) -> bool, among: nat -> bool, joins: nat -> bool, patchOf: Assignment, faces: seq<nat>,
    n: nat)
    requires ValidMesh(m) && Connected(m, faces, joins) && Closed(m, patchOf, faces, joins, n)
    requires forall f :: joins(f) <==> among(f) && relates(faces[0], f)
    ensures GrownFrom(m, relates, among, patchOf, Elements(faces), faces[0], n)
  {
    forall f | f in faces && f != faces[0] ensures joins(f) {
      var k: nat :| 0 < k < |faces| && faces[k] == f;
      assert JoinsAt(m, faces, joins, k);
    }
  }

  lemma PartIsGrown(m: Mesh, coplanar: (nat, nat) -> bool, patchOf: Assignment, faces: seq<nat>, p: nat)
    requires ValidMesh(m) && ExactPart(m, coplanar, patchOf, faces, p)
    ensures PartGrown(m, coplanar, faces, patchOf, p)
  {
    var part :| part != [] && IsPart(m, coplanar, patchOf, faces, p, part);
    var joins := FromSeedWithin(coplanar, part[0], Elements(faces));
    FloodIsGrown(m, coplanar, (f: nat) => f in faces, joins, patchOf, part, p);
  }

  /** A round's faces are grown through what fits the first one's plane; if they fail the certificate, each of
      its patches is grown among them through what is exactly coplanar with its own seed. */
  lemma RoundIsGrown(
    m: Mesh, fits: (nat, nat) -> bool, coplanar: (nat, nat) -> bool, simple: set<nat> -> bool, patchOf: Assignment,
    faces: seq<nat>, base: nat, next: nat)
    requires ValidMesh(m) && RoundDone(m, fits, coplanar, simple, patchOf, faces, base, next)
    ensures GrownFrom(m, fits, (f: nat) => true, patchOf, Elements(faces), faces[0], base)
    ensures !simple(BoundaryOf(m, Elements(faces))) ==>
              forall p: nat {:trigger PartGrown(m, coplanar, faces, patchOf, p)} :: base <= p < next ==>
                PartGrown(m, coplanar, faces, patchOf, p)
  {
    FloodIsGrown(m, fits, (f: nat) => true, FromSeed(fits, faces[0]), patchOf, faces, base);
    if !simple(BoundaryOf(m, Elements(faces))) {
      forall p: nat | base <= p < next ensures PartGrown(m, coplanar, faces, patchOf, p) {
        assert ExactPart(m, coplanar, patchOf, faces, p);
        PartIsGrown(m, coplanar, patchOf, faces, p);
      }
    }
  }

  /** One flood from the least face left, when there were `base` patches. */
  datatype Round = Round(faces: seq<nat>, base: nat)

  /** How many patches there were before round k. */
  ghost function BaseAt(log: seq<Round>, k: nat, count: nat): nat {
    if k < |log| then log[k].base else count
  }

  ghost predicate RoundAt(
    m: Mesh, fits: (nat, nat) -> bool, coplanar: (nat, nat) -> bool, simple: set<nat> -> bool, patchOf: Assignment,
    count: nat, log: seq<Round>, k: int)
    requires ValidMesh(m)
  {
    && 0 <= k < |log| && BaseAt(log, k + 1, count) <= count
    && RoundDone(m, fits, coplanar, simple, patchOf, log[k].faces, log[k].base, BaseAt(log, k + 1, count))
  }

  /** The patches came about in these rounds. */
  ghost predicate Logged(
    m: Mesh, fits: (nat, nat) -> bool, coplanar: (nat, nat) -> bool, simple: set<nat> -> bool, patchOf: Assignment,
    count: nat, log: seq<Round>)
    requires ValidMesh(m)
  {
    && |patchOf| == |m.around| && BaseAt(log, 0, count) == 0
    && (forall f :: 0 <= f < |patchOf| && patchOf[f].Some? ==> patchOf[f].value < count)
    && forall k {:trigger RoundAt(m, fits, coplanar, simple, patchOf, count, log, k)} ::
         0 <= k < |log| ==> RoundAt(m, fits, coplanar, simple, patchOf, count, log, k)
  }

  /** Faces that have a patch keep it, and others get patches from n on. */
  ghost predicate Extends(before: Assignment, after: Assignment, n: nat) {
    && |after| == |before|
    && (forall f {:trigger after[f]} {:trigger before[f]} :: 0 <= f < |before| && before[f].Some? ==>
         after[f] == before[f])
    && forall f {:trigger after[f]} :: 0 <= f < |before| && before[f].None? && after[f].Some? ==> after[f].value >= n
  }

  lemma WithinStays(before: Assignment, after: Assignment, n: nat, f: nat, k: nat)
    requires Extends(before, after, n)
    ensures Within(before, f, k) ==> Within(after, f, k)
    ensures k <= n && Within(after, f, k) ==> Within(before, f, k)
  {
  }

  lemma ClosedStays(m: Mesh, before: Assignment, after: Assignment, n: nat, faces: seq<nat>, joins: nat -> bool, k: nat)
    requires ValidMesh(m) && Extends(before, after, n) && Closed(m, before, faces, joins, k)
    ensures Closed(m, after, faces, joins, k)
  {
    forall f, g | f in faces && Touches(m, f, g) && joins(g) && g !in faces ensures Within(after, g, k) {
      WithinStays(before, after, n, g, k);
    }
  }

  lemma FitsStays(
    m: Mesh, fits: (nat, nat) -> bool, before: Assignment, after: Assignment, n: nat, faces: seq<nat>, k: nat)
    requires ValidMesh(m) && faces != [] && Extends(before, after, n) && FitsFrom(m, fits, before, faces, k)
    ensures FitsFrom(m, fits, after, faces, k)
  {
    ClosedStays(m, before, after, n, faces, FromSeed(fits, faces[0]), k);
    forall f: nat | f < faces[0] ensures Within(after, f, k) {
      WithinStays(before, after, n, f, k);
    }
  }

  lemma PartStays(
    m: Mesh, coplanar: (nat, nat) -> bool, before: Assignment, after: Assignment, n: nat, failed: seq<nat>, p: nat)
    requires ValidMesh(m) && Extends(before, after, n) && p < n && ExactPart(m, coplanar, before, failed, p)
    ensures ExactPart(m, coplanar, after, failed, p)
  {
    var part :| part != [] && IsPart(m, coplanar, before, failed, p, part);
    assert AreaOf(after, p) == AreaOf(before, p);
    ClosedStays(m, before, after, n, part, FromSeedWithin(coplanar, part[0], Elements(failed)), p);
    assert IsPart(m, coplanar, after, failed, p, part);
  }

  lemma AmongStays(before: Assignment, after: Assignment, n: nat, f: nat, lo: nat, hi: nat)
    requires Extends(before, after, n) && hi <= n
    ensures Among(after, f, lo, hi) <==> Among(before, f, lo, hi)
  {
  }

  lemma RoundStays(
    m: Mesh, fits: (nat, nat) -> bool, coplanar: (nat, nat) -> bool, simple: set<nat> -> bool, before: Assignment,
    after: Assignment, n: nat, faces: seq<nat>, base: nat, next: nat)
    requires ValidMesh(m) && Extends(before, after, n) && next <= n
    requires RoundDone(m, fits, coplanar, simple, before, faces, base, next)
    ensures RoundDone(m, fits, coplanar, simple, after, faces, base, next)
  {
    FitsStays(m, fits, before, after, n, faces, base);
    forall f: nat ensures f in faces <==> Among(after, f, base, next) {
      AmongStays(before, after, n, f, base, next);
    }
    if !simple(BoundaryOf(m, Elements(faces))) {
      forall p: nat | base <= p < next ensures ExactPart(m, coplanar, after, faces, p) {
        PartStays(m, coplanar, before, after, n, faces, p);
      }
    }
  }

  lemma LogOneMore(
    m: Mesh, fits: (nat, nat) -> bool, coplanar: (nat, nat) -> bool, simple: set<nat> -> bool, before: Assignment,
    after: Assignment, n: nat, next: nat, log: seq<Round>, faces: seq<nat>)
    requires ValidMesh(m) && Logged(m, fits, coplanar, simple, before, n, log) && Extends(before, after, n)
    requires RoundDone(m, fits, coplanar, simple, after, faces, n, next)
    requires forall f :: 0 <= f < |after| && after[f].Some? ==> after[f].value < next
    ensures Logged(m, fits, coplanar, simple, after, next, log + [Round(faces, n)])
  {
    var log' := log + [Round(faces, n)];
    forall k | 0 <= k < |log'| ensures RoundAt(m, fits, coplanar, simple, after, next, log', k) {
      if k < |log| {
        assert RoundAt(m, fits, coplanar, simple, before, n, log, k);
        assert BaseAt(log', k + 1, next) == BaseAt(log, k + 1, n);
        RoundStays(m, fits, coplanar, simple, before, after, n, log[k].faces, log[k].base, BaseAt(log, k + 1, n));
      }
    }
  }

  /** The patches stored so far: each has its key and boundary. */
  ghost predicate Stored(m: Mesh, patchOf: Assignment, patches: seq<Patch>)
    requires ValidMesh(m)
  {
    && |patchOf| == |m.around|
    && (forall f :: 0 <= f < |patchOf| && patchOf[f].Some? ==> patchOf[f].value < |patches|)
    && forall p {:trigger Finished(m, AreaOf(patchOf, p), patches[p])} ::
         0 <= p < |patches| ==> Finished(m, AreaOf(patchOf, p), patches[p])
  }

  /** One more patch leaves the others as they are. */
  lemma AddPatch(m: Mesh, before: Assignment, patchOf: Assignment, patches: seq<Patch>, faces: seq<nat>, patch: Patch)
    requires ValidMesh(m) && Stored(m, before, patches) && Marked(before, patchOf, faces, |patches|)
    requires Finished(m, AreaOf(patchOf, |patches|), patch)
    ensures Stored(m, patchOf, patches + [patch]) && Extends(before, patchOf, |patches|)
  {
    var patches' := patches + [patch];
    forall p | 0 <= p < |patches'| ensures Finished(m, AreaOf(patchOf, p), patches'[p]) {
      if p < |patches| {
        assert Finished(m, AreaOf(before, p), patches[p]);
        assert AreaOf(patchOf, p) == AreaOf(before, p);
      }
    }
  }

  /** Around a finished flood, whatever joins was assigned before. */
  lemma FloodCloses(
    m: Mesh, before: Assignment, patchOf: Assignment, joins: nat -> bool, id: nat, seed: nat, faces: seq<nat>)
    requires ValidMesh(m) && Flooding(m, before, patchOf, joins, id, seed, faces, 0)
    requires forall f :: 0 <= f < |before| && before[f].Some? ==> before[f].value < id
    ensures Closed(m, before, faces, joins, id) && Closed(m, patchOf, faces, joins, id)
  {
    forall f, g | f in faces && Touches(m, f, g) && joins(g) && g !in faces ensures Within(before, g, id) &&
      Within(patchOf, g, id) {
      NothingLeft(m, patchOf, joins, faces, f, g);
    }
  }

  lemma MarkedArea(before: Assignment, patchOf: Assignment, faces: seq<nat>, id: nat)
    requires Marked(before, patchOf, faces, id)
    requires forall f :: 0 <= f < |before| && before[f].Some? ==> before[f].value < id
    ensures Elements(faces) == AreaOf(patchOf, id)
  {
  }

  lemma FloodIsPart(
    m: Mesh, coplanar: (nat, nat) -> bool, failed: seq<nat>, seed: nat, before: Assignment, patchOf: Assignment,
    id: nat, faces: seq<nat>)
    requires ValidMesh(m) && Flooding(m, before, patchOf, FromSeedWithin(coplanar, seed, Elements(failed)), id, seed,
               faces, 0)
    requires forall f :: 0 <= f < |before| && before[f].Some? ==> before[f].value < id
    requires seed in failed
    ensures ExactPart(m, coplanar, patchOf, failed, id) && forall f :: f in faces ==> f in failed
  {
    var joins := FromSeedWithin(coplanar, seed, Elements(failed));
    MarkedArea(before, patchOf, faces, id);
    FloodCloses(m, before, patchOf, joins, id, seed, faces);
    forall f | f in faces ensures f in failed {
      var k :| 0 <= k < |faces| && faces[k] == f;
      assert k > 0 ==> JoinsAt(m, faces, joins, k);
    }
    assert IsPart(m, coplanar, patchOf, failed, id, faces);
  }

  /** Part-way through splitting a failed flood: the patches n..count are parts of it. */
  ghost predicate Splitting(
    m: Mesh, fits: (nat, nat) -> bool, coplanar: (nat, nat) -> bool, before: Assignment, patchOf: Assignment,
    failed: seq<nat>, n: nat, count: nat)
    requires ValidMesh(m)
  {
    && failed != [] && n <= count && Extends(before, patchOf, n) && FitsFrom(m, fits, patchOf, failed, n)
    && (forall f: nat {:trigger Among(patchOf, f, n, count)} :: Among(patchOf, f, n, count) ==> f in failed)
    && forall p: nat {:trigger ExactPart(m, coplanar, patchOf, failed, p)} :: n <= p < count ==>
         ExactPart(m, coplanar, patchOf, failed, p)
  }

  lemma SplitOneMore(
    m: Mesh, fits: (nat, nat) -> bool, coplanar: (nat, nat) -> bool, before: Assignment, mid: Assignment,
    patchOf: Assignment, failed: seq<nat>, n: nat, count: nat, faces: seq<nat>)
    requires ValidMesh(m) && Splitting(m, fits, coplanar, before, mid, failed, n, count)
    requires Marked(mid, patchOf, faces, count) && Extends(mid, patchOf, count)
    requires forall f :: 0 <= f < |mid| && mid[f].Some? ==> mid[f].value < count
    requires ExactPart(m, coplanar, patchOf, failed, count) && forall f :: f in faces ==> f in failed
    ensures Splitting(m, fits, coplanar, before, patchOf, failed, n, count + 1)
  {
    ExtendsTransitive(before, mid, patchOf, n, count);
    FitsStays(m, fits, mid, patchOf, count, failed, n);
    var count' := count + 1;
    forall f: nat | Among(patchOf, f, n, count') ensures f in failed {
      if f !in faces {
        assert Among(mid, f, n, count);
      }
    }
    forall p: nat | n <= p < count' ensures ExactPart(m, coplanar, patchOf, failed, p) {
      if p < count {
        PartStays(m, coplanar, mid, patchOf, count, failed, p);
      }
    }
  }

  lemma ExtendsTransitive(a: Assignment, b: Assignment, c: Assignment, n: nat, k: nat)
    requires Extends(a, b, n) && Extends(b, c, k) && n <= k
    ensures Extends(a, c, n)
  {
  }

  lemma FloodFits(
    m: Mesh, fits: (nat, nat) -> bool, before: Assignment, patchOf: Assignment, id: nat, seed: nat, faces: seq<nat>)
    requires ValidMesh(m) && Flooding(m, before, patchOf, FromSeed(fits, seed), id, seed, faces, 0)
    requires forall f :: 0 <= f < |before| && before[f].Some? ==> before[f].value < id
    requires forall f :: 0 <= f < seed ==> before[f].Some?
    ensures FitsFrom(m, fits, patchOf, faces, id) && FitsFrom(m, fits, before, faces, id)
    ensures Elements(faces) == AreaOf(patchOf, id)
  {
    FloodCloses(m, before, patchOf, FromSeed(fits, seed), id, seed, faces);
    MarkedArea(before, patchOf, faces, id);
    assert seed in faces;
    forall f: nat | f < seed ensures Within(before, f, id) && Within(patchOf, f, id) {
      assert before[f].Some?;
    }
  }

  /** One exactly coplanar patch out of the faces to split. */
  method SplitOne(
    m: Mesh, ghost fits: (nat, nat) -> bool, coplanar: (nat, nat) -> bool, ghost first: Assignment,
    ghost failed: seq<nat>, ghost n: nat, toSplit: set<nat>, seed: nat, before: Assignment, patches: seq<Patch>)
    returns (patchOf: Assignment, patches': seq<Patch>)
    requires ValidMesh(m) && Stored(m, before, patches) && seed < |before| && before[seed].None?
    requires Splitting(m, fits, coplanar, first, before, failed, n, |patches|) && seed in failed &&
               toSplit == Elements(failed)
    ensures Stored(m, patchOf, patches') && Splitting(m, fits, coplanar, first, patchOf, failed, n, |patches'|)
    ensures Extends(before, patchOf, |patches|) && patchOf[seed].Some?
  {
    var id := |patches|;
    var faces;
    patchOf, faces := Flood(m, before, seed, id, FromSeedWithin(coplanar, seed, toSplit));
    MarkedArea(before, patchOf, faces, id);
    FloodIsPart(m, coplanar, failed, seed, before, patchOf, id, faces);
    var patch := FinishPatch(m, faces, patchOf, id);
    AddPatch(m, before, patchOf, patches, faces, patch);
    SplitOneMore(m, fits, coplanar, first, before, patchOf, failed, n, id, faces);
    patches' := patches + [patch];
    assert faces[0] in faces;
  }

  /** The fallback: the faces of a flood that failed its certificate, split into exactly coplanar
      patches. */
  method Resplit(
    m: Mesh, ghost fits: (nat, nat) -> bool, coplanar: (nat, nat) -> bool, ghost simple: set<nat> -> bool,
    toSplit: seq<nat>, before: Assignment, patches: seq<Patch>)
    returns (patchOf: Assignment, patches': seq<Patch>)
    requires ValidMesh(m) && Stored(m, before, patches)
    requires forall f :: f in toSplit ==> f < |before| && before[f].None?
    requires toSplit != [] && FitsFrom(m, fits, before, toSplit, |patches|) && !simple(BoundaryOf(m, Elements(toSplit)))
    ensures Stored(m, patchOf, patches') && Extends(before, patchOf, |patches|)
    ensures RoundDone(m, fits, coplanar, simple, patchOf, toSplit, |patches|, |patches'|)
  {
    patchOf, patches' := before, patches;
    var inSet := Elements(toSplit);
    assert forall k :: 0 <= k < |toSplit| ==> toSplit[k] in toSplit;
    for i := 0 to |toSplit|
      invariant Stored(m, patchOf, patches') &&
                  Splitting(m, fits, coplanar, before, patchOf, toSplit, |patches|, |patches'|)
      invariant |patchOf| == |before| && forall k :: 0 <= k < i ==> toSplit[k] < |patchOf| && patchOf[toSplit[k]].Some?
    {
      var seed := toSplit[i];
      assert seed in toSplit;
      if patchOf[seed].None? {
        patchOf, patches' := SplitOne(m, fits, coplanar, before, toSplit, |patches|, inSet, seed, patchOf, patches');
      }
    }
    SplitDone(m, fits, coplanar, simple, before, patchOf, toSplit, |patches|, |patches'|);
  }

  lemma SplitDone(
    m: Mesh, fits: (nat, nat) -> bool, coplanar: (nat, nat) -> bool, simple: set<nat> -> bool, before: Assignment,
    patchOf: Assignment, failed: seq<nat>, n: nat, count: nat)
    requires ValidMesh(m) && Splitting(m, fits, coplanar, before, patchOf, failed, n, count) &&
               !simple(BoundaryOf(m, Elements(failed)))
    requires forall f :: f in failed ==> f < |before| && before[f].None?
    requires forall k :: 0 <= k < |failed| ==> failed[k] < |patchOf| && patchOf[failed[k]].Some?
    requires forall f :: 0 <= f < |patchOf| && patchOf[f].Some? ==> patchOf[f].value < count
    ensures RoundDone(m, fits, coplanar, simple, patchOf, failed, n, count)
  {
    forall f: nat | f in failed ensures Among(patchOf, f, n, count) {
      var k :| 0 <= k < |failed| && failed[k] == f;
    }
    assert Among(patchOf, failed[0], n, count);
  }

  /** Take the marks back. */
  method Unmark(
    ghost before: Assignment, marked: Assignment, faces: seq<nat>, ghost id: nat) returns (patchOf: Assignment)
    requires Marked(before, marked, faces, id)
    ensures patchOf == before
  {
    patchOf := marked;
    for i := 0 to |faces|
      invariant |patchOf| == |before|
      invariant forall f :: 0 <= f < |before| ==> patchOf[f] == if f in faces[i..] then Some(id) else before[f]
    {
      assert faces[i] in faces && faces[i..] == [faces[i]] + faces[i + 1..];
      assert faces[i] !in faces[i + 1..] by {
        assert forall j :: i < j < |faces| ==> faces[j] != faces[i];
      }
      patchOf := patchOf[faces[i] := None];
    }
  }

  lemma OnePatchDone(
    m: Mesh, fits: (nat, nat) -> bool, coplanar: (nat, nat) -> bool, simple: set<nat> -> bool, before: Assignment,
    patchOf: Assignment, faces: seq<nat>, n: nat)
    requires ValidMesh(m) && faces != [] && FitsFrom(m, fits, patchOf, faces, n) && Marked(before, patchOf, faces, n)
    requires forall f :: 0 <= f < |before| && before[f].Some? ==> before[f].value < n
    requires simple(BoundaryOf(m, Elements(faces)))
    ensures RoundDone(m, fits, coplanar, simple, patchOf, faces, n, n + 1)
  {
    var next := n + 1;
    forall f: nat ensures f in faces <==> Among(patchOf, f, n, next) {
    }
  }

  /** The patch of the least unassigned face: what fits its plane, or if that fails the certificate,
      its exactly coplanar parts. */
  method GrowOne(
    m: Mesh, fits: (nat, nat) -> bool, coplanar: (nat, nat) -> bool, simple: set<nat> -> bool, seed: nat,
    before: Assignment, patches: seq<Patch>)
    returns (patchOf: Assignment, patches': seq<Patch>, ghost flood: seq<nat>)
    requires ValidMesh(m) && Stored(m, before, patches) && seed < |before| && before[seed].None?
    requires forall f :: 0 <= f < seed ==> before[f].Some?
    ensures Stored(m, patchOf, patches') && Extends(before, patchOf, |patches|) && patchOf[seed].Some?
    ensures RoundDone(m, fits, coplanar, simple, patchOf, flood, |patches|, |patches'|)
  {
    var id := |patches|;
    var faces;
    patchOf, faces := Flood(m, before, seed, id, FromSeed(fits, seed));
    flood := faces;
    assert seed in faces;
    FloodFits(m, fits, before, patchOf, id, seed, faces);
    var patch := FinishPatch(m, faces, patchOf, id);
    var halfedges := set h | h in patch.boundary;
    assert halfedges == BoundaryOf(m, AreaOf(patchOf, id));
    if simple(halfedges) {
      AddPatch(m, before, patchOf, patches, faces, patch);
      OnePatchDone(m, fits, coplanar, simple, before, patchOf, faces, id);
      patches' := patches + [patch];
    } else {
      patchOf := Unmark(before, patchOf, faces, id);
      patchOf, patches' := Resplit(m, fits, coplanar, simple, faces, patchOf, patches);
      assert Among(patchOf, seed, |patches|, |patches'|);
    }
  }

  function Complete(patchOf: seq<nat>): (a: Assignment)
    ensures |a| == |patchOf| && forall f :: 0 <= f < |a| ==> a[f] == Some(patchOf[f])
  {
    seq(|patchOf|, f requires 0 <= f < |patchOf| => Some(patchOf[f]))
  }

  /** The grown patches as the merging phase takes them. */
  lemma AllGrown(m: Mesh, patches: seq<Patch>, patchOf: seq<nat>, p: nat)
    requires ValidMesh(m) && Stored(m, Complete(patchOf), patches) && p < |patches|
    ensures JustGrown(m, patchOf, patches[p], p)
  {
    assert Finished(m, AreaOf(Complete(patchOf), p), patches[p]);
    assert AreaOf(Complete(patchOf), p) == set f | 0 <= f < |patchOf| && patchOf[f] == p;
  }

  /** Every face gets a patch, in rounds of floods; each patch has its exact key and boundary. */
  method GrowPlanarPatches(m: Mesh, fits: (nat, nat) -> bool, coplanar: (nat, nat) -> bool, simple: set<nat> -> bool)
    returns (patchOf: seq<nat>, patches: seq<Patch>, ghost log: seq<Round>)
    requires ValidMesh(m)
    ensures ValidPatchOf(m, patchOf, |patches|)
    ensures forall p: nat :: p < |patches| ==> JustGrown(m, patchOf, patches[p], p)
    ensures Logged(m, fits, coplanar, simple, Complete(patchOf), |patches|, log)
  {
    var marks: Assignment := seq(|m.around|, _ => None);
    patches, log := [], [];
    for seed := 0 to |m.around|
      invariant Stored(m, marks, patches) && Logged(m, fits, coplanar, simple, marks, |patches|, log)
      invariant forall f :: 0 <= f < seed ==> marks[f].Some?
    {
      if marks[seed].None? {
        ghost var before, n, flood := marks, |patches|, [];
        marks, patches, flood := GrowOne(m, fits, coplanar, simple, seed, marks, patches);
        LogOneMore(m, fits, coplanar, simple, before, marks, n, |patches|, log, flood);
        log := log + [Round(flood, n)];
      }
    }
    patchOf := seq(|marks|, f requires 0 <= f < |marks| && marks[f].Some? => marks[f].value);
    assert Complete(patchOf) == marks;
    forall p: nat | p < |patches| ensures JustGrown(m, patchOf, patches[p], p) {
      AllGrown(m, patches, patchOf, p);
    }
  }
}
