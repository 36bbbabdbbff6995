// The union-find of the region split: a parent array with path halving (find_root in
// libsimulator/src/geometry/region_split.cpp).
module UnionFind {

  /** Element i points towards its representative: `depth` falls along parents, so following
      them ends. */
  ghost predicate Linked(parent: seq<nat>, root: seq<nat>, depth: seq<nat>, i: nat)
    requires |parent| == |root| == |depth| && i < |parent|
  {
    && parent[i] < |parent| && root[i] < |parent|
    && root[parent[i]] == root[i]
    && parent[root[i]] == root[i]
    && (root[i] == i ==> parent[i] == i)
    && (parent[i] == i ==> root[i] == i)
    && (parent[i] != i ==> depth[parent[i]] < depth[i])
  }

  ghost predicate InRange(parent: seq<nat>) {
    forall j :: 0 <= j < |parent| ==> parent[j] < |parent|
  }

  /** A parent array in which `root` names every element's representative. */
  ghost predicate Forest(parent: seq<nat>, root: seq<nat>, depth: seq<nat>) {
    && |parent| == |root| == |depth|
    && InRange(parent)
    && forall i :: 0 <= i < |parent| ==> Linked(parent, root, depth, i)
  }

  /** The parents alone determine the representatives. */
  lemma {:induction false} RootsAgree(
    parent: seq<nat>, root: seq<nat>, depth: seq<nat>, root': seq<nat>, depth': seq<nat>, i: nat)
    requires Forest(parent, root, depth) && Forest(parent, root', depth') && i < |parent|
    ensures root'[i] == root[i]
    decreases depth[i]
  {
    assert Linked(parent, root, depth, i) && Linked(parent, root', depth', i);
    if parent[i] != i {
      RootsAgree(parent, root, depth, root', depth', parent[i]);
    }
  }

  /** Where the parent array stands in relation to the representatives: an element at level 1
      points at its root, one at level 2 at an element that does. */
  ghost predicate Level1(parent: seq<nat>, root: seq<nat>, i: nat)
    requires i < |parent| == |root|
  {
    parent[i] == root[i]
  }

  ghost predicate Level2(parent: seq<nat>, root: seq<nat>, i: nat)
    requires i < |parent| == |root| && InRange(parent)
  {
    parent[parent[i]] == root[i]
  }

  /** Every element is as close to its root as before, or closer. */
  ghost predicate Shortened(before: seq<nat>, after: seq<nat>, root: seq<nat>)
    requires |before| == |after| == |root|
    requires InRange(before) && InRange(after)
  {
    forall i :: 0 <= i < |before| ==>
      && (Level1(before, root, i) ==> Level1(after, root, i))
      && (Level2(before, root, i) ==> Level2(after, root, i))
  }

  lemma ShortenedTransitive(p: seq<nat>, q: seq<nat>, r: seq<nat>, root: seq<nat>)
    requires |p| == |q| == |r| == |root| && InRange(p) && InRange(q) && InRange(r)
    requires Shortened(p, q, root) && Shortened(q, r, root)
    ensures Shortened(p, r, root)
  {
  }

  /** Halving one step keeps all representatives ... */
  lemma HalvingKeepsForest(parent: seq<nat>, root: seq<nat>, depth: seq<nat>, id: nat)
    requires Forest(parent, root, depth) && id < |parent|
    ensures parent[id] < |parent| && Forest(parent[id := parent[parent[id]]], root, depth)
  {
    assert Linked(parent, root, depth, id) && Linked(parent, root, depth, parent[id]);
    var parent' := parent[id := parent[parent[id]]];
    forall i | 0 <= i < |parent| ensures Linked(parent', root, depth, i) {
      assert Linked(parent, root, depth, i) && Linked(parent, root, depth, root[i]);
    }
  }

  /** ... and moves no element away from its own. */
  lemma HalvingShortens(parent: seq<nat>, root: seq<nat>, depth: seq<nat>, id: nat, i: nat)
    requires Forest(parent, root, depth) && id < |parent| && i < |parent|
    requires InRange(parent)
    ensures var parent' := parent[id := parent[parent[id]]];
            && (Level1(parent, root, i) ==> Level1(parent', root, i))
            && (Level2(parent, root, i) ==> Level2(parent', root, i))
  {
    assert Linked(parent, root, depth, i) && Linked(parent, root, depth, id);
  }

  lemma ParentsInRange(parent: seq<nat>, root: seq<nat>, depth: seq<nat>)
    requires Forest(parent, root, depth)
    ensures InRange(parent) && InRange(root)
  {
    forall j | 0 <= j < |parent| ensures parent[j] < |parent| && root[j] < |parent| {
      assert Linked(parent, root, depth, j);
    }
  }

  lemma HalvingStep(parent: seq<nat>, root: seq<nat>, depth: seq<nat>, id: nat)
    requires Forest(parent, root, depth) && id < |parent|
    ensures parent[id] < |parent| && parent[parent[id]] < |parent|
    ensures var parent' := parent[id := parent[parent[id]]];
            && Forest(parent', root, depth)
            && InRange(parent) && InRange(parent')
            && Shortened(parent, parent', root)
  {
    ParentsInRange(parent, root, depth);
    HalvingKeepsForest(parent, root, depth, id);
    forall i | 0 <= i < |parent|
      ensures var parent' := parent[id := parent[parent[id]]];
              && (Level1(parent, root, i) ==> Level1(parent', root, i))
              && (Level2(parent, root, i) ==> Level2(parent', root, i))
    {
      HalvingShortens(parent, root, depth, id, i);
    }
  }

  /** The representative of `id`; every element on the way is pointed at its grandparent. */
  method FindRoot(parent: array<nat>, id: nat, ghost root: seq<nat>, ghost depth: seq<nat>) returns (r: nat)
    requires Forest(parent[..], root, depth) && id < parent.Length
    modifies parent
    ensures r == root[id]
    ensures Forest(parent[..], root, depth)
    ensures InRange(old(parent[..])) && InRange(parent[..])
    ensures Shortened(old(parent[..]), parent[..], root)
    ensures Level2(old(parent[..]), root, id) ==> Level1(parent[..], root, id)
  {
    r := id;
    ParentsInRange(parent[..], root, depth);
    while parent[r] != r
      invariant r < parent.Length && root[r] == root[id]
      invariant Forest(parent[..], root, depth)
      invariant InRange(parent[..])
      invariant Shortened(old(parent[..]), parent[..], root)
      invariant r != id && Level2(old(parent[..]), root, id) ==> Level1(parent[..], root, id)
      decreases depth[r]
    {
      ghost var before := parent[..];
      HalvingStep(before, root, depth, r);
      assert Linked(before, root, depth, r) && Linked(before, root, depth, before[r]);
      parent[r] := parent[parent[r]];
      assert parent[..] == before[r := before[before[r]]];
      r := parent[r];
    }
    assert Linked(parent[..], root, depth, r);
  }

  // ---- Uniting two classes ----

  ghost function United(root: seq<nat>, a: nat, b: nat): (r: seq<nat>)
    ensures |r| == |root|
    ensures forall i :: 0 <= i < |root| ==> r[i] == if root[i] == b then a else root[i]
  {
    seq(|root|, i requires 0 <= i < |root| => if root[i] == b then a else root[i])
  }

  ghost function Deepened(root: seq<nat>, depth: seq<nat>, b: nat, extra: nat): (d: seq<nat>)
    requires |root| == |depth|
    ensures |d| == |root|
    ensures forall i :: 0 <= i < |root| ==> d[i] == if root[i] == b then depth[i] + extra else depth[i]
  {
    seq(|root|, i requires 0 <= i < |root| => if root[i] == b then depth[i] + extra else depth[i])
  }

  /** Pointing root b at root a unites their classes. */
  lemma UniteKeepsForest(parent: seq<nat>, root: seq<nat>, depth: seq<nat>, a: nat, b: nat)
    requires Forest(parent, root, depth)
    requires a < |parent| && b < |parent| && a != b && root[a] == a && root[b] == b
    ensures Forest(parent[b := a], United(root, a, b), Deepened(root, depth, b, depth[a] + 1))
  {
    var p', r', d' := parent[b := a], United(root, a, b), Deepened(root, depth, b, depth[a] + 1);
    assert Linked(parent, root, depth, a);
    forall i | 0 <= i < |parent| ensures Linked(p', r', d', i) {
      assert Linked(parent, root, depth, i);
      assert Linked(parent, root, depth, parent[i]);
    }
  }

  /** In a forest where every element points at its root, uniting moves b's class to level 2 and
      leaves the rest at level 1. */
  lemma UniteLevels(parent: seq<nat>, root: seq<nat>, depth: seq<nat>, a: nat, b: nat, i: nat)
    requires Forest(parent, root, depth) && InRange(parent)
    requires a < |parent| && b < |parent| && a != b && root[a] == a && root[b] == b
    requires i < |parent| && Level1(parent, root, i)
    ensures InRange(parent[b := a])
    ensures if root[i] == b then Level2(parent[b := a], United(root, a, b), i)
            else Level1(parent[b := a], United(root, a, b), i)
  {
    assert Linked(parent, root, depth, a) && Linked(parent, root, depth, i);
  }
}
