// The halo: neighbours' travel times written into obstacle cells just past a seam, and the
// queries that read the field with it (solve's last phase, write_halo, travel_times and
// steepest_descent in libfloorfield/src/multi_region.rs).
module Halo {
  import opened Wrappers
  import opened Times
  import opened Relaxation
  import opened FastSweeping
  import opened TravelTimes
  import opened Propagation
  import opened Seams

  datatype Write = Write(lattice: LatticeCell, value: Time)

  ghost predicate Places(w: World, placed: seq<RegionGrid>) {
    |placed| == |w.grids| && forall r :: 0 <= r < |placed| ==> placed[r].grid == w.grids[r]
  }

  /** Fields of a cold propagation: obstacles are not reached. */
  ghost predicate PlainFields(w: World, fields: seq<Option<Field>>) {
    |fields| == |w.grids| && forall r :: 0 <= r < |fields| && fields[r].Some? ==>
      && |fields[r].value| == Size(w.grids[r])
      && forall c :: 0 <= c < Size(w.grids[r]) && !Walkable(w.grids[r], c) ==> fields[r].value[c] == Inf
  }

  lemma ConvergedFieldsArePlain(w: World, dest: seq<seq<nat>>, fields: seq<Option<Field>>, seeds: seq<Seeds>)
    requires ValidWorld(w) && ValidDestination(w, dest) && Converges(w, dest, fields, seeds)
    ensures PlainFields(w, fields)
  {
    var v := TimesOf(w, fields);
    forall r, c | 0 <= r < |fields| && fields[r].Some? && 0 <= c < Size(w.grids[r]) && !Walkable(w.grids[r], c)
      ensures fields[r].value[c] == Inf
    {
      SolvesIffEikonal(w.grids[r], SeedField(w.grids[r], seeds[r]), v[r]);
    }
  }

  /** Crossing q from r to y offers `value` to r's obstacle cell c: the far cell lies on it. */
  ghost predicate Offers(
    w: World, placed: seq<RegionGrid>, fields: seq<Option<Field>>, r: nat, y: nat, q: Pair, wr: Write)
    requires ValidWorld(w) && Places(w, placed) && PlainFields(w, fields)
  {
    && Crosses(w, r, y, q)
    && fields[y].Some?
    && wr == Write(Lattice(placed[y], q.far), fields[y].value[q.far])
  }

  /** The writes that region r's seams call for. */
  ghost predicate CallsFor(w: World, placed: seq<RegionGrid>, fields: seq<Option<Field>>, r: nat, wr: Write)
    requires ValidWorld(w) && Places(w, placed) && PlainFields(w, fields)
  {
    exists y: nat, q: Pair :: Offers(w, placed, fields, r, y, q, wr)
  }

  /** Cell c after the given writes: a walkable cell keeps its own time; an obstacle holds the
      earliest value written to it, and is in the halo exactly if that is finite. */
  ghost predicate CellWritten(g: RegionGrid, field: Field, writes: set<Write>, query: Field, halo: set<nat>, c: nat)
    requires c < |field| == |query|
  {
    if Walkable(g.grid, c) then
      query[c] == field[c] && c !in halo
    else
      && (c in halo <==> query[c].Fin?)
      && (forall wr :: wr in writes && Local(g, wr.lattice) == Some(c) ==> Le(query[c], wr.value))
      && (query[c].Fin? ==> exists wr :: wr in writes && Local(g, wr.lattice) == Some(c) && query[c] == wr.value)
  }

  ghost predicate Written(g: RegionGrid, field: Field, writes: set<Write>, query: Field, halo: set<nat>) {
    && |query| == |field| == Size(g.grid)
    && (forall c :: c in halo ==> c < |field|)
    && forall c :: 0 <= c < |field| ==> CellWritten(g, field, writes, query, halo, c)
  }

  /** The halo is a function of the set of writes: neither their order nor repetitions matter. */
  lemma WrittenUnique(g: RegionGrid, field: Field, writes: set<Write>, q1: Field, h1: set<nat>, q2: Field, h2: set<nat>)
    requires Written(g, field, writes, q1, h1) && Written(g, field, writes, q2, h2)
    ensures q1 == q2 && h1 == h2
  {
    forall c | 0 <= c < |field| ensures q1[c] == q2[c] && (c in h1 <==> c in h2) {
      assert CellWritten(g, field, writes, q1, h1, c) && CellWritten(g, field, writes, q2, h2, c);
    }
  }

  /** Masking the halo gives the plain field back. */
  lemma MaskingRecovers(g: RegionGrid, field: Field, writes: set<Write>, query: Field, halo: set<nat>, c: nat)
    requires Written(g, field, writes, query, halo) && c < |field|
    requires !Walkable(g.grid, c) ==> field[c] == Inf
    ensures (if c in halo then Inf else query[c]) == field[c]
  {
    assert CellWritten(g, field, writes, query, halo, c);
  }

  /** One write: it takes effect on an obstacle cell that has no earlier value. */
  method WriteHalo(g: RegionGrid, query: Field, halo: set<nat>, wr: Write, ghost field: Field, ghost writes: set<Write>)
    returns (query': Field, halo': set<nat>)
    requires Written(g, field, writes, query, halo)
    ensures Written(g, field, writes + {wr}, query', halo')
  {
    query', halo' := query, halo;
    var cell := Local(g, wr.lattice);
    if cell.Some? {
      LocalLatticeInverse(g, wr.lattice, cell.value);
      assert CellWritten(g, field, writes, query, halo, cell.value);
      if !Walkable(g.grid, cell.value) && wr.value.Fin? && Lt(wr.value, query[cell.value]) {
        query' := query[cell.value := wr.value];
        halo' := halo + {cell.value};
      }
    }
    forall c | 0 <= c < |field| ensures CellWritten(g, field, writes + {wr}, query', halo', c) {
      assert CellWritten(g, field, writes, query, halo, c);
    }
  }

  /** Fields with halos so far agree with the plain ones on every walkable cell. */
  ghost predicate AgreeOnWalkable(w: World, fields: seq<Option<Field>>, query: seq<Option<Field>>)
    requires PlainFields(w, fields)
  {
    |query| == |fields| && forall r :: 0 <= r < |fields| ==>
      && (query[r].Some? <==> fields[r].Some?)
      && (fields[r].Some? ==>
            && |query[r].value| == Size(w.grids[r])
            && forall c :: 0 <= c < Size(w.grids[r]) && Walkable(w.grids[r], c) ==>
                 query[r].value[c] == fields[r].value[c])
  }

  /** The writes for the first k pairs of seam s are among `writes`. */
  ghost predicate SeamCollected(
    w: World, placed: seq<RegionGrid>, fields: seq<Option<Field>>, r: nat, s: nat, k: nat, writes: seq<Write>)
    requires ValidWorld(w) && Places(w, placed) && PlainFields(w, fields)
    requires r < |w.grids| && s in w.outSeams[r] && k <= |w.seams[s].pairs|
  {
    forall j, wr :: 0 <= j < k && Offers(w, placed, fields, r, w.seams[s].to, w.seams[s].pairs[j], wr) ==> wr in writes
  }

  method CollectSeamWrites(
    w: World, placed: seq<RegionGrid>, query: seq<Option<Field>>, r: nat, s: nat, writes: seq<Write>,
    ghost fields: seq<Option<Field>>)
    returns (writes': seq<Write>)
    requires ValidWorld(w) && Places(w, placed) && PlainFields(w, fields) && AgreeOnWalkable(w, fields, query)
    requires r < |w.grids| && s in w.outSeams[r]
    requires forall wr :: wr in writes ==> CallsFor(w, placed, fields, r, wr)
    ensures forall wr :: wr in writes' ==> CallsFor(w, placed, fields, r, wr)
    ensures forall wr :: wr in writes ==> wr in writes'
    ensures SeamCollected(w, placed, fields, r, s, |w.seams[s].pairs|, writes')
  {
    writes' := writes;
    var y := w.seams[s].to;
    if query[y].Some? {
      for j := 0 to |w.seams[s].pairs|
        invariant forall wr :: wr in writes' ==> CallsFor(w, placed, fields, r, wr)
        invariant forall wr :: wr in writes ==> wr in writes'
        invariant SeamCollected(w, placed, fields, r, s, j, writes')
      {
        var q := w.seams[s].pairs[j];
        assert Crosses(w, r, y, q);
        var wr := Write(Lattice(placed[y], q.far), query[y].value[q.far]);
        assert Offers(w, placed, fields, r, y, q, wr);
        writes' := writes' + [wr];
      }
    }
  }

  lemma AllSeamsCollected(
    w: World, placed: seq<RegionGrid>, fields: seq<Option<Field>>, r: nat, writes: seq<Write>, wr: Write)
    requires ValidWorld(w) && Places(w, placed) && PlainFields(w, fields) && r < |w.grids|
    requires forall s :: s in w.outSeams[r] ==> SeamCollected(w, placed, fields, r, s, |w.seams[s].pairs|, writes)
    requires CallsFor(w, placed, fields, r, wr)
    ensures wr in writes
  {
    var y: nat, q: Pair :| Offers(w, placed, fields, r, y, q, wr);
    var s :| s in w.outSeams[r] && w.seams[s].to == y && q in w.seams[s].pairs;
    var j :| 0 <= j < |w.seams[s].pairs| && w.seams[s].pairs[j] == q;
    assert SeamCollected(w, placed, fields, r, s, |w.seams[s].pairs|, writes);
  }

  /** The writes region r's seams call for, read from fields some of which already have halos:
      the values come from walkable cells, which halos leave alone. */
  method CollectWrites(
    w: World, placed: seq<RegionGrid>, query: seq<Option<Field>>, r: nat, ghost fields: seq<Option<Field>>)
    returns (writes: seq<Write>)
    requires ValidWorld(w) && Places(w, placed) && PlainFields(w, fields) && AgreeOnWalkable(w, fields, query)
    requires r < |w.grids|
    ensures forall wr :: wr in writes <==> CallsFor(w, placed, fields, r, wr)
  {
    writes := [];
    for k := 0 to |w.outSeams[r]|
      invariant forall wr :: wr in writes ==> CallsFor(w, placed, fields, r, wr)
      invariant forall s :: s in w.outSeams[r][..k] ==>
                  s in w.outSeams[r] && SeamCollected(w, placed, fields, r, s, |w.seams[s].pairs|, writes)
    {
      writes := CollectSeamWrites(w, placed, query, r, w.outSeams[r][k], writes, fields);
    }
    forall wr | CallsFor(w, placed, fields, r, wr) ensures wr in writes {
      AllSeamsCollected(w, placed, fields, r, writes, wr);
    }
  }

  /** Exactly the writes that region r's seams call for. */
  ghost predicate AreWritesOf(w: World, placed: seq<RegionGrid>, fields: seq<Option<Field>>, r: nat, writes: set<Write>)
    requires ValidWorld(w) && Places(w, placed) && PlainFields(w, fields)
  {
    forall wr :: wr in writes <==> CallsFor(w, placed, fields, r, wr)
  }

  /** Region r's field with its halo. */
  ghost predicate HasHalo(
    w: World, placed: seq<RegionGrid>, fields: seq<Option<Field>>, r: nat, query: Option<Field>, halo: set<nat>)
    requires ValidWorld(w) && Places(w, placed) && PlainFields(w, fields) && r < |w.grids|
  {
    if fields[r].None? then
      query.None? && halo == {}
    else
      query.Some? &&
      exists writes: set<Write> ::
        AreWritesOf(w, placed, fields, r, writes) && Written(placed[r], fields[r].value, writes, query.value, halo)
  }

  lemma HaloAgreesOnWalkable(
    w: World, placed: seq<RegionGrid>, fields: seq<Option<Field>>, r: nat, query: Field, halo: set<nat>)
    requires ValidWorld(w) && Places(w, placed) && PlainFields(w, fields) && r < |w.grids|
    requires fields[r].Some? && HasHalo(w, placed, fields, r, Some(query), halo)
    ensures |query| == Size(w.grids[r])
    ensures forall c :: 0 <= c < Size(w.grids[r]) && Walkable(w.grids[r], c) ==> query[c] == fields[r].value[c]
  {
    var writes: set<Write> :| Written(placed[r], fields[r].value, writes, query, halo);
    assert Written(placed[r], fields[r].value, writes, query, halo);
    forall c: nat | c < Size(w.grids[r]) && Walkable(w.grids[r], c) ensures query[c] == fields[r].value[c] {
      assert CellWritten(placed[r], fields[r].value, writes, query, halo, c);
    }
  }

  method WriteRegionHalo(
    w: World, placed: seq<RegionGrid>, query: seq<Option<Field>>, r: nat, ghost fields: seq<Option<Field>>)
    returns (q: Option<Field>, halo: set<nat>)
    requires ValidWorld(w) && Places(w, placed) && PlainFields(w, fields) && AgreeOnWalkable(w, fields, query)
    requires r < |w.grids| && query[r] == fields[r]
    ensures HasHalo(w, placed, fields, r, q, halo)
  {
    halo := {};
    if query[r].None? {
      return None, halo;
    }
    var writes := CollectWrites(w, placed, query, r, fields);
    var field := query[r].value;
    ghost var done: set<Write> := {};
    for i := 0 to |writes|
      invariant done == set wr | wr in writes[..i]
      invariant Written(placed[r], fields[r].value, done, field, halo)
    {
      field, halo := WriteHalo(placed[r], field, halo, writes[i], fields[r].value, done);
      done := done + {writes[i]};
      assert writes[..i + 1] == writes[..i] + [writes[i]];
    }
    assert writes[..|writes|] == writes;
    assert AreWritesOf(w, placed, fields, r, done);
    q := Some(field);
  }

  /** Give every solved region its halo, one region after the other and in place. */
  method WriteHalos(w: World, placed: seq<RegionGrid>, fields: seq<Option<Field>>)
    returns (query: seq<Option<Field>>, halo: seq<set<nat>>)
    requires ValidWorld(w) && Places(w, placed) && PlainFields(w, fields)
    ensures |query| == |halo| == |w.grids|
    ensures forall r :: 0 <= r < |w.grids| ==> HasHalo(w, placed, fields, r, query[r], halo[r])
  {
    query := fields;
    halo := seq(|w.grids|, _ => {});
    for r := 0 to |w.grids|
      invariant |query| == |halo| == |w.grids|
      invariant forall x :: r <= x < |w.grids| ==> query[x] == fields[x]
      invariant forall x :: 0 <= x < r ==> HasHalo(w, placed, fields, x, query[x], halo[x])
      invariant AgreeOnWalkable(w, fields, query)
    {
      var q, h := WriteRegionHalo(w, placed, query, r, fields);
      if fields[r].Some? {
        HaloAgreesOnWalkable(w, placed, fields, r, q.value, h);
      }
      query := query[r := q];
      halo := halo[r := h];
    }
  }

  /** Travel time for every cell of a region: the stored field with the halo masked, which is the
      plain field. */
  method TravelTimesOf(
    w: World, placed: seq<RegionGrid>, query: seq<Option<Field>>, halo: seq<set<nat>>, r: nat,
    ghost fields: seq<Option<Field>>)
    returns (times: Field)
    requires ValidWorld(w) && Places(w, placed) && PlainFields(w, fields)
    requires |query| == |halo| == |w.grids| && r < |w.grids|
    requires HasHalo(w, placed, fields, r, query[r], halo[r])
    ensures times == TimesOf(w, fields)[r]
  {
    if query[r].None? {
      return seq(Size(w.grids[r]), _ => Inf);
    }
    ghost var writes: set<Write> :| Written(placed[r], fields[r].value, writes, query[r].value, halo[r]);
    times := seq(|query[r].value|, c requires 0 <= c < |query[r].value| => if c in halo[r] then Inf
      else query[r].value[c]);
    forall c | 0 <= c < |times| ensures times[c] == fields[r].value[c] {
      MaskingRecovers(placed[r], fields[r].value, writes, query[r].value, halo[r], c);
    }
  }
}
