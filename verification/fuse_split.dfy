/** The sequential path of the bond-making processor over a whole system:
    tag each molecule's atoms with the molecule's index, join all molecules
    into one graph with consecutive integer keys, make bonds once, and split
    the result into one molecule per connected component of the residue
    graph. */
module FuseSplit {
  import opened Outcome
  import opened Molecules
  import opened ForceFields
  import opened Bonding
  import opened Components

  /** The position of `x` in `s`, or `|s|` when it is absent. */
  function IndexOf(s: seq<NodeId>, x: NodeId): (i: nat)
    ensures i <= |s|
    ensures x in s ==> i < |s| && s[i] == x
  {
    if s == [] then 0 else if s[0] == x then 0 else 1 + IndexOf(s[1..], x)
  }

  lemma {:induction false} IndexOfDistinct(s: seq<NodeId>, i: nat)
    requires Distinct(s) && i < |s|
    ensures IndexOf(s, s[i]) == i
  {
  }

  /** Every molecule of the system is well formed. The trigger keeps the
      solver from unfolding the invariant for every molecule it sees; proofs
      name the molecule they need. */
  predicate AllWellFormed(mols: seq<Graph>) {
    forall j {:trigger WellFormed(mols[j])} | 0 <= j < |mols| :: WellFormed(mols[j])
  }

  /** The number of atoms in the molecules before molecule `i`, which is the
      first key molecule `i` receives in the joined graph. */
  function Offset(mols: seq<Graph>, i: nat): nat
    requires i <= |mols|
  {
    if i == 0 then 0 else Offset(mols, i - 1) + |mols[i - 1].order|
  }

  /** The number of atoms in the whole system. */
  function Total(mols: seq<Graph>): nat {
    Offset(mols, |mols|)
  }

  lemma {:induction false} OffsetMonotone(mols: seq<Graph>, i: nat, j: nat)
    requires i <= j <= |mols|
    ensures Offset(mols, i) <= Offset(mols, j)
    decreases j
  {
    if i < j {
      OffsetMonotone(mols, i, j - 1);
    }
  }

  /** The key ranges of two different molecules do not overlap. */
  lemma {:induction false} OwnerUnique(mols: seq<Graph>, i: nat, j: nat, x: nat)
    requires i < |mols| && j < |mols|
    requires Offset(mols, i) <= x < Offset(mols, i + 1)
    requires Offset(mols, j) <= x < Offset(mols, j + 1)
    ensures i == j
  {
    if i < j {
      OffsetMonotone(mols, i + 1, j);
    } else if j < i {
      OffsetMonotone(mols, j + 1, i);
    }
  }

  /** The molecule whose key range holds `x`, searching from molecule `i`. */
  function OwnerFrom(mols: seq<Graph>, x: nat, i: nat): (t: nat)
    requires i <= |mols| && Offset(mols, i) <= x < Total(mols)
    ensures i <= t < |mols| && Offset(mols, t) <= x < Offset(mols, t + 1)
    decreases |mols| - i
  {
    if x < Offset(mols, i + 1) then i else OwnerFrom(mols, x, i + 1)
  }

  /** The molecule key `x` of the joined graph came from. */
  function Owner(mols: seq<Graph>, x: nat): (t: nat)
    requires x < Total(mols)
    ensures t < |mols| && Offset(mols, t) <= x < Offset(mols, t + 1)
  {
    OwnerFrom(mols, x, 0)
  }

  /** Atom `k` of molecule `i` is owned by molecule `i`. */
  lemma {:induction false} OwnerOf(mols: seq<Graph>, i: nat, k: nat)
    requires i < |mols| && k < |mols[i].order|
    ensures Offset(mols, i) + k < Total(mols)
    ensures Owner(mols, Offset(mols, i) + k) == i
  {
    OffsetMonotone(mols, i + 1, |mols|);
    OwnerUnique(mols, i, Owner(mols, Offset(mols, i) + k), Offset(mols, i) + k);
  }

  /** Bond `e` of molecule `m` after renumbering from `offset`. */
  function RenumberEdge(m: Graph, offset: nat, e: Edge): Edge
  {
    Bond(offset + IndexOf(m.order, e.lo), offset + IndexOf(m.order, e.hi))
  }

  lemma {:induction false} RenumberedEdgeBack(m: Graph, offset: nat, e: Edge, k: nat, l: nat)
    requires WellFormed(m) && e in m.edges
    requires k < |m.order| && l < |m.order|
    requires Bond(offset + k, offset + l) == RenumberEdge(m, offset, e)
    ensures Bond(m.order[k], m.order[l]) == e
  {
    var a := IndexOf(m.order, e.lo);
    var b := IndexOf(m.order, e.hi);
    BondInjective(offset + k, offset + l, offset + a, offset + b);
    BondSymmetric(m.order[k], m.order[l]);
  }

  lemma {:induction false} RenumberedEdgeForth(m: Graph, offset: nat, k: nat, l: nat)
    requires WellFormed(m)
    requires k < |m.order| && l < |m.order|
    requires Bond(m.order[k], m.order[l]) in m.edges
    ensures RenumberEdge(m, offset, Bond(m.order[k], m.order[l])) == Bond(offset + k, offset + l)
  {
    IndexOfDistinct(m.order, k);
    IndexOfDistinct(m.order, l);
    BondSymmetric(offset + k, offset + l);
  }

  /** Atom `a` tagged with the index `t` of its molecule. */
  function Tagged(a: Atom, t: nat): (r: Atom)
    ensures r.molIdx == Some(t)
  {
    a.(molIdx := Some(t))
  }

  /** The attributes of key `x` of the joined graph: those of the atom of
      the owning molecule at that place in its order, tagged with the
      molecule's index. (The fallback never applies to well-formed
      molecules.) */
  function FusedAtom(mols: seq<Graph>, x: NodeId): Atom {
    if x < Total(mols) then
      var t := Owner(mols, x);
      var m := mols[t];
      var k := x - Offset(mols, t);
      if m.order[k] in m.atoms then Tagged(m.atoms[m.order[k]], t) else Bare
    else Bare
  }

  /** `nx.disjoint_union_all` of the molecules, each atom first tagged with
      its molecule's index: molecule `i`'s atoms get the keys from
      `Offset(mols, i)` on, in its iteration order, and its bonds follow
      them. */
  function Fuse(mols: seq<Graph>): Graph
  {
    Graph(seq(Total(mols), k => k),
          map x: NodeId | x < Total(mols) :: FusedAtom(mols, x),
          FusedEdges(mols, |mols|))
  }

  /** The bonds of molecule `m` renumbered from `offset`. */
  function RenumberEdges(m: Graph, offset: nat): set<Edge> {
    set e | e in m.edges :: RenumberEdge(m, offset, e)
  }

  /** The bonds of molecule `i` with its keys in the joined graph. */
  function Renumbered(mols: seq<Graph>, i: nat): set<Edge>
    requires i < |mols|
  {
    RenumberEdges(mols[i], Offset(mols, i))
  }

  /** The renumbered bonds of the first `n` molecules. */
  function FusedEdges(mols: seq<Graph>, n: nat): set<Edge>
    requires n <= |mols|
  {
    if n == 0 then {} else FusedEdges(mols, n - 1) + Renumbered(mols, n - 1)
  }

  /** The molecule among the first `n` whose renumbered bonds hold `e`, the
      last one when several do. */
  function SourceOf(mols: seq<Graph>, n: nat, e: Edge): nat
    requires n <= |mols|
  {
    if n == 0 then 0 else if e in Renumbered(mols, n - 1) then n - 1 else SourceOf(mols, n - 1, e)
  }

  lemma {:induction false} FusedEdgesSource(mols: seq<Graph>, n: nat, e: Edge)
    requires n <= |mols| && e in FusedEdges(mols, n)
    ensures SourceOf(mols, n, e) < n && e in Renumbered(mols, SourceOf(mols, n, e))
  {
    if e !in Renumbered(mols, n - 1) {
      FusedEdgesSource(mols, n - 1, e);
    }
  }

  lemma {:induction false} FusedEdgesHas(mols: seq<Graph>, n: nat, i: nat, e: Edge)
    requires i < n <= |mols| && e in Renumbered(mols, i)
    ensures e in FusedEdges(mols, n)
  {
    if i < n - 1 {
      FusedEdgesHas(mols, n - 1, i, e);
    }
  }

  /** A bond of the joined graph joins two of its keys, smaller first. */
  lemma {:induction false} FuseEdgesInside(mols: seq<Graph>, e: Edge)
    requires AllWellFormed(mols)
    requires e in Fuse(mols).edges
    ensures e.lo <= e.hi < Total(mols)
  {
    FusedEdgesSource(mols, |mols|, e);
    var i := SourceOf(mols, |mols|, e);
    assert WellFormed(mols[i]);
    RenumberedInside(mols, i, e);
    OffsetMonotone(mols, i + 1, |mols|);
  }

  /** A renumbered bond of molecule `i` joins keys of its range. */
  lemma {:induction false} RenumberedInside(mols: seq<Graph>, i: nat, e: Edge)
    requires i < |mols| && WellFormed(mols[i]) && e in Renumbered(mols, i)
    ensures Offset(mols, i) <= e.lo <= e.hi < Offset(mols, i + 1)
  {
    var e' :| e' in mols[i].edges && e == RenumberEdge(mols[i], Offset(mols, i), e');
    RenumberEdgeInside(mols[i], Offset(mols, i), e');
  }

  /** A renumbered bond joins keys of the molecule's range. */
  lemma {:induction false} RenumberEdgeInside(m: Graph, offset: nat, e: Edge)
    requires WellFormed(m) && e in m.edges
    ensures offset <= RenumberEdge(m, offset, e).lo <= RenumberEdge(m, offset, e).hi < offset + |m.order|
  {
    assert e.lo in m.order && e.hi in m.order;
  }

  /** The joined graph is well formed, its keys are 0 up to the atom count
      in order. */
  lemma {:induction false} FuseWellFormed(mols: seq<Graph>)
    requires AllWellFormed(mols)
    ensures WellFormed(Fuse(mols))
    ensures Fuse(mols).order == seq(Total(mols), k => k)
    ensures forall x: NodeId :: x in Fuse(mols).atoms <==> x < Total(mols)
  {
    var f := Fuse(mols);
    forall x | x in f.atoms ensures x in f.order {
      assert f.order[x] == x;
    }
    forall e | e in f.edges ensures e.lo in f.atoms && e.hi in f.atoms && e.lo <= e.hi {
      FuseEdgesInside(mols, e);
    }
  }

  /** Atom `k` of molecule `i` becomes atom `Offset(mols, i) + k`, with all
      its attributes and the molecule index `i`. */
  lemma {:induction false} FuseAtoms(mols: seq<Graph>, i: nat, k: nat)
    requires AllWellFormed(mols)
    requires i < |mols| && k < |mols[i].order|
    ensures Offset(mols, i) + k in Fuse(mols).atoms && mols[i].order[k] in mols[i].atoms
    ensures Fuse(mols).atoms[Offset(mols, i) + k] == Tagged(mols[i].atoms[mols[i].order[k]], i)
  {
    FuseAtomIn(mols, i, k);
    FuseAtomValue(mols, i, k);
  }

  lemma {:induction false} FuseAtomIn(mols: seq<Graph>, i: nat, k: nat)
    requires AllWellFormed(mols)
    requires i < |mols| && k < |mols[i].order|
    ensures Offset(mols, i) + k in Fuse(mols).atoms
  {
    FusedAtomOf(mols, i, k);
    FuseAtomIsFused(mols, Offset(mols, i) + k);
  }

  lemma {:induction false} FuseAtomValue(mols: seq<Graph>, i: nat, k: nat)
    requires AllWellFormed(mols)
    requires i < |mols| && k < |mols[i].order|
    requires Offset(mols, i) + k in Fuse(mols).atoms
    ensures mols[i].order[k] in mols[i].atoms
    ensures Fuse(mols).atoms[Offset(mols, i) + k] == Tagged(mols[i].atoms[mols[i].order[k]], i)
  {
    FusedAtomOf(mols, i, k);
    FuseAtomIsFused(mols, Offset(mols, i) + k);
  }

  lemma {:induction false} FuseAtomIsFused(mols: seq<Graph>, x: NodeId)
    requires AllWellFormed(mols)
    requires x < Total(mols)
    ensures x in Fuse(mols).atoms && Fuse(mols).atoms[x] == FusedAtom(mols, x)
  {
  }

  lemma {:induction false} FusedAtomOf(mols: seq<Graph>, i: nat, k: nat)
    requires AllWellFormed(mols)
    requires i < |mols| && k < |mols[i].order|
    ensures Offset(mols, i) + k < Total(mols) && mols[i].order[k] in mols[i].atoms
    ensures FusedAtom(mols, Offset(mols, i) + k) == Tagged(mols[i].atoms[mols[i].order[k]], i)
  {
    assert WellFormed(mols[i]);
    assert mols[i].order[k] in mols[i].atoms;
    OwnerOf(mols, i, k);
    FusedAtomAt(mols, i, k);
  }

  lemma {:induction false} FusedAtomAt(mols: seq<Graph>, i: nat, k: nat)
    requires i < |mols| && k < |mols[i].order|
    requires Offset(mols, i) + k < Total(mols) && Owner(mols, Offset(mols, i) + k) == i
    ensures FusedAtom(mols, Offset(mols, i) + k)
            == if mols[i].order[k] in mols[i].atoms then Tagged(mols[i].atoms[mols[i].order[k]], i) else Bare
  {
    assert Offset(mols, i) + k - Offset(mols, i) == k;
  }


  /** Every atom of the joined graph carries the index of the molecule it
      came from, and is that molecule's atom at its place in the range. */
  lemma {:induction false} FuseOwner(mols: seq<Graph>, x: NodeId)
    requires AllWellFormed(mols)
    requires x in Fuse(mols).atoms
    ensures x < Total(mols)
    ensures Fuse(mols).atoms[x].molIdx == Some(Owner(mols, x))
    ensures x - Offset(mols, Owner(mols, x)) < |mols[Owner(mols, x)].order|
  {
    var t := Owner(mols, x);
    assert WellFormed(mols[t]);
    FuseAtomIsFused(mols, x);
    assert mols[t].order[x - Offset(mols, t)] in mols[t].atoms;
  }

  /** Two atoms of molecule `i` are bonded in the joined graph exactly when
      they were in the molecule. */
  lemma {:induction false} FuseBond(mols: seq<Graph>, i: nat, k: nat, l: nat)
    requires AllWellFormed(mols)
    requires i < |mols| && k < |mols[i].order| && l < |mols[i].order|
    ensures Bond(Offset(mols, i) + k, Offset(mols, i) + l) in Fuse(mols).edges
            <==> Bond(mols[i].order[k], mols[i].order[l]) in mols[i].edges
  {
    var b := Bond(Offset(mols, i) + k, Offset(mols, i) + l);
    assert WellFormed(mols[i]);
    if b in Fuse(mols).edges {
      FusedEdgesSource(mols, |mols|, b);
      var j := SourceOf(mols, |mols|, b);
      assert WellFormed(mols[j]);
      FusedBondBack(mols, i, j, k, l);
    }
    if Bond(mols[i].order[k], mols[i].order[l]) in mols[i].edges {
      FusedBondForth(mols, i, k, l);
      FusedEdgesHas(mols, |mols|, i, b);
    }
  }

  lemma {:induction false} FusedBondBack(mols: seq<Graph>, i: nat, j: nat, k: nat, l: nat)
    requires i < |mols| && j < |mols| && WellFormed(mols[i]) && WellFormed(mols[j])
    requires k < |mols[i].order| && l < |mols[i].order|
    requires Bond(Offset(mols, i) + k, Offset(mols, i) + l) in Renumbered(mols, j)
    ensures Bond(mols[i].order[k], mols[i].order[l]) in mols[i].edges
  {
    var off := Offset(mols, i);
    var b := Bond(off + k, off + l);
    RenumberedInside(mols, j, b);
    assert Offset(mols, i + 1) == off + |mols[i].order|;
    OwnerUnique(mols, i, j, b.lo);
    var e :| e in mols[i].edges && b == RenumberEdge(mols[i], off, e);
    RenumberedEdgeBack(mols[i], off, e, k, l);
  }

  lemma {:induction false} FusedBondForth(mols: seq<Graph>, i: nat, k: nat, l: nat)
    requires i < |mols| && WellFormed(mols[i])
    requires k < |mols[i].order| && l < |mols[i].order|
    requires Bond(mols[i].order[k], mols[i].order[l]) in mols[i].edges
    ensures Bond(Offset(mols, i) + k, Offset(mols, i) + l) in Renumbered(mols, i)
  {
    RenumberedEdgeForth(mols[i], Offset(mols, i), k, l);
  }

  /** The joined graph with its bonds made, from which the output is cut. */
  function Bonded(mols: seq<Graph>, ff: ForceField, allowName: bool, allowDist: bool, fudge: real, metric: Metric)
    : (r: Result<Graph, BondError>)
    requires AllWellFormed(mols)
    ensures r.Ok? ==> WellFormed(r.value) && r.value.atoms == Fuse(mols).atoms && Fuse(mols).edges <= r.value.edges
    ensures r.Err? <==> allowDist && !AllLocated(Fuse(mols).atoms, Fuse(mols).atoms.Keys)
  {
    FuseWellFormed(mols);
    var r := MakeBonds(Fuse(mols), ff, allowName, allowDist, fudge, metric);
    if r.Ok? then
      MakeBondsWellFormed(Fuse(mols), ff, allowName, allowDist, fudge, metric);
      r
    else r
  }

  /** The index of the first molecule of `parts` holding atom `x`, or
      `|parts|` when none does. */
  function PartOf(parts: seq<Graph>, x: NodeId): (j: nat)
    ensures j <= |parts|
    ensures j < |parts| ==> x in parts[j].atoms
    ensures forall t | 0 <= t < |parts| && x in parts[t].atoms :: j <= t
  {
    PartFrom(parts, x, 0)
  }

  function PartFrom(parts: seq<Graph>, x: NodeId, t: nat): (j: nat)
    requires t <= |parts|
    ensures t <= j <= |parts|
    ensures j < |parts| ==> x in parts[j].atoms
    ensures forall s | t <= s < |parts| && x in parts[s].atoms :: j <= s
    decreases |parts| - t
  {
    if t == |parts| || x in parts[t].atoms then t else PartFrom(parts, x, t + 1)
  }

  /** One molecule per part of the split, each the subgraph of its atoms. */
  function Cut(g: Graph): (out: seq<Graph>)
    requires WellFormed(g)
    ensures |out| == |Split(g)|
    ensures forall j | 0 <= j < |out| :: WellFormed(out[j]) && out[j].atoms.Keys == Split(g)[j]
  {
    var parts := Split(g);
    PartsAreSubgraphs(g);
    seq(|parts|, j requires 0 <= j < |parts| => Subgraph(g, parts[j]))
  }

  lemma {:induction false} PartsAreSubgraphs(g: Graph)
    requires WellFormed(g)
    ensures forall j | 0 <= j < |Split(g)| :: Subgraph(g, Split(g)[j]).atoms.Keys == Split(g)[j]
  {
    SplitPartsInside(g);
    forall j | 0 <= j < |Split(g)| ensures Subgraph(g, Split(g)[j]).atoms.Keys == Split(g)[j] {
      var p := Split(g)[j];
      assert p <= g.atoms.Keys;
      assert g.atoms.Keys * p == p;
    }
  }

  /** `MakeBonds.run_system` without parallelism: nothing happens on an empty
      system; otherwise the molecules are joined, bonds are made once, and the
      result is split into its residue-graph components, in order of their
      first atom. */
  function RunSystem(mols: seq<Graph>, ff: ForceField, allowName: bool, allowDist: bool, fudge: real, metric: Metric)
    : (r: Result<seq<Graph>, BondError>)
    requires AllWellFormed(mols)
    ensures mols == [] ==> r == Ok([])
    ensures r.Ok? ==> forall j | 0 <= j < |r.value| :: WellFormed(r.value[j])
  {
    if mols == [] then Ok([])
    else
      var bonded :- Bonded(mols, ff, allowName, allowDist, fudge, metric);
      Ok(Cut(bonded))
  }

  /** Two atoms of the joined graph that share a residue key come from the
      same molecule, whatever their chain, residue id and name. */
  lemma {:induction false} NoResidueSpansMolecules(mols: seq<Graph>, u: NodeId, v: NodeId)
    requires AllWellFormed(mols)
    requires u in Fuse(mols).atoms && v in Fuse(mols).atoms
    requires KeyOf(Fuse(mols).atoms[u]) == KeyOf(Fuse(mols).atoms[v])
    ensures u < Total(mols) && v < Total(mols)
    ensures Owner(mols, u) == Owner(mols, v)
  {
    FuseOwner(mols, u);
    FuseOwner(mols, v);
  }

  /** Running fails exactly when distances are allowed and some atom of
      known radius in some molecule has no position. */
  lemma {:induction false} RunSystemFails(mols: seq<Graph>, ff: ForceField, allowName: bool, allowDist: bool, fudge: real, metric: Metric)
    requires AllWellFormed(mols)
    ensures RunSystem(mols, ff, allowName, allowDist, fudge, metric).Err? <==>
      allowDist && exists i, n | 0 <= i < |mols| && n in mols[i].atoms ::
        Radius(mols[i].atoms[n]).Some? && mols[i].atoms[n].position.None?
  {
    if mols != [] {
      FuseWellFormed(mols);
      FuseUnlocated(mols);
    }
  }

  /** The joined graph has an atom of known radius without a position
      exactly when some input molecule has one. */
  lemma {:induction false} FuseUnlocated(mols: seq<Graph>)
    requires AllWellFormed(mols)
    ensures !AllLocated(Fuse(mols).atoms, Fuse(mols).atoms.Keys) <==>
      exists i, n | 0 <= i < |mols| && n in mols[i].atoms ::
        Radius(mols[i].atoms[n]).Some? && mols[i].atoms[n].position.None?
  {
    if exists i, n | 0 <= i < |mols| && n in mols[i].atoms :: Radius(mols[i].atoms[n]).Some? && mols[i].atoms[n].position.None? {
      var i, n :| 0 <= i < |mols| && n in mols[i].atoms && Radius(mols[i].atoms[n]).Some? && mols[i].atoms[n].position.None?;
      UnlocatedFused(mols, i, n);
    }
    if !AllLocated(Fuse(mols).atoms, Fuse(mols).atoms.Keys) {
      var x :| x in Eligible(Fuse(mols).atoms, Fuse(mols).atoms.Keys) && Fuse(mols).atoms[x].position.None?;
      UnlocatedInput(mols, x);
    }
  }

  /** An input atom of known radius without a position stays one, renumbered. */
  lemma {:induction false} UnlocatedFused(mols: seq<Graph>, i: nat, n: NodeId)
    requires AllWellFormed(mols)
    requires i < |mols| && n in mols[i].atoms
    requires Radius(mols[i].atoms[n]).Some? && mols[i].atoms[n].position.None?
    ensures !AllLocated(Fuse(mols).atoms, Fuse(mols).atoms.Keys)
  {
    var f := Fuse(mols);
    assert WellFormed(mols[i]);
    var k := IndexOf(mols[i].order, n);
    FuseAtoms(mols, i, k);
    assert Offset(mols, i) + k in Eligible(f.atoms, f.atoms.Keys);
  }

  /** A joined atom of known radius without a position comes from such an
      input atom. */
  lemma {:induction false} UnlocatedInput(mols: seq<Graph>, x: NodeId)
    requires AllWellFormed(mols)
    requires x in Eligible(Fuse(mols).atoms, Fuse(mols).atoms.Keys) && Fuse(mols).atoms[x].position.None?
    ensures exists i, n | 0 <= i < |mols| && n in mols[i].atoms ::
      Radius(mols[i].atoms[n]).Some? && mols[i].atoms[n].position.None?
  {
    var f := Fuse(mols);
    FuseOwner(mols, x);
    var i := f.atoms[x].molIdx.value;
    var k := x - Offset(mols, i);
    FuseAtoms(mols, i, k);
    assert mols[i].order[k] in mols[i].atoms;
  }

  /** A successful run is the cut of the bonded, joined graph. */
  lemma {:induction false} RunSystemIsCut(mols: seq<Graph>, ff: ForceField, allowName: bool, allowDist: bool, fudge: real, metric: Metric)
    requires AllWellFormed(mols)
    requires mols != [] && RunSystem(mols, ff, allowName, allowDist, fudge, metric).Ok?
    ensures Bonded(mols, ff, allowName, allowDist, fudge, metric).Ok?
    ensures RunSystem(mols, ff, allowName, allowDist, fudge, metric).value == Cut(Bonded(mols, ff, allowName, allowDist, fudge, metric).value)
  {
  }

  /** The cut partitions the graph's atoms: no part is empty, no two share
      an atom, and every atom is in one. */
  lemma {:induction false} CutPartitions(g: Graph)
    requires WellFormed(g)
    ensures forall j | 0 <= j < |Cut(g)| :: Cut(g)[j].atoms != map[]
    ensures forall j, j' | 0 <= j < j' < |Cut(g)| :: Cut(g)[j].atoms.Keys * Cut(g)[j'].atoms.Keys == {}
    ensures forall x | x in g.atoms :: PartOf(Cut(g), x) < |Cut(g)|
  {
    CutPartsNonEmpty(g);
    SplitDisjointParts(g);
    forall x | x in g.atoms ensures PartOf(Cut(g), x) < |Cut(g)| {
      CutCovers(g, x);
    }
  }

  lemma {:induction false} CutPartsNonEmpty(g: Graph)
    requires WellFormed(g)
    ensures forall j | 0 <= j < |Cut(g)| :: Cut(g)[j].atoms != map[]
  {
    var out := Cut(g);
    SplitPartsInside(g);
    forall j | 0 <= j < |out| ensures out[j].atoms != map[] {
      var x :| x in Split(g)[j];
      assert x in out[j].atoms;
    }
  }

  lemma {:induction false} CutCovers(g: Graph, x: NodeId)
    requires WellFormed(g) && x in g.atoms
    ensures PartOf(Cut(g), x) < |Cut(g)|
  {
    SplitCovers(g, x);
    var j :| 0 <= j < |Split(g)| && x in Split(g)[j];
    assert x in Cut(g)[j].atoms;
  }

  /** A part holds whole residues and keeps every bond at its atoms. */
  lemma {:induction false} CutKeepsLinks(g: Graph, j: nat, u: NodeId, v: NodeId)
    requires WellFormed(g) && j < |Cut(g)|
    requires u in Cut(g)[j].atoms && v in g.atoms
    ensures KeyOf(g.atoms[u]) == KeyOf(g.atoms[v]) ==> v in Cut(g)[j].atoms
    ensures Bond(u, v) in g.edges ==> v in Cut(g)[j].atoms && Bond(u, v) in Cut(g)[j].edges
  {
    if Linked(g, u, v) {
      SplitKeepsLinksInside(g, j, u, v);
    }
  }

  /** The output molecules partition the atoms of the joined graph: none is
      empty, no two share an atom, and every atom is in one. */
  lemma {:induction false} RunSystemPartitions(mols: seq<Graph>, ff: ForceField, allowName: bool, allowDist: bool, fudge: real, metric: Metric)
    requires AllWellFormed(mols)
    requires RunSystem(mols, ff, allowName, allowDist, fudge, metric).Ok?
    ensures var out := RunSystem(mols, ff, allowName, allowDist, fudge, metric).value;
      && (forall j | 0 <= j < |out| :: out[j].atoms != map[])
      && (forall j, j' | 0 <= j < j' < |out| :: out[j].atoms.Keys * out[j'].atoms.Keys == {})
      && (forall x | x in Fuse(mols).atoms :: PartOf(out, x) < |out|)
  {
    FuseWellFormed(mols);
    if mols != [] {
      RunSystemIsCut(mols, ff, allowName, allowDist, fudge, metric);
      CutPartitions(Bonded(mols, ff, allowName, allowDist, fudge, metric).value);
    }
  }

  /** Each output molecule holds whole residues and keeps every bond of the
      joined graph at its atoms, so no bond joins two outputs. */
  lemma {:induction false} RunSystemKeepsBondsAndResidues(mols: seq<Graph>, ff: ForceField, allowName: bool, allowDist: bool, fudge: real, metric: Metric,
                                       j: nat, u: NodeId, v: NodeId)
    requires AllWellFormed(mols)
    requires RunSystem(mols, ff, allowName, allowDist, fudge, metric).Ok?
    requires j < |RunSystem(mols, ff, allowName, allowDist, fudge, metric).value|
    requires u in RunSystem(mols, ff, allowName, allowDist, fudge, metric).value[j].atoms
    requires v in Fuse(mols).atoms
    ensures Bonded(mols, ff, allowName, allowDist, fudge, metric).Ok?
    ensures var bonded := Bonded(mols, ff, allowName, allowDist, fudge, metric).value;
      var out := RunSystem(mols, ff, allowName, allowDist, fudge, metric).value;
      && (KeyOf(bonded.atoms[u]) == KeyOf(bonded.atoms[v]) ==> v in out[j].atoms)
      && (Bond(u, v) in bonded.edges ==> v in out[j].atoms && Bond(u, v) in out[j].edges)
  {
    RunSystemIsCut(mols, ff, allowName, allowDist, fudge, metric);
    var bonded := Bonded(mols, ff, allowName, allowDist, fudge, metric).value;
    CutKeepsLinks(bonded, j, u, v);
  }

  /** Any two atoms of one output molecule are connected by bonds and
      shared residues. */
  lemma {:induction false} RunSystemConnected(mols: seq<Graph>, ff: ForceField, allowName: bool, allowDist: bool, fudge: real, metric: Metric,
                           j: nat, u: NodeId, v: NodeId)
    requires AllWellFormed(mols)
    requires RunSystem(mols, ff, allowName, allowDist, fudge, metric).Ok?
    requires j < |RunSystem(mols, ff, allowName, allowDist, fudge, metric).value|
    requires u in RunSystem(mols, ff, allowName, allowDist, fudge, metric).value[j].atoms
    requires v in RunSystem(mols, ff, allowName, allowDist, fudge, metric).value[j].atoms
    ensures Bonded(mols, ff, allowName, allowDist, fudge, metric).Ok?
    ensures Reaches(Bonded(mols, ff, allowName, allowDist, fudge, metric).value, u, v)
  {
    RunSystemIsCut(mols, ff, allowName, allowDist, fudge, metric);
    var bonded := Bonded(mols, ff, allowName, allowDist, fudge, metric).value;
    SplitComponentsConnected(bonded, j, u, v);
  }

  /** Every bond of the joined graph, and so (by `FuseBond`) every bond of an
      input molecule renumbered, lies in the output molecule holding its
      first atom. */
  lemma {:induction false} RunSystemKeepsFusedBonds(mols: seq<Graph>, ff: ForceField, allowName: bool, allowDist: bool, fudge: real, metric: Metric,
                                 u: NodeId, v: NodeId)
    requires AllWellFormed(mols)
    requires RunSystem(mols, ff, allowName, allowDist, fudge, metric).Ok?
    requires u in Fuse(mols).atoms && Bond(u, v) in Fuse(mols).edges
    ensures var out := RunSystem(mols, ff, allowName, allowDist, fudge, metric).value;
      PartOf(out, u) < |out| && Bond(u, v) in out[PartOf(out, u)].edges
  {
    RunSystemIsCut(mols, ff, allowName, allowDist, fudge, metric);
    CutKeepsBondOf(Fuse(mols), Bonded(mols, ff, allowName, allowDist, fudge, metric).value, u, v);
  }

  /** A bond of a graph `f` lies in one part of the cut of any graph that
      keeps the atoms and bonds of `f`. */
  lemma {:induction false} CutKeepsBondOf(f: Graph, g: Graph, u: NodeId, v: NodeId)
    requires WellFormed(g) && g.atoms == f.atoms && f.edges <= g.edges
    requires u in f.atoms && Bond(u, v) in f.edges
    ensures PartOf(Cut(g), u) < |Cut(g)| && Bond(u, v) in Cut(g)[PartOf(Cut(g), u)].edges
  {
    CutKeepsBond(g, u, v);
  }

  /** A bond of molecule `i` is a bond of the joined graph between two of
      its atoms. */
  lemma {:induction false} FuseKeepsInputBond(mols: seq<Graph>, i: nat, k: nat, l: nat)
    requires AllWellFormed(mols)
    requires i < |mols| && k < |mols[i].order| && l < |mols[i].order|
    requires Bond(mols[i].order[k], mols[i].order[l]) in mols[i].edges
    ensures Offset(mols, i) + k in Fuse(mols).atoms
    ensures Bond(Offset(mols, i) + k, Offset(mols, i) + l) in Fuse(mols).edges
  {
    FuseBond(mols, i, k, l);
    FuseAtoms(mols, i, k);
  }

  /** A bond at an atom of the graph lies inside one part of the cut. */
  lemma {:induction false} CutKeepsBond(g: Graph, u: NodeId, v: NodeId)
    requires WellFormed(g) && u in g.atoms && Bond(u, v) in g.edges
    ensures PartOf(Cut(g), u) < |Cut(g)| && Bond(u, v) in Cut(g)[PartOf(Cut(g), u)].edges
  {
    CutPartitions(g);
    var j := PartOf(Cut(g), u);
    var e := Bond(u, v);
    assert v in g.atoms by {
      assert e.lo in g.atoms && e.hi in g.atoms;
    }
    CutKeepsLinks(g, j, u, v);
  }

}
