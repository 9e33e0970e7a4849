/** Bond inference within one (possibly fused) molecule: atoms are grouped by
    residue, bonds are copied from the force field's reference blocks by atom
    name, and the remaining bonds are guessed from inter-atomic distances
    compared with Van der Waals radii. Positions are opaque; the distance
    between two positions is the parameter `metric`. */
module Bonding {
  import opened Outcome
  import opened Molecules
  import opened ForceFields

  /** Van der Waals radii in nm, per element, in the order of the source's
      table. The entry for Se reads 1.90. */
  const VdwRadii: seq<(string, real)> := [
    ("H", 0.120), ("He", 0.140), ("C", 0.170), ("N", 0.155), ("O", 0.152),
    ("F", 0.147), ("Ne", 0.154), ("Si", 0.210), ("P", 0.180), ("S", 0.180),
    ("Cl", 0.175), ("Ar", 0.188), ("As", 0.185), ("Se", 1.90), ("Br", 0.185),
    ("Kr", 0.202), ("Te", 0.206), ("I", 0.198), ("Xe", 0.216)]

  /** The largest radius of the table. */
  const MaxRadius: real := 1.90

  /** The radius the table gives element `el` (`VDW_RADII.get(el)`). */
  function Lookup(table: seq<(string, real)>, el: string): Option<real> {
    if table == [] then None
    else if table[0].0 == el then Some(table[0].1)
    else Lookup(table[1..], el)
  }

  /** A lookup finds one of the table's radii. */
  lemma {:induction false} LookupBounded(table: seq<(string, real)>, el: string, lo: real, hi: real)
    requires forall i | 0 <= i < |table| :: lo < table[i].1 <= hi
    ensures Lookup(table, el).Some? ==> lo < Lookup(table, el).value <= hi
  {
    if table != [] && table[0].0 != el {
      LookupBounded(table[1..], el, lo, hi);
    }
  }

  /** A lookup finds the first entry of its element. */
  lemma {:induction false} LookupHit(table: seq<(string, real)>, el: string, j: nat)
    requires j < |table| && table[j].0 == el
    requires forall k | 0 <= k < j :: table[k].0 != el
    ensures Lookup(table, el) == Some(table[j].1)
  {
    if j > 0 {
      assert table[0].0 != el;
      LookupHit(table[1..], el, j - 1);
    }
  }

  /** Every radius is positive and at most the largest, which is Se's. */
  lemma {:induction false} MaxRadiusIsLargest(el: string)
    ensures Lookup(VdwRadii, el).Some? ==> 0.0 < Lookup(VdwRadii, el).value <= MaxRadius
  {
    var t := VdwRadii;
    assert forall i | 0 <= i < |t| :: 0.0 < t[i].1 <= MaxRadius;
    LookupBounded(t, el, 0.0, MaxRadius);
  }

  lemma {:induction false} SeleniumRadius()
    ensures Lookup(VdwRadii, "Se") == Some(MaxRadius)
  {
    var t := VdwRadii;
    assert t[13] == ("Se", 1.90);
    forall k | 0 <= k < 13 ensures t[k].0 != "Se" {
      assert t[k].0[0] != 'S' || |t[k].0| == 1 || t[k].0[1] == 'i';
    }
    LookupHit(t, "Se", 13);
  }

  lemma {:induction false} CarbonRadius()
    ensures Lookup(VdwRadii, "C") == Some(0.170)
  {
    var t := VdwRadii;
    assert t[2] == ("C", 0.170);
    assert t[0].0 != "C" && t[1].0 != "C";
    LookupHit(t, "C", 2);
  }

  /** The radius of an atom's element, when the table knows it. */
  function Radius(a: Atom): Option<real> {
    if a.element.Some? then Lookup(VdwRadii, a.element.value) else None
  }

  /** The residue an atom belongs to: molecule index, chain, residue id and
      residue name, each possibly absent. */
  datatype ResidueKey = ResidueKey(molIdx: Option<nat>, chain: Option<string>, resid: Option<int>, resname: Option<string>)

  function KeyOf(a: Atom): ResidueKey {
    ResidueKey(a.molIdx, a.chain, a.resid, a.resname)
  }

  /** `_collect_residues`: the atoms of each residue key present. Every atom
      lies in the group of its own key, and a group holds only atoms of its key. */
  function CollectResidues(atoms: map<NodeId, Atom>): (groups: map<ResidueKey, set<NodeId>>)
    ensures forall n | n in atoms :: KeyOf(atoms[n]) in groups && n in groups[KeyOf(atoms[n])]
    ensures forall k | k in groups :: groups[k] != {} && forall n | n in groups[k] :: n in atoms && KeyOf(atoms[n]) == k
  {
    var keys := set n | n in atoms :: KeyOf(atoms[n]);
    var groups := map k | k in keys :: set n | n in atoms && KeyOf(atoms[n]) == k;
    assert forall k | k in groups :: exists n :: n in atoms && KeyOf(atoms[n]) == k && n in groups[k];
    groups
  }

  /** Two atoms share a residue group iff all four key attributes agree, and
      no atom lies in two groups. */
  lemma {:induction false} ResidueGroupsExact(atoms: map<NodeId, Atom>, u: NodeId, v: NodeId)
    requires u in atoms && v in atoms
    ensures var groups := CollectResidues(atoms);
      (v in groups[KeyOf(atoms[u])]) <==>
        && atoms[u].molIdx == atoms[v].molIdx
        && atoms[u].chain == atoms[v].chain
        && atoms[u].resid == atoms[v].resid
        && atoms[u].resname == atoms[v].resname
    ensures var groups := CollectResidues(atoms);
      forall k | k in groups && u in groups[k] :: k == KeyOf(atoms[u])
  {
  }

  /** The elements of `s` without repetitions, each at its first position. */
  function Dedup<T(==,!new)>(s: seq<T>): (r: seq<T>)
    ensures Distinct(r)
    ensures forall x :: x in r <==> x in s
  {
    if s == [] then []
    else
      var r := Dedup(s[..|s| - 1]);
      assert forall x :: x in s <==> x in s[..|s| - 1] || x == s[|s| - 1];
      if s[|s| - 1] in r then r else r + [s[|s| - 1]]
  }

  /** Residue keys in the order the groups dictionary iterates them: by the
      first atom of each residue in graph order. */
  function ResidueOrder(g: Graph): (r: seq<ResidueKey>)
    requires WellFormed(g)
    ensures Distinct(r)
    ensures forall k :: k in r <==> k in CollectResidues(g.atoms)
  {
    OrderKeysCover(g.order, g.atoms);
    Dedup(OrderKeys(g.order, g.atoms))
  }

  /** The residue key of each atom of `order`, in that order. */
  function OrderKeys(order: seq<NodeId>, atoms: map<NodeId, Atom>): (keys: seq<ResidueKey>)
    requires forall i | 0 <= i < |order| :: order[i] in atoms
    ensures |keys| == |order|
    ensures forall i | 0 <= i < |order| :: keys[i] == KeyOf(atoms[order[i]])
  {
    seq(|order|, i requires 0 <= i < |order| => KeyOf(atoms[order[i]]))
  }

  /** When `order` lists exactly the atoms, its keys are exactly the
      residues. */
  lemma {:induction false} OrderKeysCover(order: seq<NodeId>, atoms: map<NodeId, Atom>)
    requires forall i | 0 <= i < |order| :: order[i] in atoms
    requires forall n | n in atoms :: n in order
    ensures forall k :: k in OrderKeys(order, atoms) <==> k in CollectResidues(atoms)
  {
    var keys := OrderKeys(order, atoms);
    var groups := CollectResidues(atoms);
    forall k | k in groups ensures k in keys {
      var n :| n in groups[k];
      var i :| 0 <= i < |order| && order[i] == n;
      assert keys[i] == k;
    }
    forall k | k in keys ensures k in groups {
      var i :| 0 <= i < |keys| && keys[i] == k;
      assert order[i] in atoms;
    }
  }

  // ---------------------------------------------------------------- names

  datatype NameFailure = UnknownResidue | DuplicateAtomName

  /** The atoms of `idxs` that carry an atom name. */
  function Named(atoms: map<NodeId, Atom>, idxs: set<NodeId>): set<NodeId> {
    set n | n in idxs && n in atoms && atoms[n].atomname.Some?
  }

  function NameOf(atoms: map<NodeId, Atom>, n: NodeId): string
    requires n in atoms && atoms[n].atomname.Some?
  {
    atoms[n].atomname.value
  }

  predicate UniqueNames(atoms: map<NodeId, Atom>, idxs: set<NodeId>) {
    forall u, v | u in Named(atoms, idxs) && v in Named(atoms, idxs) && u != v :: NameOf(atoms, u) != NameOf(atoms, v)
  }

  /** From atom name to the one atom of the residue carrying it. */
  function NameIndex(atoms: map<NodeId, Atom>, idxs: set<NodeId>): (index: map<string, NodeId>)
    requires UniqueNames(atoms, idxs)
    ensures forall nm | nm in index :: index[nm] in Named(atoms, idxs) && NameOf(atoms, index[nm]) == nm
    ensures forall n | n in Named(atoms, idxs) :: NameOf(atoms, n) in index && index[NameOf(atoms, n)] == n
  {
    map n | n in Named(atoms, idxs) :: NameOf(atoms, n) := n
  }

  /** The block of a residue name, when it exists and is not empty. */
  predicate HasBlock(ff: ForceField, resname: Option<string>) {
    resname.Some? && resname.value in ff.blocks && |ff.blocks[resname.value].names| > 0
  }

  predicate Adjacent(b: Block, u: NodeId, v: NodeId) {
    Edge(u, v) in b.edges || Edge(v, u) in b.edges
  }

  datatype NameBonds = NameBonds(edges: set<Edge>, nonEdges: set<Edge>)

  /** `_bonds_from_names`: the bonds of the residue's block between atoms
      whose names are present, and the block's non-bonded pairs between
      present names. Fails when the block is missing or empty, or when two
      atoms of the residue share a name. */
  function BondsFromNames(atoms: map<NodeId, Atom>, resname: Option<string>, idxs: set<NodeId>, ff: ForceField)
    : (r: Result<NameBonds, NameFailure>)
    ensures r.Err? <==> !HasBlock(ff, resname) || !UniqueNames(atoms, idxs)
    ensures r == Err(UnknownResidue) <==> !HasBlock(ff, resname)
    ensures r.Ok? ==> forall e | e in r.value.edges + r.value.nonEdges :: e.lo in Named(atoms, idxs) && e.hi in Named(atoms, idxs)
  {
    if !HasBlock(ff, resname) then Err(UnknownResidue)
    else if !UniqueNames(atoms, idxs) then Err(DuplicateAtomName)
    else
      var block := ff.blocks[resname.value];
      var index := NameIndex(atoms, idxs);
      Ok(NameBonds(
        set e | e in block.edges && e.lo in block.names && e.hi in block.names
                && block.names[e.lo] in index && block.names[e.hi] in index
              :: Bond(index[block.names[e.lo]], index[block.names[e.hi]]),
        set u, v | u in block.names && v in block.names && u != v && !Adjacent(block, u, v)
                   && block.names[u] in index && block.names[v] in index
                 :: Bond(index[block.names[u]], index[block.names[v]])))
  }

  /** The block has a bond between an atom named `a` and one named `b`. */
  predicate BlockBondsNames(b: Block, a: string, c: string) {
    exists e :: e in b.edges && e.lo in b.names && e.hi in b.names
      && ((b.names[e.lo] == a && b.names[e.hi] == c) || (b.names[e.lo] == c && b.names[e.hi] == a))
  }

  /** The block has two distinct, non-bonded atoms named `a` and `b`. */
  predicate BlockSeparatesNames(b: Block, a: string, c: string) {
    exists u, v :: u in b.names && v in b.names && u != v && !Adjacent(b, u, v) && b.names[u] == a && b.names[v] == c
  }

  /** Name matching adds exactly the bonds between atoms whose names the
      block bonds: a bond of the block with both names present becomes a bond
      between the matching atoms, and nothing else is added. */
  lemma {:induction false} NameBondsExact(atoms: map<NodeId, Atom>, resname: Option<string>, idxs: set<NodeId>, ff: ForceField, x: NodeId, y: NodeId)
    requires BondsFromNames(atoms, resname, idxs, ff).Ok?
    requires x in Named(atoms, idxs) && y in Named(atoms, idxs)
    ensures Bond(x, y) in BondsFromNames(atoms, resname, idxs, ff).value.edges
            <==> BlockBondsNames(ff.blocks[resname.value], NameOf(atoms, x), NameOf(atoms, y))
  {
    var block := ff.blocks[resname.value];
    var index := NameIndex(atoms, idxs);
    var edges := BondsFromNames(atoms, resname, idxs, ff).value.edges;
    if Bond(x, y) in edges {
      var e :| e in block.edges && e.lo in block.names && e.hi in block.names
               && block.names[e.lo] in index && block.names[e.hi] in index
               && Bond(x, y) == Bond(index[block.names[e.lo]], index[block.names[e.hi]]);
      BondInjective(x, y, index[block.names[e.lo]], index[block.names[e.hi]]);
    }
    if BlockBondsNames(block, NameOf(atoms, x), NameOf(atoms, y)) {
      var e :| e in block.edges && e.lo in block.names && e.hi in block.names
        && ((block.names[e.lo] == NameOf(atoms, x) && block.names[e.hi] == NameOf(atoms, y))
            || (block.names[e.lo] == NameOf(atoms, y) && block.names[e.hi] == NameOf(atoms, x)));
      assert Bond(index[block.names[e.lo]], index[block.names[e.hi]]) in edges;
      BondSymmetric(x, y);
    }
  }

  /** The returned non-edges are exactly the pairs of present atoms whose
      names the block holds apart. */
  lemma {:induction false} NameNonEdgesExact(atoms: map<NodeId, Atom>, resname: Option<string>, idxs: set<NodeId>, ff: ForceField, x: NodeId, y: NodeId)
    requires BondsFromNames(atoms, resname, idxs, ff).Ok?
    requires x in Named(atoms, idxs) && y in Named(atoms, idxs)
    ensures Bond(x, y) in BondsFromNames(atoms, resname, idxs, ff).value.nonEdges
            <==> BlockSeparatesNames(ff.blocks[resname.value], NameOf(atoms, x), NameOf(atoms, y))
                 || BlockSeparatesNames(ff.blocks[resname.value], NameOf(atoms, y), NameOf(atoms, x))
  {
    if Bond(x, y) in BondsFromNames(atoms, resname, idxs, ff).value.nonEdges {
      NameNonEdgeSeparated(atoms, resname, idxs, ff, x, y);
    }
    if BlockSeparatesNames(ff.blocks[resname.value], NameOf(atoms, x), NameOf(atoms, y)) {
      NameSeparatedNonEdge(atoms, resname, idxs, ff, x, y);
    }
    if BlockSeparatesNames(ff.blocks[resname.value], NameOf(atoms, y), NameOf(atoms, x)) {
      NameSeparatedNonEdge(atoms, resname, idxs, ff, y, x);
      BondSymmetric(x, y);
    }
  }

  lemma {:induction false} NameNonEdgeSeparated(atoms: map<NodeId, Atom>, resname: Option<string>, idxs: set<NodeId>, ff: ForceField, x: NodeId, y: NodeId)
    requires BondsFromNames(atoms, resname, idxs, ff).Ok?
    requires x in Named(atoms, idxs) && y in Named(atoms, idxs)
    requires Bond(x, y) in BondsFromNames(atoms, resname, idxs, ff).value.nonEdges
    ensures BlockSeparatesNames(ff.blocks[resname.value], NameOf(atoms, x), NameOf(atoms, y))
            || BlockSeparatesNames(ff.blocks[resname.value], NameOf(atoms, y), NameOf(atoms, x))
  {
    var block := ff.blocks[resname.value];
    var index := NameIndex(atoms, idxs);
    var u, v :| u in block.names && v in block.names && u != v && !Adjacent(block, u, v)
                && block.names[u] in index && block.names[v] in index
                && Bond(x, y) == Bond(index[block.names[u]], index[block.names[v]]);
    BondInjective(x, y, index[block.names[u]], index[block.names[v]]);
  }

  lemma {:induction false} NameSeparatedNonEdge(atoms: map<NodeId, Atom>, resname: Option<string>, idxs: set<NodeId>, ff: ForceField, x: NodeId, y: NodeId)
    requires BondsFromNames(atoms, resname, idxs, ff).Ok?
    requires x in Named(atoms, idxs) && y in Named(atoms, idxs)
    requires BlockSeparatesNames(ff.blocks[resname.value], NameOf(atoms, x), NameOf(atoms, y))
    ensures Bond(x, y) in BondsFromNames(atoms, resname, idxs, ff).value.nonEdges
  {
    var block := ff.blocks[resname.value];
    var index := NameIndex(atoms, idxs);
    var u, v :| u in block.names && v in block.names && u != v && !Adjacent(block, u, v)
                && block.names[u] == NameOf(atoms, x) && block.names[v] == NameOf(atoms, y);
    assert Bond(index[block.names[u]], index[block.names[v]]) in BondsFromNames(atoms, resname, idxs, ff).value.nonEdges;
  }

  // ------------------------------------------------------------- distance

  /** The distance between two positions (Euclidean in the source). */
  type Metric = (Vec3, Vec3) -> real

  datatype BondError = MissingPosition

  /** The nodes a distance pass considers: `nodes`, or every node when it is
      `None` or empty. */
  function Pool(atoms: map<NodeId, Atom>, nodes: Option<set<NodeId>>): set<NodeId> {
    if nodes.None? || nodes.value == {} then atoms.Keys else nodes.value
  }

  /** Pool atoms whose element has a known radius. */
  function Eligible(atoms: map<NodeId, Atom>, pool: set<NodeId>): set<NodeId> {
    set n | n in pool && n in atoms && Radius(atoms[n]).Some?
  }

  predicate Located(atoms: map<NodeId, Atom>, n: NodeId) {
    n in atoms && Radius(atoms[n]).Some? && atoms[n].position.Some?
  }

  /** Half the sum of the two radii, the bond length before scaling. */
  function BondLength(atoms: map<NodeId, Atom>, u: NodeId, v: NodeId): real
    requires Located(atoms, u) && Located(atoms, v)
  {
    0.5 * (Radius(atoms[u]).value + Radius(atoms[v]).value)
  }

  function Distance(atoms: map<NodeId, Atom>, u: NodeId, v: NodeId, metric: Metric): real
    requires Located(atoms, u) && Located(atoms, v)
  {
    metric(atoms[u].position.value, atoms[v].position.value)
  }

  /** The spatial query returns pairs no farther apart than the largest
      radius scaled by `fudge`, with `fudge` applied a second time to that
      search radius. */
  predicate InSearchRadius(atoms: map<NodeId, Atom>, u: NodeId, v: NodeId, fudge: real, metric: Metric)
    requires Located(atoms, u) && Located(atoms, v)
  {
    Distance(atoms, u, v, metric) <= MaxRadius * fudge * fudge
  }

  /** A pair is close enough to bond when its distance is at most the scaled
      bond length; the boundary is included. */
  predicate CloseEnough(atoms: map<NodeId, Atom>, u: NodeId, v: NodeId, fudge: real, metric: Metric)
    requires Located(atoms, u) && Located(atoms, v)
  {
    Distance(atoms, u, v, metric) <= BondLength(atoms, u, v) * fudge
  }

  /** The pairs of eligible pool atoms the distance criterion bonds, apart
      from the known non-edges. It depends on the atoms only, not on the
      bonds already present. */
  function DistancePairs(atoms: map<NodeId, Atom>, pool: set<NodeId>, nonEdges: set<Edge>, fudge: real, metric: Metric): set<Edge> {
    set u, v | u in Eligible(atoms, pool) && v in Eligible(atoms, pool) && u < v
               && Located(atoms, u) && Located(atoms, v)
               && Edge(u, v) !in nonEdges
               && InSearchRadius(atoms, u, v, fudge, metric)
               && CloseEnough(atoms, u, v, fudge, metric)
             :: Edge(u, v)
  }

  predicate AllLocated(atoms: map<NodeId, Atom>, pool: set<NodeId>) {
    forall n | n in Eligible(atoms, pool) :: atoms[n].position.Some?
  }

  /** `_bonds_from_distance`: reading the positions of the eligible atoms
      fails when one has none; otherwise every qualifying pair that is not
      already bonded is bonded. Nodes and attributes are untouched. */
  function BondsFromDistance(g: Graph, nodes: Option<set<NodeId>>, nonEdges: set<Edge>, fudge: real, metric: Metric)
    : (r: Result<Graph, BondError>)
    ensures r.Err? <==> !AllLocated(g.atoms, Pool(g.atoms, nodes))
    ensures r.Ok? ==> r.value.order == g.order && r.value.atoms == g.atoms
    ensures r.Ok? ==> r.value.edges == g.edges + DistancePairs(g.atoms, Pool(g.atoms, nodes), nonEdges, fudge, metric)
  {
    var pool := Pool(g.atoms, nodes);
    if !AllLocated(g.atoms, pool) then Err(MissingPosition)
    else
      var added := set e | e in DistancePairs(g.atoms, pool, nonEdges, fudge, metric) && e !in g.edges;
      Ok(g.(edges := g.edges + added))
  }

  /** Exactly which pairs the distance criterion bonds: two eligible atoms
      (named with the smaller key first), not a known non-edge, within the
      search radius and within the scaled bond length. */
  lemma {:induction false} DistancePairsExact(atoms: map<NodeId, Atom>, pool: set<NodeId>, nonEdges: set<Edge>, fudge: real, metric: Metric, u: NodeId, v: NodeId)
    requires u < v
    ensures Bond(u, v) in DistancePairs(atoms, pool, nonEdges, fudge, metric) <==>
      && u in pool && v in pool && Located(atoms, u) && Located(atoms, v)
      && Bond(u, v) !in nonEdges
      && InSearchRadius(atoms, u, v, fudge, metric)
      && CloseEnough(atoms, u, v, fudge, metric)
  {
  }

  // ----------------------------------------------------------- make_bonds

  /** The bonds one residue receives in the loop of `make_bonds`: its name
      bonds, or, when name matching fails and distances are allowed, the
      distance bonds between its own atoms with no known non-edge. */
  function Contribution(atoms: map<NodeId, Atom>, groups: map<ResidueKey, set<NodeId>>, k: ResidueKey, ff: ForceField,
                        allowDist: bool, fudge: real, metric: Metric): set<Edge>
    requires k in groups
  {
    match BondsFromNames(atoms, k.resname, groups[k], ff)
    case Ok(nb) => nb.edges
    case Err(_) => if allowDist then DistancePairs(atoms, groups[k], {}, fudge, metric) else {}
  }

  /** The known non-edges one residue records (none when its names fail). */
  function NonEdgesOf(atoms: map<NodeId, Atom>, groups: map<ResidueKey, set<NodeId>>, k: ResidueKey, ff: ForceField): set<Edge>
    requires k in groups
  {
    match BondsFromNames(atoms, k.resname, groups[k], ff)
    case Ok(nb) => nb.nonEdges
    case Err(_) => {}
  }

  /** Residue `k` makes the loop fail: its names fail, it falls back to
      distances, and one of its eligible atoms has no position. */
  predicate FallbackFails(atoms: map<NodeId, Atom>, groups: map<ResidueKey, set<NodeId>>, k: ResidueKey, ff: ForceField, allowDist: bool)
    requires k in groups
  {
    allowDist && BondsFromNames(atoms, k.resname, groups[k], ff).Err? && !AllLocated(atoms, groups[k])
  }

  /** The loop over residues of `make_bonds`, in residue order: add the name
      bonds and collect the non-edges, or fall back to distances. */
  function NamePass(g: Graph, residues: seq<ResidueKey>, groups: map<ResidueKey, set<NodeId>>, ff: ForceField,
                    allowDist: bool, fudge: real, metric: Metric, nonEdges: set<Edge>)
    : Result<(Graph, set<Edge>), BondError>
    requires forall k | k in residues :: k in groups
    decreases |residues|
  {
    if residues == [] then Ok((g, nonEdges))
    else
      var k := residues[0];
      match BondsFromNames(g.atoms, k.resname, groups[k], ff)
      case Ok(nb) =>
        NamePass(g.(edges := g.edges + nb.edges), residues[1..], groups, ff, allowDist, fudge, metric, nonEdges + nb.nonEdges)
      case Err(_) =>
        if allowDist then
          var g' :- BondsFromDistance(g, Some(groups[k]), {}, fudge, metric);
          NamePass(g', residues[1..], groups, ff, allowDist, fudge, metric, nonEdges)
        else
          NamePass(g, residues[1..], groups, ff, allowDist, fudge, metric, nonEdges)
  }

  /** One step of the loop: the first residue either makes it fail or adds
      its contribution and non-edges before the rest run. */
  lemma {:induction false} NamePassStep(g: Graph, residues: seq<ResidueKey>, groups: map<ResidueKey, set<NodeId>>, ff: ForceField,
                     allowDist: bool, fudge: real, metric: Metric, nonEdges: set<Edge>)
    requires residues != []
    requires forall k | k in residues :: k in groups && groups[k] != {}
    ensures FallbackFails(g.atoms, groups, residues[0], ff, allowDist) ==>
      NamePass(g, residues, groups, ff, allowDist, fudge, metric, nonEdges).Err?
    ensures !FallbackFails(g.atoms, groups, residues[0], ff, allowDist) ==>
      NamePass(g, residues, groups, ff, allowDist, fudge, metric, nonEdges)
      == NamePass(g.(edges := g.edges + Contribution(g.atoms, groups, residues[0], ff, allowDist, fudge, metric)),
                  residues[1..], groups, ff, allowDist, fudge, metric,
                  nonEdges + NonEdgesOf(g.atoms, groups, residues[0], ff))
  {
    var k := residues[0];
    var ne := NonEdgesOf(g.atoms, groups, k, ff);
    if BondsFromNames(g.atoms, k.resname, groups[k], ff).Err? {
      assert nonEdges + ne == nonEdges;
      if allowDist {
        assert Pool(g.atoms, Some(groups[k])) == groups[k];
        var d := BondsFromDistance(g, Some(groups[k]), {}, fudge, metric);
        if d.Ok? {
          assert NamePass(g, residues, groups, ff, allowDist, fudge, metric, nonEdges)
                 == NamePass(d.value, residues[1..], groups, ff, allowDist, fudge, metric, nonEdges);
          assert d.value == g.(edges := g.edges + Contribution(g.atoms, groups, k, ff, allowDist, fudge, metric));
        } else {
          assert FallbackFails(g.atoms, groups, k, ff, allowDist);
        }
      } else {
        assert g.(edges := g.edges + Contribution(g.atoms, groups, k, ff, allowDist, fudge, metric)) == g;
      }
    }
  }

  /** The bonds the residues of `residues` receive from the loop. */
  function ContributionsOf(atoms: map<NodeId, Atom>, groups: map<ResidueKey, set<NodeId>>, residues: seq<ResidueKey>, ff: ForceField,
                           allowDist: bool, fudge: real, metric: Metric): set<Edge>
    requires forall k | k in residues :: k in groups
  {
    set k, e | k in residues && e in Contribution(atoms, groups, k, ff, allowDist, fudge, metric) :: e
  }

  /** The non-edges the residues of `residues` record. */
  function NonEdgesOfAll(atoms: map<NodeId, Atom>, groups: map<ResidueKey, set<NodeId>>, residues: seq<ResidueKey>, ff: ForceField): set<Edge>
    requires forall k | k in residues :: k in groups
  {
    set k, e | k in residues && e in NonEdgesOf(atoms, groups, k, ff) :: e
  }

  lemma {:induction false} ContributionsCons(atoms: map<NodeId, Atom>, groups: map<ResidueKey, set<NodeId>>, residues: seq<ResidueKey>, ff: ForceField,
                          allowDist: bool, fudge: real, metric: Metric)
    requires residues != []
    requires forall k | k in residues :: k in groups
    ensures ContributionsOf(atoms, groups, residues, ff, allowDist, fudge, metric)
            == Contribution(atoms, groups, residues[0], ff, allowDist, fudge, metric)
               + ContributionsOf(atoms, groups, residues[1..], ff, allowDist, fudge, metric)
    ensures NonEdgesOfAll(atoms, groups, residues, ff)
            == NonEdgesOf(atoms, groups, residues[0], ff) + NonEdgesOfAll(atoms, groups, residues[1..], ff)
  {
    assert forall x :: x in residues <==> x == residues[0] || x in residues[1..];
  }

  /** The loop fails iff some residue's fallback fails; otherwise it adds
      the contributions of all residues and collects their non-edges,
      whatever the order of the residues. */
  lemma {:induction false} NamePassSpec(g: Graph, residues: seq<ResidueKey>, groups: map<ResidueKey, set<NodeId>>, ff: ForceField,
                                        allowDist: bool, fudge: real, metric: Metric, nonEdges: set<Edge>)
    requires forall k | k in residues :: k in groups && groups[k] != {}
    ensures var r := NamePass(g, residues, groups, ff, allowDist, fudge, metric, nonEdges);
      r.Err? <==> exists k | k in residues :: FallbackFails(g.atoms, groups, k, ff, allowDist)
    ensures var r := NamePass(g, residues, groups, ff, allowDist, fudge, metric, nonEdges);
      r.Ok? ==>
        && r.value.0.order == g.order && r.value.0.atoms == g.atoms
        && r.value.0.edges == g.edges + ContributionsOf(g.atoms, groups, residues, ff, allowDist, fudge, metric)
        && r.value.1 == nonEdges + NonEdgesOfAll(g.atoms, groups, residues, ff)
    decreases |residues|
  {
    if residues != [] {
      var k := residues[0];
      var rest := residues[1..];
      assert forall x :: x in residues <==> x == k || x in rest;
      NamePassStep(g, residues, groups, ff, allowDist, fudge, metric, nonEdges);
      ContributionsCons(g.atoms, groups, residues, ff, allowDist, fudge, metric);
      if !FallbackFails(g.atoms, groups, k, ff, allowDist) {
        var c := Contribution(g.atoms, groups, k, ff, allowDist, fudge, metric);
        var ne := NonEdgesOf(g.atoms, groups, k, ff);
        NamePassSpec(g.(edges := g.edges + c), rest, groups, ff, allowDist, fudge, metric, nonEdges + ne);
      }
    }
  }

  /** The bonds all residues receive from the loop. */
  function ResidueBonds(atoms: map<NodeId, Atom>, ff: ForceField, allowDist: bool, fudge: real, metric: Metric): set<Edge> {
    var groups := CollectResidues(atoms);
    set k, e | k in groups && e in Contribution(atoms, groups, k, ff, allowDist, fudge, metric) :: e
  }

  /** The non-edges all residues record. */
  function KnownNonEdges(atoms: map<NodeId, Atom>, ff: ForceField): set<Edge> {
    var groups := CollectResidues(atoms);
    set k, e | k in groups && e in NonEdgesOf(atoms, groups, k, ff) :: e
  }

  /** Everything `make_bonds` adds, read off the atoms alone. */
  function InferredBonds(atoms: map<NodeId, Atom>, ff: ForceField, allowName: bool, allowDist: bool, fudge: real, metric: Metric): set<Edge> {
    (if allowName then ResidueBonds(atoms, ff, allowDist, fudge, metric) else {})
    + (if allowDist then DistancePairs(atoms, atoms.Keys, if allowName then KnownNonEdges(atoms, ff) else {}, fudge, metric) else {})
  }

  /** The first half of `make_bonds`: the loop over residues when names
      are allowed, nothing otherwise. */
  function NameStage(g: Graph, ff: ForceField, allowName: bool, allowDist: bool, fudge: real, metric: Metric)
    : Result<(Graph, set<Edge>), BondError>
    requires WellFormed(g)
  {
    if allowName then NamePass(g, ResidueOrder(g), CollectResidues(g.atoms), ff, allowDist, fudge, metric, {})
    else Ok((g, {}))
  }

  /** The first half fails only on a residue's failed fallback, and it adds
      the residue bonds and collects the known non-edges. */
  lemma {:induction false} NameStageSpec(g: Graph, ff: ForceField, allowName: bool, allowDist: bool, fudge: real, metric: Metric)
    requires WellFormed(g)
    ensures var r := NameStage(g, ff, allowName, allowDist, fudge, metric);
      r.Err? ==> allowDist && !AllLocated(g.atoms, g.atoms.Keys)
    ensures var r := NameStage(g, ff, allowName, allowDist, fudge, metric);
      r.Ok? ==>
        && r.value.0 == g.(edges := g.edges + (if allowName then ResidueBonds(g.atoms, ff, allowDist, fudge, metric) else {}))
        && r.value.1 == (if allowName then KnownNonEdges(g.atoms, ff) else {})
  {
    if allowName {
      NameLoopSpec(g, ResidueOrder(g), ff, allowDist, fudge, metric);
    } else {
      assert g.(edges := g.edges + {}) == g;
    }
  }

  /** The loop over any listing of all residues. */
  lemma {:induction false} NameLoopSpec(g: Graph, residues: seq<ResidueKey>, ff: ForceField, allowDist: bool, fudge: real, metric: Metric)
    requires forall k :: k in residues <==> k in CollectResidues(g.atoms)
    ensures var r := NamePass(g, residues, CollectResidues(g.atoms), ff, allowDist, fudge, metric, {});
      && (r.Err? ==> allowDist && !AllLocated(g.atoms, g.atoms.Keys))
      && (r.Ok? ==> r.value.0 == g.(edges := g.edges + ResidueBonds(g.atoms, ff, allowDist, fudge, metric))
                    && r.value.1 == KnownNonEdges(g.atoms, ff))
  {
    var groups := CollectResidues(g.atoms);
    NamePassSpec(g, residues, groups, ff, allowDist, fudge, metric, {});
    FallbackFailsGlobally(g.atoms, groups, residues, ff, allowDist);
    ResidueOrderCovers(g.atoms, residues, ff, allowDist, fudge, metric);
  }

  /** `make_bonds(molecule, allow_name, allow_dist, fudge)` with the force
      field passed in. Nodes and attributes never change and bonds are only
      added; it fails exactly when distances are allowed and an atom of known
      radius has no position. */
  function MakeBonds(g: Graph, ff: ForceField, allowName: bool, allowDist: bool, fudge: real, metric: Metric)
    : (r: Result<Graph, BondError>)
    requires WellFormed(g)
    ensures r.Ok? ==> r.value.order == g.order && r.value.atoms == g.atoms && g.edges <= r.value.edges
    ensures r.Err? <==> allowDist && !AllLocated(g.atoms, g.atoms.Keys)
  {
    NameStageSpec(g, ff, allowName, allowDist, fudge, metric);
    var named :- NameStage(g, ff, allowName, allowDist, fudge, metric);
    if allowDist then BondsFromDistance(named.0, None, named.1, fudge, metric) else Ok(named.0)
  }

  /** A residue whose fallback fails has an atom that also makes the global
      distance pass fail. */
  lemma {:induction false} FallbackFailsGlobally(atoms: map<NodeId, Atom>, groups: map<ResidueKey, set<NodeId>>, residues: seq<ResidueKey>, ff: ForceField, allowDist: bool)
    requires groups == CollectResidues(atoms)
    requires forall k | k in residues :: k in groups
    ensures (exists k | k in residues :: FallbackFails(atoms, groups, k, ff, allowDist)) ==> !AllLocated(atoms, atoms.Keys)
  {
    if exists k | k in residues :: FallbackFails(atoms, groups, k, ff, allowDist) {
      var k :| k in residues && FallbackFails(atoms, groups, k, ff, allowDist);
      var n :| n in Eligible(atoms, groups[k]) && atoms[n].position.None?;
      assert n in Eligible(atoms, atoms.Keys);
    }
  }

  /** Summing over the residue order is summing over every residue. */
  lemma {:induction false} ResidueOrderCovers(atoms: map<NodeId, Atom>, residues: seq<ResidueKey>, ff: ForceField, allowDist: bool, fudge: real, metric: Metric)
    requires forall k :: k in residues <==> k in CollectResidues(atoms)
    ensures ContributionsOf(atoms, CollectResidues(atoms), residues, ff, allowDist, fudge, metric) == ResidueBonds(atoms, ff, allowDist, fudge, metric)
    ensures NonEdgesOfAll(atoms, CollectResidues(atoms), residues, ff) == KnownNonEdges(atoms, ff)
  {
  }

  /** `make_bonds` adds exactly the inferred bonds: the loop's name and
      fallback bonds (when names are allowed) and the global distance bonds
      (when distances are allowed), whatever the residue order. */
  lemma {:induction false} MakeBondsSpec(g: Graph, ff: ForceField, allowName: bool, allowDist: bool, fudge: real, metric: Metric)
    requires WellFormed(g)
    requires MakeBonds(g, ff, allowName, allowDist, fudge, metric).Ok?
    ensures MakeBonds(g, ff, allowName, allowDist, fudge, metric).value
            == g.(edges := g.edges + InferredBonds(g.atoms, ff, allowName, allowDist, fudge, metric))
  {
    NameStageSpec(g, ff, allowName, allowDist, fudge, metric);
  }

  /** The bonds one residue receives join atoms of the graph. */
  lemma {:induction false} ContributionJoinsAtoms(atoms: map<NodeId, Atom>, k: ResidueKey, ff: ForceField, allowDist: bool, fudge: real, metric: Metric)
    requires k in CollectResidues(atoms)
    ensures forall e | e in Contribution(atoms, CollectResidues(atoms), k, ff, allowDist, fudge, metric) :: e.lo in atoms && e.hi in atoms && e.lo <= e.hi
  {
  }

  /** The inferred bonds join atoms of the graph. */
  lemma {:induction false} InferredBondsJoinAtoms(atoms: map<NodeId, Atom>, ff: ForceField, allowName: bool, allowDist: bool, fudge: real, metric: Metric)
    ensures forall e | e in InferredBonds(atoms, ff, allowName, allowDist, fudge, metric) :: e.lo in atoms && e.hi in atoms && e.lo <= e.hi
  {
    var groups := CollectResidues(atoms);
    forall e | e in InferredBonds(atoms, ff, allowName, allowDist, fudge, metric) ensures e.lo in atoms && e.hi in atoms && e.lo <= e.hi {
      if allowName && e in ResidueBonds(atoms, ff, allowDist, fudge, metric) {
        var k :| k in groups && e in Contribution(atoms, groups, k, ff, allowDist, fudge, metric);
        ContributionJoinsAtoms(atoms, k, ff, allowDist, fudge, metric);
      }
    }
  }

  /** Bond inference keeps a graph well formed. */
  lemma {:induction false} MakeBondsWellFormed(g: Graph, ff: ForceField, allowName: bool, allowDist: bool, fudge: real, metric: Metric)
    requires WellFormed(g)
    requires MakeBonds(g, ff, allowName, allowDist, fudge, metric).Ok?
    ensures WellFormed(MakeBonds(g, ff, allowName, allowDist, fudge, metric).value)
  {
    MakeBondsSpec(g, ff, allowName, allowDist, fudge, metric);
    InferredBondsJoinAtoms(g.atoms, ff, allowName, allowDist, fudge, metric);
  }

  /** A second run adds nothing. */
  lemma {:induction false} MakeBondsIdempotent(g: Graph, ff: ForceField, allowName: bool, allowDist: bool, fudge: real, metric: Metric)
    requires WellFormed(g)
    requires MakeBonds(g, ff, allowName, allowDist, fudge, metric).Ok?
    ensures var once := MakeBonds(g, ff, allowName, allowDist, fudge, metric).value;
      WellFormed(once) && MakeBonds(once, ff, allowName, allowDist, fudge, metric) == Ok(once)
  {
    var once := MakeBonds(g, ff, allowName, allowDist, fudge, metric).value;
    MakeBondsWellFormed(g, ff, allowName, allowDist, fudge, metric);
    MakeBondsSpec(g, ff, allowName, allowDist, fudge, metric);
    MakeBondsSpec(once, ff, allowName, allowDist, fudge, metric);
  }

  // ------------------------------------------------- properties of make_bonds

  /** The bonds name matching gives the residues whose names match. */
  function NameEdges(atoms: map<NodeId, Atom>, ff: ForceField): set<Edge> {
    var groups := CollectResidues(atoms);
    set k, e | k in groups && BondsFromNames(atoms, k.resname, groups[k], ff).Ok?
               && e in BondsFromNames(atoms, k.resname, groups[k], ff).value.edges :: e
  }

  /** Every bond or non-edge a residue produces lies inside that residue. */
  lemma {:induction false} ContributionInsideResidue(atoms: map<NodeId, Atom>, k: ResidueKey, ff: ForceField, allowDist: bool, fudge: real, metric: Metric, e: Edge)
    requires k in CollectResidues(atoms)
    requires e in Contribution(atoms, CollectResidues(atoms), k, ff, allowDist, fudge, metric) || e in NonEdgesOf(atoms, CollectResidues(atoms), k, ff)
    ensures e.lo in atoms && e.hi in atoms && KeyOf(atoms[e.lo]) == k && KeyOf(atoms[e.hi]) == k
  {
  }

  /** A known non-edge is never guessed: unless it was already a bond or a
      name bond of some residue, it is absent from the result, whichever
      residues fell back to distances. */
  lemma {:induction false} NonEdgesAreNeverGuessed(g: Graph, ff: ForceField, allowDist: bool, fudge: real, metric: Metric, e: Edge)
    requires WellFormed(g)
    requires MakeBonds(g, ff, true, allowDist, fudge, metric).Ok?
    requires e in KnownNonEdges(g.atoms, ff)
    ensures e in MakeBonds(g, ff, true, allowDist, fudge, metric).value.edges ==> e in g.edges || e in NameEdges(g.atoms, ff)
  {
    MakeBondsSpec(g, ff, true, allowDist, fudge, metric);
    DistancePairsAvoidNonEdges(g.atoms, g.atoms.Keys, KnownNonEdges(g.atoms, ff), fudge, metric, e);
    NonEdgeResidueBonds(g.atoms, ff, allowDist, fudge, metric, e);
  }

  /** The distance criterion never proposes a known non-edge. */
  lemma {:induction false} DistancePairsAvoidNonEdges(atoms: map<NodeId, Atom>, pool: set<NodeId>, nonEdges: set<Edge>, fudge: real, metric: Metric, e: Edge)
    requires e in nonEdges
    ensures e !in DistancePairs(atoms, pool, nonEdges, fudge, metric)
  {
  }

  /** A known non-edge can be a residue bond only as a name bond of its own
      residue, never through a fallback. */
  lemma {:induction false} NonEdgeResidueBonds(atoms: map<NodeId, Atom>, ff: ForceField, allowDist: bool, fudge: real, metric: Metric, e: Edge)
    requires e in KnownNonEdges(atoms, ff)
    ensures e in ResidueBonds(atoms, ff, allowDist, fudge, metric) ==> e in NameEdges(atoms, ff)
  {
    var groups := CollectResidues(atoms);
    var k :| k in groups && e in NonEdgesOf(atoms, groups, k, ff);
    ContributionInsideResidue(atoms, k, ff, allowDist, fudge, metric, e);
    if e in ResidueBonds(atoms, ff, allowDist, fudge, metric) {
      var k' :| k' in groups && e in Contribution(atoms, groups, k', ff, allowDist, fudge, metric);
      ContributionInsideResidue(atoms, k', ff, allowDist, fudge, metric, e);
      assert k' == k;
      assert BondsFromNames(atoms, k.resname, groups[k], ff).Ok?;
    }
  }

  /** A bond between two residues is never made by a residue's fallback:
      it was already there or comes from the global distance pass. */
  lemma {:induction false} CrossResidueBondsAreGlobal(g: Graph, ff: ForceField, allowName: bool, allowDist: bool, fudge: real, metric: Metric, e: Edge)
    requires WellFormed(g)
    requires MakeBonds(g, ff, allowName, allowDist, fudge, metric).Ok?
    requires e in MakeBonds(g, ff, allowName, allowDist, fudge, metric).value.edges
    requires e.lo in g.atoms && e.hi in g.atoms && KeyOf(g.atoms[e.lo]) != KeyOf(g.atoms[e.hi])
    ensures e in g.edges
            || (allowDist && e in DistancePairs(g.atoms, g.atoms.Keys, if allowName then KnownNonEdges(g.atoms, ff) else {}, fudge, metric))
  {
    MakeBondsSpec(g, ff, allowName, allowDist, fudge, metric);
    var groups := CollectResidues(g.atoms);
    if allowName && e in ResidueBonds(g.atoms, ff, allowDist, fudge, metric) {
      var k :| k in groups && e in Contribution(g.atoms, groups, k, ff, allowDist, fudge, metric);
      ContributionInsideResidue(g.atoms, k, ff, allowDist, fudge, metric, e);
    }
  }

  /** With distances disallowed, `make_bonds` never fails and adds exactly
      the name bonds; residues without a usable block get no bond. */
  lemma {:induction false} NamesOnly(g: Graph, ff: ForceField, fudge: real, metric: Metric)
    requires WellFormed(g)
    ensures MakeBonds(g, ff, true, false, fudge, metric) == Ok(g.(edges := g.edges + NameEdges(g.atoms, ff)))
  {
    MakeBondsSpec(g, ff, true, false, fudge, metric);
    NameEdgesWithoutFallback(g.atoms, ff, fudge, metric);
    assert InferredBonds(g.atoms, ff, true, false, fudge, metric) == ResidueBonds(g.atoms, ff, false, fudge, metric);
  }

  /** Without the fallback, the residue bonds are the name bonds. */
  lemma {:induction false} NameEdgesWithoutFallback(atoms: map<NodeId, Atom>, ff: ForceField, fudge: real, metric: Metric)
    ensures ResidueBonds(atoms, ff, false, fudge, metric) == NameEdges(atoms, ff)
  {
    var groups := CollectResidues(atoms);
    forall e | e in ResidueBonds(atoms, ff, false, fudge, metric) ensures e in NameEdges(atoms, ff) {
      var k :| k in groups && e in Contribution(atoms, groups, k, ff, false, fudge, metric);
      assert BondsFromNames(atoms, k.resname, groups[k], ff).Ok?;
    }
    forall e | e in NameEdges(atoms, ff) ensures e in ResidueBonds(atoms, ff, false, fudge, metric) {
      var k :| k in groups && BondsFromNames(atoms, k.resname, groups[k], ff).Ok?
               && e in BondsFromNames(atoms, k.resname, groups[k], ff).value.edges;
      assert e in Contribution(atoms, groups, k, ff, false, fudge, metric);
    }
  }

  /** With names disallowed, only the global distance pass runs, with no
      known non-edge. */
  lemma {:induction false} DistancesOnly(g: Graph, ff: ForceField, fudge: real, metric: Metric)
    requires WellFormed(g)
    ensures MakeBonds(g, ff, false, true, fudge, metric)
            == if AllLocated(g.atoms, g.atoms.Keys)
               then Ok(g.(edges := g.edges + DistancePairs(g.atoms, g.atoms.Keys, {}, fudge, metric)))
               else Err(MissingPosition)
  {
    if AllLocated(g.atoms, g.atoms.Keys) {
      MakeBondsSpec(g, ff, false, true, fudge, metric);
    }
  }

  /** With both kinds of inference disallowed, nothing changes. */
  lemma {:induction false} NothingAllowed(g: Graph, ff: ForceField, fudge: real, metric: Metric)
    requires WellFormed(g)
    ensures MakeBonds(g, ff, false, false, fudge, metric) == Ok(g)
  {
    MakeBondsSpec(g, ff, false, false, fudge, metric);
  }

  /** A distance pass over a pool with no atom of known radius adds nothing. */
  lemma {:induction false} NoEligibleNoBonds(g: Graph, nodes: Option<set<NodeId>>, nonEdges: set<Edge>, fudge: real, metric: Metric)
    requires Eligible(g.atoms, Pool(g.atoms, nodes)) == {}
    ensures BondsFromDistance(g, nodes, nonEdges, fudge, metric) == Ok(g)
  {
    assert DistancePairs(g.atoms, Pool(g.atoms, nodes), nonEdges, fudge, metric) == {};
    assert AllLocated(g.atoms, Pool(g.atoms, nodes));
    assert g.(edges := g.edges + {}) == g;
  }

  /** No bond length exceeds the largest radius. */
  lemma {:induction false} BondLengthBounded(atoms: map<NodeId, Atom>, u: NodeId, v: NodeId)
    requires Located(atoms, u) && Located(atoms, v)
    ensures 0.0 < BondLength(atoms, u, v) <= MaxRadius
  {
    MaxRadiusIsLargest(atoms[u].element.value);
    MaxRadiusIsLargest(atoms[v].element.value);
  }

  /** For a fudge factor of at least one, the search radius never cuts off a
      pair the bond criterion accepts: the bond criterion alone decides. */
  lemma {:induction false} SearchRadiusHarmless(atoms: map<NodeId, Atom>, u: NodeId, v: NodeId, fudge: real, metric: Metric)
    requires Located(atoms, u) && Located(atoms, v)
    requires fudge >= 1.0
    requires CloseEnough(atoms, u, v, fudge, metric)
    ensures InSearchRadius(atoms, u, v, fudge, metric)
  {
    BondLengthBounded(atoms, u, v);
    ScaledBelow(Distance(atoms, u, v, metric), BondLength(atoms, u, v), fudge, MaxRadius);
  }

  lemma {:induction false} ScaledBelow(d: real, b: real, f: real, m: real)
    requires d <= b * f
    requires 0.0 < b <= m && f >= 1.0
    ensures d <= m * f * f
  {
    assert b * f <= m * f;
    assert m * f * f - m * f == m * f * (f - 1.0);
    assert m * f >= 0.0;
  }

  /** Distance along the x axis, a metric for the scenarios below. */
  function XDistance(a: Vec3, b: Vec3): real {
    if a.x <= b.x then b.x - a.x else a.x - b.x
  }

  /** Two atoms of element `el` at x = 0 and x = `x`, with no residue
      information and no bond. */
  function Pair(el: string, x: real): Graph {
    var a := Bare.(element := Some(el), position := Some(Vec3(0.0, 0.0, 0.0)));
    var b := Bare.(element := Some(el), position := Some(Vec3(x, 0.0, 0.0)));
    Graph([0, 1], map[0 := a, 1 := b], {})
  }

  /** The bond criterion includes its boundary: two carbons exactly one
      carbon radius apart, the C-C bond length 0.5 * (0.170 + 0.170) nm,
      are bonded, a little farther they are not. */
  lemma {:induction false} CarbonBoundary(ff: ForceField)
    ensures MakeBonds(Pair("C", 0.170), ff, false, true, 1.0, XDistance) == Ok(Pair("C", 0.170).(edges := {Edge(0, 1)}))
    ensures MakeBonds(Pair("C", 0.171), ff, false, true, 1.0, XDistance) == Ok(Pair("C", 0.171))
  {
    CarbonRadius();
    PairDistance("C", 0.170, ff, 1.0);
    PairDistance("C", 0.171, ff, 1.0);
  }

  /** With a fudge factor below one, the search radius applied with the
      fudge squared drops pairs the bond criterion accepts: two Se atoms
      0.6 nm apart are close enough at fudge 0.5 (0.6 <= 0.95) but outside
      the search radius (0.475), so they stay unbonded. */
  lemma {:induction false} SearchRadiusPrunes(ff: ForceField)
    ensures var g := Pair("Se", 0.6); var a := g.atoms;
      && Located(a, 0) && Located(a, 1)
      && CloseEnough(a, 0, 1, 0.5, XDistance)
      && !InSearchRadius(a, 0, 1, 0.5, XDistance)
      && MakeBonds(g, ff, false, true, 0.5, XDistance) == Ok(g)
  {
    SeleniumRadius();
    PairDistance("Se", 0.6, ff, 0.5);
  }

  /** Distance-only bonding of a pair bonds it exactly when both criteria hold. */
  lemma {:induction false} PairDistance(el: string, x: real, ff: ForceField, fudge: real)
    requires Lookup(VdwRadii, el).Some? && x > 0.0
    ensures var g := Pair(el, x); var a := g.atoms;
      Located(a, 0) && Located(a, 1) &&
      MakeBonds(g, ff, false, true, fudge, XDistance)
      == Ok(g.(edges := if InSearchRadius(a, 0, 1, fudge, XDistance) && CloseEnough(a, 0, 1, fudge, XDistance) then {Edge(0, 1)} else {}))
  {
    var g := Pair(el, x);
    PairLocated(el, x);
    DistancesOnly(g, ff, fudge, XDistance);
    PairCandidates(el, x, fudge);
    assert g.edges + DistancePairs(g.atoms, g.atoms.Keys, {}, fudge, XDistance) == DistancePairs(g.atoms, g.atoms.Keys, {}, fudge, XDistance);
  }

  lemma {:induction false} PairLocated(el: string, x: real)
    requires Lookup(VdwRadii, el).Some?
    ensures var g := Pair(el, x);
      && WellFormed(g) && g.atoms.Keys == {0, 1} && g.edges == {}
      && Located(g.atoms, 0) && Located(g.atoms, 1) && AllLocated(g.atoms, g.atoms.Keys)
  {
    var g := Pair(el, x);
    assert g.atoms.Keys == {0, 1};
  }

  /** The distance pass over the pair considers the one pair (0, 1). */
  lemma {:induction false} PairCandidates(el: string, x: real, fudge: real)
    requires Lookup(VdwRadii, el).Some?
    ensures var a := Pair(el, x).atoms;
      DistancePairs(a, a.Keys, {}, fudge, XDistance)
      == if InSearchRadius(a, 0, 1, fudge, XDistance) && CloseEnough(a, 0, 1, fudge, XDistance) then {Edge(0, 1)} else {}
  {
    var a := Pair(el, x).atoms;
    PairLocated(el, x);
    var pairs := DistancePairs(a, a.Keys, {}, fudge, XDistance);
    DistancePairsExact(a, a.Keys, {}, fudge, XDistance, 0, 1);
    forall e | e in pairs ensures e == Edge(0, 1) {
    }
  }

  // ------------------------------------------- the distance pass as written

  /** The values of `idx_to_nodenum`: the nodes of `order` that are in the
      pool and have a known radius, in graph order. Their keys in that
      dictionary are their indices here. */
  function EligibleIn(order: seq<NodeId>, atoms: map<NodeId, Atom>, pool: set<NodeId>): (r: seq<NodeId>)
    ensures |r| <= |order|
    ensures forall i | 0 <= i < |r| :: r[i] in Eligible(atoms, pool)
    decreases |order|
  {
    if order == [] then []
    else
      var rest := EligibleIn(order[1..], atoms, pool);
      if order[0] in Eligible(atoms, pool) then [order[0]] + rest else rest
  }

  /** `idx_to_nodenum` lists exactly the eligible nodes of the graph. */
  lemma {:induction false} EligibleInMembers(order: seq<NodeId>, atoms: map<NodeId, Atom>, pool: set<NodeId>, n: NodeId)
    ensures n in EligibleIn(order, atoms, pool) <==> n in order && n in Eligible(atoms, pool)
    decreases |order|
  {
    if order != [] {
      EligibleInMembers(order[1..], atoms, pool, n);
      assert order == [order[0]] + order[1..];
    }
  }

  /** Row `i` of the position array as written: the comprehension iterates
      over the keys of `idx_to_nodenum`, so row `i` is read from the node
      whose key is `i`, which must exist and have a position. */
  predicate RowLocated(atoms: map<NodeId, Atom>, i: nat) {
    i in atoms && atoms[i].position.Some?
  }

  predicate RowsLocated(atoms: map<NodeId, Atom>, n: nat) {
    forall i | 0 <= i < n :: RowLocated(atoms, i)
  }

  function RowPosition(atoms: map<NodeId, Atom>, i: nat): Vec3
    requires RowLocated(atoms, i)
  {
    atoms[i].position.value
  }

  /** Rows `i < j` qualify as written: the rows are measured, but the
      non-edge test and the radii are those of the nodes `order[i]` and
      `order[j]`. */
  predicate RowPairBonds(atoms: map<NodeId, Atom>, order: seq<NodeId>, nonEdges: set<Edge>, fudge: real, metric: Metric, i: nat, j: nat) {
    && i < j < |order|
    && order[i] in atoms && order[j] in atoms
    && Radius(atoms[order[i]]).Some? && Radius(atoms[order[j]]).Some?
    && RowLocated(atoms, i) && RowLocated(atoms, j)
    && Bond(order[i], order[j]) !in nonEdges
    && metric(RowPosition(atoms, i), RowPosition(atoms, j)) <= MaxRadius * fudge * fudge
    && metric(RowPosition(atoms, i), RowPosition(atoms, j))
       <= 0.5 * (Radius(atoms[order[i]]).value + Radius(atoms[order[j]]).value) * fudge
  }

  /** The pairs the loop over the tree's pairs bonds as written: the nodes
      of every qualifying row pair. */
  function AsWrittenPairs(atoms: map<NodeId, Atom>, order: seq<NodeId>, nonEdges: set<Edge>, fudge: real, metric: Metric): set<Edge> {
    set i: nat, j: nat | i < j < |order| && RowPairBonds(atoms, order, nonEdges, fudge, metric, i, j) :: Bond(order[i], order[j])
  }

  /** `_bonds_from_distance` as the code reads: it fails when some row index
      below the number of eligible atoms is not a node with a position, and
      otherwise bonds the nodes of the row pairs that qualify. */
  function BondsFromDistanceAsWritten(g: Graph, nodes: Option<set<NodeId>>, nonEdges: set<Edge>, fudge: real, metric: Metric)
    : (r: Result<Graph, BondError>)
    ensures var order := EligibleIn(g.order, g.atoms, Pool(g.atoms, nodes));
      r.Err? <==> exists i | 0 <= i < |order| :: !RowLocated(g.atoms, i)
    ensures r.Ok? ==> r.value.order == g.order && r.value.atoms == g.atoms && g.edges <= r.value.edges
    ensures r.Ok? ==> forall e | e in r.value.edges && e !in g.edges ::
      e.lo in Eligible(g.atoms, Pool(g.atoms, nodes)) && e.hi in Eligible(g.atoms, Pool(g.atoms, nodes))
  {
    var order := EligibleIn(g.order, g.atoms, Pool(g.atoms, nodes));
    if !RowsLocated(g.atoms, |order|) then Err(MissingPosition)
    else Ok(g.(edges := g.edges + AsWrittenPairs(g.atoms, order, nonEdges, fudge, metric)))
  }

  /** The pass as written succeeds exactly with the row pairs it measures,
      once the rows are known to be located. */
  lemma {:induction false} AsWrittenResult(g: Graph, nodes: Option<set<NodeId>>, nonEdges: set<Edge>, fudge: real, metric: Metric,
                                           order: seq<NodeId>, pairs: set<Edge>)
    requires order == EligibleIn(g.order, g.atoms, Pool(g.atoms, nodes))
    requires RowsLocated(g.atoms, |order|)
    requires AsWrittenPairs(g.atoms, order, nonEdges, fudge, metric) == pairs
    ensures BondsFromDistanceAsWritten(g, nodes, nonEdges, fudge, metric) == Ok(Graph(g.order, g.atoms, g.edges + pairs))
  {
  }

  /** Row `i` of the position array is node `i` itself. */
  predicate KeysAreRows(order: seq<NodeId>) {
    forall i | 0 <= i < |order| :: order[i] == i
  }

  /** Under `KeysAreRows`, a node of the list sits at the row of its key. */
  lemma {:induction false} RowOfKey(order: seq<NodeId>, n: NodeId)
    requires KeysAreRows(order) && n in order
    ensures n < |order| && order[n] == n
  {
    var k :| 0 <= k < |order| && order[k] == n;
  }

  /** A row pair the code bonds is a pair the intended criterion bonds, when
      the rows are the nodes themselves. */
  lemma {:induction false} WrittenPairIntended(atoms: map<NodeId, Atom>, order: seq<NodeId>, pool: set<NodeId>, nonEdges: set<Edge>, fudge: real,
                                               metric: Metric, i: nat, j: nat)
    requires KeysAreRows(order) && RowPairBonds(atoms, order, nonEdges, fudge, metric, i, j)
    requires order[i] in Eligible(atoms, pool) && order[j] in Eligible(atoms, pool)
    ensures Bond(order[i], order[j]) in DistancePairs(atoms, pool, nonEdges, fudge, metric)
  {
    assert order[i] == i && order[j] == j;
    DistancePairsExact(atoms, pool, nonEdges, fudge, metric, i, j);
  }

  /** A pair the intended criterion bonds is bonded by the code, when the
      rows are the nodes themselves. */
  lemma {:induction false} IntendedPairWritten(atoms: map<NodeId, Atom>, order: seq<NodeId>, pool: set<NodeId>, nonEdges: set<Edge>, fudge: real,
                                               metric: Metric, u: NodeId, v: NodeId)
    requires KeysAreRows(order) && u in order && v in order && u < v
    requires forall i | 0 <= i < |order| :: order[i] in atoms && Radius(atoms[order[i]]).Some?
    requires RowsLocated(atoms, |order|)
    requires Located(atoms, u) && Located(atoms, v) && Edge(u, v) !in nonEdges
    requires InSearchRadius(atoms, u, v, fudge, metric) && CloseEnough(atoms, u, v, fudge, metric)
    ensures Edge(u, v) in AsWrittenPairs(atoms, order, nonEdges, fudge, metric)
  {
    RowOfKey(order, u);
    RowOfKey(order, v);
    assert RowPairBonds(atoms, order, nonEdges, fudge, metric, u, v);
    assert Bond(order[u], order[v]) == Edge(u, v);
  }

  /** With the rows being the nodes, every row is located exactly when every
      eligible atom has a position. */
  lemma {:induction false} RowsLocatedIff(g: Graph, pool: set<NodeId>)
    requires WellFormed(g)
    requires KeysAreRows(EligibleIn(g.order, g.atoms, pool))
    ensures AllLocated(g.atoms, pool) <==> RowsLocated(g.atoms, |EligibleIn(g.order, g.atoms, pool)|)
  {
    var order := EligibleIn(g.order, g.atoms, pool);
    var el := Eligible(g.atoms, pool);
    if AllLocated(g.atoms, pool) {
      forall i | 0 <= i < |order| ensures RowLocated(g.atoms, i) {
        assert order[i] == i && order[i] in el;
      }
    }
    if RowsLocated(g.atoms, |order|) {
      forall n | n in el ensures g.atoms[n].position.Some? {
        EligibleInMembers(g.order, g.atoms, pool, n);
        RowOfKey(order, n);
        assert RowLocated(g.atoms, n);
      }
    }
  }

  /** With the rows being the nodes, the code bonds only pairs the intended
      criterion bonds. */
  lemma {:induction false} WrittenWithinIntended(g: Graph, pool: set<NodeId>, nonEdges: set<Edge>, fudge: real, metric: Metric)
    requires KeysAreRows(EligibleIn(g.order, g.atoms, pool))
    requires RowsLocated(g.atoms, |EligibleIn(g.order, g.atoms, pool)|)
    ensures AsWrittenPairs(g.atoms, EligibleIn(g.order, g.atoms, pool), nonEdges, fudge, metric)
         <= DistancePairs(g.atoms, pool, nonEdges, fudge, metric)
  {
    var order := EligibleIn(g.order, g.atoms, pool);
    var written := AsWrittenPairs(g.atoms, order, nonEdges, fudge, metric);
    var intended := DistancePairs(g.atoms, pool, nonEdges, fudge, metric);
    forall e | e in written ensures e in intended {
      var i: nat, j: nat :| i < j < |order| && RowPairBonds(g.atoms, order, nonEdges, fudge, metric, i, j) && e == Bond(order[i], order[j]);
      WrittenPairIntended(g.atoms, order, pool, nonEdges, fudge, metric, i, j);
    }
  }

  /** With the rows being the nodes, the code bonds every pair the intended
      criterion bonds. */
  lemma {:induction false} IntendedWithinWritten(g: Graph, pool: set<NodeId>, nonEdges: set<Edge>, fudge: real, metric: Metric)
    requires WellFormed(g)
    requires KeysAreRows(EligibleIn(g.order, g.atoms, pool))
    requires RowsLocated(g.atoms, |EligibleIn(g.order, g.atoms, pool)|)
    ensures DistancePairs(g.atoms, pool, nonEdges, fudge, metric)
         <= AsWrittenPairs(g.atoms, EligibleIn(g.order, g.atoms, pool), nonEdges, fudge, metric)
  {
    var order := EligibleIn(g.order, g.atoms, pool);
    var el := Eligible(g.atoms, pool);
    var intended := DistancePairs(g.atoms, pool, nonEdges, fudge, metric);
    forall u, v | u in el && v in el && u < v && Edge(u, v) in intended
      ensures Edge(u, v) in AsWrittenPairs(g.atoms, order, nonEdges, fudge, metric)
    {
      EligibleInMembers(g.order, g.atoms, pool, u);
      EligibleInMembers(g.order, g.atoms, pool, v);
      DistancePairsExact(g.atoms, pool, nonEdges, fudge, metric, u, v);
      IntendedPairWritten(g.atoms, order, pool, nonEdges, fudge, metric, u, v);
    }
  }

  /** When the eligible atoms are exactly the keys 0, 1, ... in graph order,
      row `i` does hold node `i`, and the pass as written is the intended
      one. */
  lemma {:induction false} AsWrittenAgrees(g: Graph, nodes: Option<set<NodeId>>, nonEdges: set<Edge>, fudge: real, metric: Metric)
    requires WellFormed(g)
    requires KeysAreRows(EligibleIn(g.order, g.atoms, Pool(g.atoms, nodes)))
    ensures BondsFromDistanceAsWritten(g, nodes, nonEdges, fudge, metric) == BondsFromDistance(g, nodes, nonEdges, fudge, metric)
  {
    var pool := Pool(g.atoms, nodes);
    var order := EligibleIn(g.order, g.atoms, pool);
    RowsLocatedIff(g, pool);
    if RowsLocated(g.atoms, |order|) {
      var pairs := DistancePairs(g.atoms, pool, nonEdges, fudge, metric);
      assert AsWrittenPairs(g.atoms, order, nonEdges, fudge, metric) == pairs by {
        WrittenWithinIntended(g, pool, nonEdges, fudge, metric);
        IntendedWithinWritten(g, pool, nonEdges, fudge, metric);
      }
      AsWrittenResult(g, nodes, nonEdges, fudge, metric, order, pairs);
    }
  }

  /** A carbon atom at `x` nm along the first axis. */
  function CarbonAt(x: real): Atom {
    Bare.(element := Some("C"), position := Some(Vec3(x, 0.0, 0.0)))
  }

  lemma {:induction false} CarbonAtFacts(x: real)
    ensures Radius(CarbonAt(x)) == Some(0.170) && CarbonAt(x).position == Some(Vec3(x, 0.0, 0.0))
  {
    CarbonRadius();
  }

  /** Four carbons with keys 0 to 3 at x = 0, 0.1, `far` and `far` + 10 nm. */
  function FourCarbons(far: real): Graph {
    Graph([0, 1, 2, 3], map[0 := CarbonAt(0.0), 1 := CarbonAt(0.1), 2 := CarbonAt(far), 3 := CarbonAt(far + 10.0)], {})
  }

  /** Over keys 0 to 3 with only 2 and 3 eligible, `idx_to_nodenum` maps
      0 to 2 and 1 to 3. */
  lemma {:induction false} TwoEligible(atoms: map<NodeId, Atom>, pool: set<NodeId>)
    requires Eligible(atoms, pool) == {2, 3}
    ensures EligibleIn([0, 1, 2, 3], atoms, pool) == [2, 3]
  {
    var order: seq<NodeId> := [0, 1, 2, 3];
    assert 0 !in Eligible(atoms, pool) && 1 !in Eligible(atoms, pool);
    assert 2 in Eligible(atoms, pool) && 3 in Eligible(atoms, pool);
    assert EligibleIn(order[4..], atoms, pool) == [];
    assert EligibleIn(order[3..], atoms, pool) == [3];
    assert EligibleIn(order[2..], atoms, pool) == [2, 3];
    assert EligibleIn(order[1..], atoms, pool) == [2, 3];
  }

  /** Over `FourCarbons` with nodes 2 and 3, `idx_to_nodenum` maps 0 to 2
      and 1 to 3. */
  lemma {:induction false} FourCarbonsOrder(far: real)
    ensures var g := FourCarbons(far);
      && Eligible(g.atoms, {2, 3}) == {2, 3}
      && EligibleIn(g.order, g.atoms, {2, 3}) == [2, 3]
  {
    var a := FourCarbons(far).atoms;
    assert a.Keys == {0, 1, 2, 3} && a[2] == CarbonAt(far) && a[3] == CarbonAt(far + 10.0);
    CarbonAtFacts(far);
    CarbonAtFacts(far + 10.0);
    assert Eligible(a, {2, 3}) == {2, 3};
    TwoEligible(a, {2, 3});
  }

  /** The rows the pass over nodes 2 and 3 of `FourCarbons` reads as written
      are those of nodes 0 and 1, 0.1 nm apart, so it bonds 2 and 3. */
  lemma {:induction false} FourCarbonsRows(far: real)
    ensures var a := FourCarbons(far).atoms;
      && RowsLocated(a, 2)
      && AsWrittenPairs(a, [2, 3], {}, 1.0, XDistance) == {Edge(2, 3)}
  {
    var a := FourCarbons(far).atoms;
    assert a[0] == CarbonAt(0.0) && a[1] == CarbonAt(0.1) && a[2] == CarbonAt(far) && a[3] == CarbonAt(far + 10.0);
    CarbonAtFacts(0.0);
    CarbonAtFacts(0.1);
    CarbonAtFacts(far);
    CarbonAtFacts(far + 10.0);
    assert RowPosition(a, 0) == Vec3(0.0, 0.0, 0.0) && RowPosition(a, 1) == Vec3(0.1, 0.0, 0.0);
    var order: seq<NodeId> := [2, 3];
    forall i | 0 <= i < |order| ensures order[i] in a && Radius(a[order[i]]).Some? && RowLocated(a, i) {
      assert i == 0 || i == 1;
    }
    var written := AsWrittenPairs(a, order, {}, 1.0, XDistance);
    assert RowPairBonds(a, order, {}, 1.0, XDistance, 0, 1);
    assert Bond(2, 3) in written;
  }

  /** The intended pass over nodes 2 and 3 of `FourCarbons` measures them,
      10 nm apart, and bonds nothing. */
  lemma {:induction false} FourCarbonsIntended(far: real)
    ensures var g := FourCarbons(far);
      AllLocated(g.atoms, {2, 3}) && DistancePairs(g.atoms, {2, 3}, {}, 1.0, XDistance) == {}
  {
    var g := FourCarbons(far);
    CarbonRadius();
    assert Located(g.atoms, 2) && Located(g.atoms, 3);
    assert Distance(g.atoms, 2, 3, XDistance) == 10.0;
    var intended := DistancePairs(g.atoms, {2, 3}, {}, 1.0, XDistance);
    DistancePairsExact(g.atoms, {2, 3}, {}, 1.0, XDistance, 2, 3);
    forall e | e in intended ensures e == Edge(2, 3) {
    }
  }

  /** The distance pass over nodes 2 and 3 of `FourCarbons` as written
      measures rows 0 and 1, the positions of nodes 0 and 1, 0.1 nm apart,
      and bonds nodes 2 and 3, which are 10 nm apart; the intended pass
      adds nothing. */
  lemma {:induction false} RowShiftBondsFarAtoms(far: real)
    ensures var r := BondsFromDistanceAsWritten(FourCarbons(far), Some({2, 3}), {}, 1.0, XDistance);
      r.Ok? && r.value.edges == {Edge(2, 3)}
    ensures var r := BondsFromDistance(FourCarbons(far), Some({2, 3}), {}, 1.0, XDistance);
      r.Ok? && r.value.edges == {}
  {
    RowShiftWritten(far);
    RowShiftIntended(far);
  }

  lemma {:induction false} RowShiftWritten(far: real)
    ensures var r := BondsFromDistanceAsWritten(FourCarbons(far), Some({2, 3}), {}, 1.0, XDistance);
      r.Ok? && r.value.edges == {Edge(2, 3)}
  {
    var g := FourCarbons(far);
    var order: seq<NodeId> := [2, 3];
    var pairs := {Edge(2, 3)};
    assert order == EligibleIn(g.order, g.atoms, Pool(g.atoms, Some({2, 3}))) by {
      assert Pool(g.atoms, Some({2, 3})) == {2, 3};
      FourCarbonsOrder(far);
    }
    assert RowsLocated(g.atoms, |order|) && AsWrittenPairs(g.atoms, order, {}, 1.0, XDistance) == pairs by {
      FourCarbonsRows(far);
    }
    AsWrittenResult(g, Some({2, 3}), {}, 1.0, XDistance, order, pairs);
    assert g.edges + pairs == pairs;
  }

  lemma {:induction false} RowShiftIntended(far: real)
    ensures var r := BondsFromDistance(FourCarbons(far), Some({2, 3}), {}, 1.0, XDistance);
      r.Ok? && r.value.edges == {}
  {
    var g := FourCarbons(far);
    assert Pool(g.atoms, Some({2, 3})) == {2, 3};
    FourCarbonsIntended(far);
  }

  /** Two bare nodes 0 and 1 then carbons 2 and 3 at x = 0 and 0.1 nm. */
  function TwoBareTwoCarbons(): Graph {
    Graph([0, 1, 2, 3], map[0 := Bare, 1 := Bare, 2 := CarbonAt(0.0), 3 := CarbonAt(0.1)], {})
  }

  /** The intended pass over all of `TwoBareTwoCarbons` bonds the carbons. */
  lemma {:induction false} TwoBareIntended()
    ensures var g := TwoBareTwoCarbons();
      && Eligible(g.atoms, g.atoms.Keys) == {2, 3}
      && AllLocated(g.atoms, g.atoms.Keys)
      && DistancePairs(g.atoms, g.atoms.Keys, {}, 1.0, XDistance) == {Edge(2, 3)}
  {
    var g := TwoBareTwoCarbons();
    CarbonRadius();
    assert g.atoms.Keys == {0, 1, 2, 3};
    assert Eligible(g.atoms, g.atoms.Keys) == {2, 3};
    var intended := DistancePairs(g.atoms, g.atoms.Keys, {}, 1.0, XDistance);
    DistancePairsExact(g.atoms, g.atoms.Keys, {}, 1.0, XDistance, 2, 3);
    assert Distance(g.atoms, 2, 3, XDistance) == 0.1;
    forall e | e in intended ensures e == Edge(2, 3) {
    }
  }

  /** Nodes 0 and 1 carry no element and no position, nodes 2 and 3 are
      carbons 0.1 nm apart. As written, the pass over the whole graph reads
      rows 0 and 1 and fails; the intended pass bonds 2 and 3. */
  lemma {:induction false} RowShiftFails()
    ensures BondsFromDistanceAsWritten(TwoBareTwoCarbons(), None, {}, 1.0, XDistance) == Err(MissingPosition)
    ensures BondsFromDistance(TwoBareTwoCarbons(), None, {}, 1.0, XDistance) == Ok(TwoBareTwoCarbons().(edges := {Edge(2, 3)}))
  {
    TwoBareWritten();
    TwoBareIntendedResult();
  }

  lemma {:induction false} TwoBareWritten()
    ensures BondsFromDistanceAsWritten(TwoBareTwoCarbons(), None, {}, 1.0, XDistance) == Err(MissingPosition)
  {
    var g := TwoBareTwoCarbons();
    var order := EligibleIn(g.order, g.atoms, Pool(g.atoms, None));
    assert |order| == 2 by {
      assert Pool(g.atoms, None) == g.atoms.Keys;
      TwoBareIntended();
      TwoEligible(g.atoms, g.atoms.Keys);
    }
    assert !RowLocated(g.atoms, 0);
  }

  lemma {:induction false} TwoBareIntendedResult()
    ensures BondsFromDistance(TwoBareTwoCarbons(), None, {}, 1.0, XDistance) == Ok(TwoBareTwoCarbons().(edges := {Edge(2, 3)}))
  {
    var g := TwoBareTwoCarbons();
    assert Pool(g.atoms, None) == g.atoms.Keys;
    TwoBareIntended();
    var r := BondsFromDistance(g, None, {}, 1.0, XDistance);
    assert r.Ok? && r.value.edges == {Edge(2, 3)};
  }
}
