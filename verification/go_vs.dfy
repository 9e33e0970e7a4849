/** The virtual-site Go model processor: one virtual site on top of every
    backbone bead of a molecule, and one include statement per configured
    topology section, written after that section. */
module GoVs {
  import opened Outcome
  import opened Text
  import opened Molecules

  /** `ValueError` for a missing or empty molecule type name, and `KeyError`
      for an attribute a backbone bead lacks. */
  datatype GoError = NoMoltype | MissingAttribute(attribute: BeadAttribute)

  /** The attributes a virtual site copies from its backbone bead. */
  datatype BeadAttribute = Resid | Resname | Chain | Position

  /** The interaction list the virtual sites are declared in. */
  const VirtualSitesKind: string := "virtual_sitesn"

  /** The defaults of `add_virtual_sites` and of the processor. */
  const DefaultBackbone: string := "BB"
  const DefaultAtomName: string := "CA"
  const DefaultCharge: real := 0.0
  const DefaultSections: seq<string> := ["exclusions"]

  /** The metadata of every virtual-site interaction. */
  const SiteMeta: map<string, MetaValue> := map["go_vs" := Flag(true), "group" := MetaValue.Text("Virtual go site")]

  /** What the processor relies on of a graph: iterating over it visits
      exactly its nodes. Every well-formed graph satisfies it. */
  predicate Listed(g: Graph) {
    && (forall n | n in g.atoms :: n in g.order)
    && (forall i | 0 <= i < |g.order| :: g.order[i] in g.atoms)
  }

  /** The largest element of a nonempty sequence (`max`). */
  function MaxOf(s: seq<nat>): (m: nat)
    requires s != []
    ensures m in s
    ensures forall i | 0 <= i < |s| :: s[i] <= m
  {
    if |s| == 1 then s[0]
    else
      var rest := MaxOf(s[1..]);
      assert forall i | 1 <= i < |s| :: s[i] == s[1..][i - 1];
      if s[0] >= rest then s[0] else rest
  }

  /** The largest `charge_group` among the atoms of `order` that have one. */
  function MaxChargeGroup(order: seq<NodeId>, atoms: map<NodeId, Atom>): Option<int>
    requires forall i | 0 <= i < |order| :: order[i] in atoms
  {
    if order == [] then None
    else
      var here := atoms[order[0]].chargeGroup;
      var rest := MaxChargeGroup(order[1..], atoms);
      if here.None? then rest
      else if rest.None? || rest.value <= here.value then here
      else rest
  }

  /** `MaxChargeGroup` is absent exactly when no atom has a charge group, and
      otherwise is the charge group of some atom and at least every other. */
  lemma {:induction false} MaxChargeGroupIsMax(order: seq<NodeId>, atoms: map<NodeId, Atom>)
    requires forall i | 0 <= i < |order| :: order[i] in atoms
    ensures var r := MaxChargeGroup(order, atoms);
      && (r.None? <==> forall i | 0 <= i < |order| :: atoms[order[i]].chargeGroup.None?)
      && (r.Some? ==> exists i | 0 <= i < |order| :: atoms[order[i]].chargeGroup == r)
      && (r.Some? ==> forall i | 0 <= i < |order| && atoms[order[i]].chargeGroup.Some? ::
            atoms[order[i]].chargeGroup.value <= r.value)
  {
    if order != [] {
      var rest := order[1..];
      MaxChargeGroupIsMax(rest, atoms);
      assert forall i | 1 <= i < |order| :: order[i] == rest[i - 1];
      var r := MaxChargeGroup(order, atoms);
      var r' := MaxChargeGroup(rest, atoms);
      if r.Some? {
        if r == atoms[order[0]].chargeGroup {
          assert atoms[order[0]].chargeGroup == r;
        } else {
          var i :| 0 <= i < |rest| && atoms[rest[i]].chargeGroup == r';
          assert atoms[order[i + 1]].chargeGroup == r;
        }
      }
    }
  }

  /** The atoms whose `atomname` is `backbone`. */
  function BackboneSet(atoms: map<NodeId, Atom>, backbone: string): set<NodeId> {
    set n | n in atoms && atoms[n].atomname == Some(backbone)
  }

  /** The backbone beads of `g` in its iteration order. */
  function Backbone(g: Graph, backbone: string): (r: seq<NodeId>)
    ensures forall n :: n in r <==> n in g.order && n in BackboneSet(g.atoms, backbone)
    ensures forall i | 0 <= i < |r| :: r[i] in g.atoms && g.atoms[r[i]].atomname == Some(backbone)
  {
    var r := FilterIn(g.order, BackboneSet(g.atoms, backbone));
    assert forall i | 0 <= i < |r| :: r[i] in r;
    r
  }

  /** A bead lacks one of the attributes its virtual site copies. */
  predicate Lacks(a: Atom) {
    a.resid.None? || a.resname.None? || a.chain.None? || a.position.None?
  }

  /** The bead type of a virtual site, `"<prefix>_<resid>"`. */
  function SiteType(prefix: string, resid: int): string {
    prefix + "_" + IntToString(resid)
  }

  /** The virtual site of backbone bead `a`, in charge group `cg`. Reading a
      missing `resid`, `resname`, `chain` or `position` raises `KeyError`,
      in that order. */
  function SiteAtom(a: Atom, prefix: string, atomname: string, charge: real, cg: int): Result<Atom, GoError> {
    if a.resid.None? then Err(MissingAttribute(Resid))
    else if a.resname.None? then Err(MissingAttribute(Resname))
    else if a.chain.None? then Err(MissingAttribute(Chain))
    else if a.position.None? then Err(MissingAttribute(Position))
    else Ok(Bare.(resid := a.resid, resname := a.resname, atype := Some(SiteType(prefix, a.resid.value)),
                  chargeGroup := Some(cg), chain := a.chain, position := a.position,
                  atomname := Some(atomname), charge := Some(charge)))
  }

  /** The virtual sites of `beads`, the `i`-th in charge group `cg + 1 + i`;
      the first bead that lacks an attribute stops the loop. */
  function SiteAtoms(atoms: map<NodeId, Atom>, beads: seq<NodeId>, prefix: string, atomname: string, charge: real, cg: int)
    : (r: Result<seq<Atom>, GoError>)
    requires forall i | 0 <= i < |beads| :: beads[i] in atoms
    ensures r.Ok? ==> |r.value| == |beads|
    decreases |beads|
  {
    if beads == [] then Ok([])
    else
      match SiteAtom(atoms[beads[0]], prefix, atomname, charge, cg + 1)
      case Err(e) => Err(e)
      case Ok(a) =>
        match SiteAtoms(atoms, beads[1..], prefix, atomname, charge, cg + 1)
        case Err(e) => Err(e)
        case Ok(rest) => Ok([a] + rest)
  }

  /** A virtual site is refused exactly when its bead lacks an attribute, and
      otherwise sits on the bead (same residue, chain and position), carries
      the bead type of its residue, the given name and charge, and its own
      charge group. */
  lemma {:induction false} SiteAtomSpec(a: Atom, prefix: string, atomname: string, charge: real, cg: int)
    ensures var r := SiteAtom(a, prefix, atomname, charge, cg);
      && (r.Err? <==> Lacks(a))
      && (r.Ok? ==>
        && r.value.resid == a.resid && r.value.resname == a.resname
        && r.value.chain == a.chain && r.value.position == a.position
        && r.value.atype == Some(SiteType(prefix, a.resid.value))
        && r.value.chargeGroup == Some(cg)
        && r.value.atomname == Some(atomname) && r.value.charge == Some(charge))
  {
  }

  /** The loop fails exactly when some bead lacks an attribute. */
  lemma {:induction false} SiteAtomsFails(atoms: map<NodeId, Atom>, beads: seq<NodeId>, prefix: string, atomname: string, charge: real, cg: int)
    requires forall i | 0 <= i < |beads| :: beads[i] in atoms
    ensures SiteAtoms(atoms, beads, prefix, atomname, charge, cg).Err? <==> exists i | 0 <= i < |beads| :: Lacks(atoms[beads[i]])
    decreases |beads|
  {
    if beads != [] {
      var tail := beads[1..];
      SiteAtomsFails(atoms, tail, prefix, atomname, charge, cg + 1);
      SiteAtomSpec(atoms[beads[0]], prefix, atomname, charge, cg + 1);
      if exists i | 0 <= i < |beads| :: Lacks(atoms[beads[i]]) {
        var i :| 0 <= i < |beads| && Lacks(atoms[beads[i]]);
        if i > 0 {
          assert Lacks(atoms[tail[i - 1]]);
        }
      }
      if exists i | 0 <= i < |tail| :: Lacks(atoms[tail[i]]) {
        var i :| 0 <= i < |tail| && Lacks(atoms[tail[i]]);
        assert Lacks(atoms[beads[i + 1]]);
      }
    }
  }

  /** The loop fails exactly when some bead lacks an attribute, and otherwise
      the `i`-th site is the one of the `i`-th bead in charge group
      `cg + 1 + i`. */
  lemma SiteAtomsSpec(atoms: map<NodeId, Atom>, beads: seq<NodeId>, prefix: string, atomname: string, charge: real, cg: int)
    requires forall i | 0 <= i < |beads| :: beads[i] in atoms
    ensures var r := SiteAtoms(atoms, beads, prefix, atomname, charge, cg);
      && (r.Err? <==> exists i | 0 <= i < |beads| :: Lacks(atoms[beads[i]]))
      && (r.Ok? ==> forall i | 0 <= i < |beads| ::
            r.value[i] == SiteAtom(atoms[beads[i]], prefix, atomname, charge, cg + 1 + i).value)
  {
    SiteAtomsFails(atoms, beads, prefix, atomname, charge, cg);
    if SiteAtoms(atoms, beads, prefix, atomname, charge, cg).Ok? {
      forall i | 0 <= i < |beads|
        ensures SiteAtoms(atoms, beads, prefix, atomname, charge, cg).value[i]
             == SiteAtom(atoms[beads[i]], prefix, atomname, charge, cg + 1 + i).value
      {
        SiteAtomsAt(atoms, beads, prefix, atomname, charge, cg, i);
      }
    }
  }

  /** Every site carries the given atom name. */
  lemma {:induction false} SiteAtomsNamed(atoms: map<NodeId, Atom>, beads: seq<NodeId>, prefix: string, atomname: string, charge: real, cg: int)
    requires forall i | 0 <= i < |beads| :: beads[i] in atoms
    requires SiteAtoms(atoms, beads, prefix, atomname, charge, cg).Ok?
    ensures forall k | 0 <= k < |beads| :: SiteAtoms(atoms, beads, prefix, atomname, charge, cg).value[k].atomname == Some(atomname)
    decreases |beads|
  {
    if beads != [] {
      SiteAtomsNamed(atoms, beads[1..], prefix, atomname, charge, cg + 1);
      var r := SiteAtoms(atoms, beads, prefix, atomname, charge, cg).value;
      assert forall k | 1 <= k < |beads| :: r[k] == SiteAtoms(atoms, beads[1..], prefix, atomname, charge, cg + 1).value[k - 1];
    }
  }

  /** The `k`-th site of a successful loop is the site of the `k`-th bead in
      charge group `cg + 1 + k`. */
  lemma {:induction false} SiteAtomsAt(atoms: map<NodeId, Atom>, beads: seq<NodeId>, prefix: string, atomname: string, charge: real, cg: int, k: nat)
    requires forall i | 0 <= i < |beads| :: beads[i] in atoms
    requires SiteAtoms(atoms, beads, prefix, atomname, charge, cg).Ok? && k < |beads|
    ensures SiteAtom(atoms[beads[k]], prefix, atomname, charge, cg + 1 + k) == Ok(SiteAtoms(atoms, beads, prefix, atomname, charge, cg).value[k])
    decreases |beads|
  {
    if k > 0 {
      SiteAtomsAt(atoms, beads[1..], prefix, atomname, charge, cg + 1, k - 1);
      assert beads[1..][k - 1] == beads[k];
    }
  }

  /** The keys `first`, `first + 1`, ..., `first + n - 1`. */
  function Keys(first: nat, n: nat): (r: seq<NodeId>)
    ensures |r| == n
    ensures forall k | 0 <= k < n :: r[k] == first + k
  {
    if n == 0 then [] else Keys(first, n - 1) + [first + n - 1]
  }

  /** `add_nodes_from`: `sites[k]` stored under key `first + k`. */
  function AddAtoms(atoms: map<NodeId, Atom>, first: nat, sites: seq<Atom>): map<NodeId, Atom>
    decreases |sites|
  {
    if sites == [] then atoms
    else AddAtoms(atoms[first := sites[0]], first + 1, sites[1..])
  }

  /** A key holds a site when it is one of the new keys, and otherwise
      whatever it held before. */
  lemma {:induction false} AddAtomsAt(atoms: map<NodeId, Atom>, first: nat, sites: seq<Atom>, x: NodeId)
    ensures var r := AddAtoms(atoms, first, sites);
      && (x in r <==> x in atoms || first <= x < first + |sites|)
      && (x in r ==> r[x] == if first <= x < first + |sites| then sites[x - first] else atoms[x])
    decreases |sites|
  {
    if sites != [] {
      AddAtomsAt(atoms[first := sites[0]], first + 1, sites[1..], x);
    }
  }

  /** The interaction list `kind` of `m`, empty when absent. */
  function InteractionsOf(m: Molecule, kind: string): seq<Interaction> {
    if kind in m.interactions then m.interactions[kind] else []
  }

  /** The virtual-site interaction of bead `bead` and its site `site`. */
  function SiteLink(site: NodeId, bead: NodeId): Interaction {
    Interaction([site, bead], ["1"], SiteMeta)
  }

  /** The links of the site under key `first + k` to bead `beads[k]`. */
  function SiteLinks(first: nat, beads: seq<NodeId>): (r: seq<Interaction>)
    ensures |r| == |beads|
    decreases |beads|
  {
    if beads == [] then [] else [SiteLink(first, beads[0])] + SiteLinks(first + 1, beads[1..])
  }

  /** The `k`-th link joins the site under key `first + k` to `beads[k]`. */
  lemma {:induction false} SiteLinkAt(first: nat, beads: seq<NodeId>, k: nat)
    requires k < |beads|
    ensures SiteLinks(first, beads)[k] == SiteLink(first + k, beads[k])
    decreases |beads|
  {
    if k > 0 {
      SiteLinkAt(first + 1, beads[1..], k - 1);
    }
  }

  /** `m` with `sites` added under keys `first`, `first + 1`, ... after all
      its atoms, each linked to its bead in the `virtual_sitesn` list. */
  function WithSites(m: Molecule, first: nat, beads: seq<NodeId>, sites: seq<Atom>): Molecule
    requires |sites| == |beads|
  {
    m.(graph := Graph(m.graph.order + Keys(first, |beads|), AddAtoms(m.graph.atoms, first, sites), m.graph.edges),
       interactions := m.interactions[VirtualSitesKind := InteractionsOf(m, VirtualSitesKind) + SiteLinks(first, beads)])
  }

  /** The sites of the backbone beads of `g`, in charge groups after the
      largest one (or after 0). */
  function BeadSites(g: Graph, prefix: string, backbone: string, atomname: string, charge: real)
    : (r: Result<seq<Atom>, GoError>)
    requires Listed(g)
    ensures r.Ok? ==> |r.value| == |Backbone(g, backbone)|
  {
    SiteAtoms(g.atoms, Backbone(g, backbone), prefix, atomname, charge, MaxChargeGroup(g.order, g.atoms).GetOr(0))
  }

  /** Every site of the backbone beads carries the given atom name. */
  lemma BeadSitesNamed(g: Graph, prefix: string, backbone: string, atomname: string, charge: real)
    requires Listed(g) && BeadSites(g, prefix, backbone, atomname, charge).Ok?
    ensures forall k | 0 <= k < |Backbone(g, backbone)| :: BeadSites(g, prefix, backbone, atomname, charge).value[k].atomname == Some(atomname)
  {
    SiteAtomsNamed(g.atoms, Backbone(g, backbone), prefix, atomname, charge, MaxChargeGroup(g.order, g.atoms).GetOr(0));
  }

  /** `add_virtual_sites`: nothing on a molecule without atoms; otherwise one
      site per backbone bead, numbered after the largest key, in a charge
      group after the largest one (or after 0), appended after all atoms and
      declared in the `virtual_sitesn` list (created when absent). */
  function AddVirtualSites(m: Molecule, prefix: string, backbone: string, atomname: string, charge: real)
    : (r: Result<Molecule, GoError>)
    requires Listed(m.graph)
  {
    var g := m.graph;
    if g.order == [] then Ok(m)
    else
      match BeadSites(g, prefix, backbone, atomname, charge)
      case Err(e) => Err(e)
      case Ok(sites) => Ok(WithSites(m, MaxOf(g.order) + 1, Backbone(g, backbone), sites))
  }

  /** The line that includes the generated file of `section`. */
  function IncludeLine(moltype: string, section: string): string {
    "#include \"" + moltype + "_" + section + "_VirtGoSites.itp\""
  }

  /** The extra lines after `section`, empty when absent. */
  function LinesOf(lines: map<string, seq<string>>, section: string): seq<string> {
    if section in lines then lines[section] else []
  }

  /** The include loop of `run_molecule`: each listed section gets one more
      include line at the end of its lines. */
  function AddIncludes(lines: map<string, seq<string>>, moltype: string, sections: seq<string>): map<string, seq<string>>
    decreases |sections|
  {
    if sections == [] then lines
    else
      var s := sections[0];
      AddIncludes(lines[s := LinesOf(lines, s) + [IncludeLine(moltype, s)]], moltype, sections[1..])
  }

  /** `GoVirtIncludes.run_molecule`. */
  function RunMolecule(m: Molecule, sections: seq<string>): (r: Result<Molecule, GoError>)
    requires Listed(m.graph)
    ensures m.moltype.None? || m.moltype == Some("") ==> r == Err(NoMoltype)
  {
    if m.moltype.None? || m.moltype.value == "" then Err(NoMoltype)
    else
      var moltype := m.moltype.value;
      var withSites :- AddVirtualSites(m, moltype, DefaultBackbone, DefaultAtomName, DefaultCharge);
      Ok(withSites.(postSectionLines := AddIncludes(withSites.postSectionLines, moltype, sections)))
  }

  // ------------------------------------------------------------ properties

  /** Every key of a nonempty graph is at most the largest one. */
  lemma {:induction false} MaxOfKeys(g: Graph)
    requires Listed(g) && g.order != []
    ensures forall n | n in g.atoms :: n <= MaxOf(g.order)
  {
    forall n | n in g.atoms ensures n <= MaxOf(g.order) {
      var i :| 0 <= i < |g.order| && g.order[i] == n;
    }
  }

  /** A molecule without atoms is returned as it is. */
  lemma {:induction false} AddVirtualSitesEmpty(m: Molecule, prefix: string, backbone: string, atomname: string, charge: real)
    requires Listed(m.graph) && m.graph.atoms == map[]
    ensures AddVirtualSites(m, prefix, backbone, atomname, charge) == Ok(m)
  {
  }

  /** Adding sites fails exactly when some backbone bead lacks `resid`,
      `resname`, `chain` or `position`. */
  lemma {:induction false} AddVirtualSitesFails(m: Molecule, prefix: string, backbone: string, atomname: string, charge: real)
    requires Listed(m.graph)
    ensures AddVirtualSites(m, prefix, backbone, atomname, charge).Err? <==>
      exists n | n in BackboneSet(m.graph.atoms, backbone) :: Lacks(m.graph.atoms[n])
  {
    var g := m.graph;
    var beads := Backbone(g, backbone);
    if g.order != [] {
      SiteAtomsSpec(g.atoms, beads, prefix, atomname, charge, MaxChargeGroup(g.order, g.atoms).GetOr(0));
    }
    if exists n | n in BackboneSet(g.atoms, backbone) :: Lacks(g.atoms[n]) {
      var n :| n in BackboneSet(g.atoms, backbone) && Lacks(g.atoms[n]);
      assert n in g.order;
      var i :| 0 <= i < |beads| && beads[i] == n;
    }
  }

  /** On a molecule with atoms, the result is `m` with the sites of the
      backbone beads added after the largest key. */
  lemma {:induction false} AddVirtualSitesShape(m: Molecule, prefix: string, backbone: string, atomname: string, charge: real)
    requires Listed(m.graph) && m.graph.order != []
    requires AddVirtualSites(m, prefix, backbone, atomname, charge).Ok?
    ensures BeadSites(m.graph, prefix, backbone, atomname, charge).Ok?
    ensures AddVirtualSites(m, prefix, backbone, atomname, charge)
         == Ok(WithSites(m, MaxOf(m.graph.order) + 1, Backbone(m.graph, backbone), BeadSites(m.graph, prefix, backbone, atomname, charge).value))
  {
  }

  /** `r` keeps the atoms, bonds, other interaction lists and metadata of
      `m`, and extends its iteration order and its `virtual_sitesn` list. */
  predicate Extends(m: Molecule, r: Molecule) {
    && r.graph.edges == m.graph.edges
    && m.graph.order <= r.graph.order
    && (forall n | n in m.graph.atoms :: n in r.graph.atoms && r.graph.atoms[n] == m.graph.atoms[n])
    && (forall kind | kind in m.interactions && kind != VirtualSitesKind ::
          kind in r.interactions && r.interactions[kind] == m.interactions[kind])
    && InteractionsOf(m, VirtualSitesKind) <= InteractionsOf(r, VirtualSitesKind)
    && r.moltype == m.moltype && r.postSectionLines == m.postSectionLines
  }

  /** The `virtual_sitesn` list gains exactly the links of the new sites. */
  lemma WithSitesLinks(m: Molecule, first: nat, beads: seq<NodeId>, sites: seq<Atom>)
    requires |sites| == |beads|
    ensures InteractionsOf(WithSites(m, first, beads, sites), VirtualSitesKind)
         == InteractionsOf(m, VirtualSitesKind) + SiteLinks(first, beads)
  {
  }

  /** Adding sites above every key extends the molecule. */
  lemma {:induction false} WithSitesKeeps(m: Molecule, first: nat, beads: seq<NodeId>, sites: seq<Atom>)
    requires |sites| == |beads|
    requires forall n | n in m.graph.atoms :: n < first
    ensures Extends(m, WithSites(m, first, beads, sites))
  {
    var r := WithSites(m, first, beads, sites);
    forall n | n in m.graph.atoms
      ensures n in r.graph.atoms && r.graph.atoms[n] == m.graph.atoms[n]
    {
      AddAtomsAt(m.graph.atoms, first, sites, n);
    }
    WithSitesLinks(m, first, beads, sites);
  }

  /** Adding sites above every key to a well-formed graph gives a
      well-formed graph with one more node per site. */
  lemma {:induction false} WithSitesWellFormed(m: Molecule, first: nat, beads: seq<NodeId>, sites: seq<Atom>)
    requires WellFormed(m.graph) && |sites| == |beads|
    requires forall n | n in m.graph.atoms :: n < first
    ensures WellFormed(WithSites(m, first, beads, sites).graph)
    ensures |WithSites(m, first, beads, sites).graph.order| == |m.graph.order| + |beads|
  {
    var g := m.graph;
    var keys := Keys(first, |beads|);
    var order := g.order + keys;
    var atoms := AddAtoms(g.atoms, first, sites);
    assert forall i | 0 <= i < |order| :: order[i] == if i < |g.order| then g.order[i] else keys[i - |g.order|];
    forall i | 0 <= i < |order| ensures order[i] in atoms {
      AddAtomsAt(g.atoms, first, sites, order[i]);
    }
    forall i, j | 0 <= i < j < |order| ensures order[i] != order[j] {
      if i < |g.order| && j >= |g.order| {
        assert g.order[i] in g.atoms;
      }
    }
    forall n | n in atoms ensures n in order {
      AddAtomsAt(g.atoms, first, sites, n);
      if n in g.atoms {
        assert n in g.order;
      } else {
        assert order[|g.order| + (n - first)] == n;
      }
    }
  }

  /** The result extends the molecule: the existing atoms, bonds, other
      interaction lists and metadata are kept, and the new atoms and links
      come after the old ones. */
  lemma {:induction false} AddVirtualSitesKeeps(m: Molecule, prefix: string, backbone: string, atomname: string, charge: real)
    requires Listed(m.graph)
    requires AddVirtualSites(m, prefix, backbone, atomname, charge).Ok?
    ensures Extends(m, AddVirtualSites(m, prefix, backbone, atomname, charge).value)
  {
    var g := m.graph;
    if g.order != [] {
      AddVirtualSitesShape(m, prefix, backbone, atomname, charge);
      MaxOfKeys(g);
      WithSitesKeeps(m, MaxOf(g.order) + 1, Backbone(g, backbone), BeadSites(g, prefix, backbone, atomname, charge).value);
    }
  }

  /** The `k`-th site goes under the free key `first + k`, and the `k`-th new
      `virtual_sitesn` entry links it to the `k`-th bead. */
  lemma {:induction false} WithSitesNumbering(m: Molecule, first: nat, beads: seq<NodeId>, sites: seq<Atom>, k: nat)
    requires |sites| == |beads| && k < |beads|
    requires forall n | n in m.graph.atoms :: n < first
    ensures var r := WithSites(m, first, beads, sites);
      && first + k !in m.graph.atoms && first + k in r.graph.atoms
      && r.graph.atoms[first + k] == sites[k]
      && |InteractionsOf(r, VirtualSitesKind)| == |InteractionsOf(m, VirtualSitesKind)| + |beads|
      && InteractionsOf(r, VirtualSitesKind)[|InteractionsOf(m, VirtualSitesKind)| + k] == SiteLink(first + k, beads[k])
  {
    AddAtomsAt(m.graph.atoms, first, sites, first + k);
    SiteLinkAt(first, beads, k);
  }

  /** The molecule grows by exactly one atom per backbone bead. */
  lemma {:induction false} AddVirtualSitesGrowth(m: Molecule, prefix: string, backbone: string, atomname: string, charge: real)
    requires Listed(m.graph)
    requires AddVirtualSites(m, prefix, backbone, atomname, charge).Ok?
    ensures var r := AddVirtualSites(m, prefix, backbone, atomname, charge).value;
      |r.graph.order| == |m.graph.order| + |Backbone(m.graph, backbone)|
  {
    var g := m.graph;
    if g.order != [] {
      AddVirtualSitesShape(m, prefix, backbone, atomname, charge);
    } else {
      assert Backbone(g, backbone) == [];
    }
  }

  /** The `virtual_sitesn` list grows by one entry per backbone bead. */
  lemma {:induction false} AddVirtualSitesKeepsCount(m: Molecule, prefix: string, backbone: string, atomname: string, charge: real)
    requires Listed(m.graph)
    requires AddVirtualSites(m, prefix, backbone, atomname, charge).Ok?
    ensures var r := AddVirtualSites(m, prefix, backbone, atomname, charge).value;
      |InteractionsOf(r, VirtualSitesKind)| == |InteractionsOf(m, VirtualSitesKind)| + |Backbone(m.graph, backbone)|
  {
    var g := m.graph;
    if g.order != [] {
      AddVirtualSitesShape(m, prefix, backbone, atomname, charge);
      WithSitesLinks(m, MaxOf(g.order) + 1, Backbone(g, backbone), BeadSites(g, prefix, backbone, atomname, charge).value);
    } else {
      assert Backbone(g, backbone) == [];
    }
  }

  /** Sites added above every key, none named like the backbone, leave the
      backbone beads as they were. */
  lemma {:induction false} WithSitesBackbone(m: Molecule, first: nat, beads: seq<NodeId>, sites: seq<Atom>, backbone: string)
    requires |sites| == |beads|
    requires forall n | n in m.graph.atoms :: n < first
    requires forall k | 0 <= k < |sites| :: sites[k].atomname != Some(backbone)
    ensures Backbone(WithSites(m, first, beads, sites).graph, backbone) == Backbone(m.graph, backbone)
  {
    var g := m.graph;
    var keys := Keys(first, |beads|);
    var atoms := AddAtoms(g.atoms, first, sites);
    var old_ := BackboneSet(g.atoms, backbone);
    var new_ := BackboneSet(atoms, backbone);
    forall n: NodeId ensures n in new_ <==> n in old_ {
      AddAtomsAt(g.atoms, first, sites, n);
      if n in atoms && first <= n < first + |sites| {
        assert atoms[n] == sites[n - first];
      }
    }
    assert new_ == old_;
    FilterInAppend(g.order, keys, old_);
    FilterInNone(keys, old_);
    assert FilterIn(g.order, old_) + [] == FilterIn(g.order, old_);
  }

  /** Sites are named apart from the backbone, so a second run finds the
      same backbone beads and adds a second set of sites for them. */
  lemma {:induction false} BackboneStable(m: Molecule, prefix: string, backbone: string, atomname: string, charge: real)
    requires Listed(m.graph) && atomname != backbone
    requires AddVirtualSites(m, prefix, backbone, atomname, charge).Ok?
    ensures var r := AddVirtualSites(m, prefix, backbone, atomname, charge).value;
      Backbone(r.graph, backbone) == Backbone(m.graph, backbone)
  {
    var g := m.graph;
    if g.order != [] {
      AddVirtualSitesShape(m, prefix, backbone, atomname, charge);
      MaxOfKeys(g);
      var beads := Backbone(g, backbone);
      var sites := BeadSites(g, prefix, backbone, atomname, charge).value;
      BeadSitesNamed(g, prefix, backbone, atomname, charge);
      WithSitesBackbone(m, MaxOf(g.order) + 1, beads, sites, backbone);
    }
  }

  /** Sites of two beads of one molecule type share a bead type exactly when
      the beads share a residue id. */
  lemma {:induction false} SiteTypeInjective(prefix: string, resid1: int, resid2: int)
    ensures SiteType(prefix, resid1) == SiteType(prefix, resid2) <==> resid1 == resid2
  {
    if SiteType(prefix, resid1) == SiteType(prefix, resid2) {
      var n := |prefix| + 1;
      assert SiteType(prefix, resid1)[n..] == IntToString(resid1);
      assert SiteType(prefix, resid2)[n..] == IntToString(resid2);
      IntToStringInjective(resid1, resid2);
    }
  }

  /** Each listed section gains one include line per time it is listed,
      after its existing lines; unlisted sections keep their lines. */
  lemma {:induction false} AddIncludesSpec(lines: map<string, seq<string>>, moltype: string, sections: seq<string>, s: string)
    ensures LinesOf(AddIncludes(lines, moltype, sections), s)
      == LinesOf(lines, s) + seq(multiset(sections)[s], _ => IncludeLine(moltype, s))
    ensures s in AddIncludes(lines, moltype, sections) <==> s in lines || s in sections
    decreases |sections|
  {
    if sections != [] {
      var t := sections[0];
      var next := lines[t := LinesOf(lines, t) + [IncludeLine(moltype, t)]];
      AddIncludesSpec(next, moltype, sections[1..], s);
      assert sections == [t] + sections[1..];
      assert multiset(sections) == multiset{t} + multiset(sections[1..]);
      var c := multiset(sections[1..])[s];
      if t == s {
        assert seq(c + 1, _ => IncludeLine(moltype, s)) == [IncludeLine(moltype, s)] + seq(c, _ => IncludeLine(moltype, s));
      }
    }
  }

  /** `run_molecule` fails with `ValueError` when the molecule has no type
      name, and otherwise exactly when adding the sites fails; on success it
      adds the default sites and one include line per listed section. */
  lemma {:induction false} RunMoleculeSpec(m: Molecule, sections: seq<string>, s: string)
    requires Listed(m.graph)
    ensures var r := RunMolecule(m, sections);
      r.Err? <==> (m.moltype.None? || m.moltype == Some("")
        || AddVirtualSites(m, m.moltype.value, DefaultBackbone, DefaultAtomName, DefaultCharge).Err?)
    ensures var r := RunMolecule(m, sections);
      r.Ok? ==>
      var withSites := AddVirtualSites(m, m.moltype.value, DefaultBackbone, DefaultAtomName, DefaultCharge).value;
      && r.value.graph == withSites.graph && r.value.interactions == withSites.interactions
      && LinesOf(r.value.postSectionLines, s)
         == LinesOf(m.postSectionLines, s) + seq(multiset(sections)[s], _ => IncludeLine(m.moltype.value, s))
  {
    var r := RunMolecule(m, sections);
    if r.Ok? {
      var withSites := AddVirtualSites(m, m.moltype.value, DefaultBackbone, DefaultAtomName, DefaultCharge).value;
      AddVirtualSitesKeeps(m, m.moltype.value, DefaultBackbone, DefaultAtomName, DefaultCharge);
      AddIncludesSpec(withSites.postSectionLines, m.moltype.value, sections, s);
    }
  }

  /** Running twice puts two include lines per listing after a section. */
  lemma {:induction false} IncludesAccumulate(lines: map<string, seq<string>>, moltype: string, sections: seq<string>, s: string)
    ensures LinesOf(AddIncludes(AddIncludes(lines, moltype, sections), moltype, sections), s)
      == LinesOf(lines, s) + seq(2 * multiset(sections)[s], _ => IncludeLine(moltype, s))
  {
    var once := AddIncludes(lines, moltype, sections);
    AddIncludesSpec(lines, moltype, sections, s);
    AddIncludesSpec(once, moltype, sections, s);
    var c := multiset(sections)[s];
    var line := IncludeLine(moltype, s);
    assert seq(c, _ => line) + seq(c, _ => line) == seq(2 * c, _ => line);
  }
}
