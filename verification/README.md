# The core of vermouth, modelled in Dafny

`vermouth` is the library behind Martinize 2, which turns atomistic
structures into coarse-grained Martini models. This project models
the parts of it that guess and repair molecule graphs and read and
write files around them:

- bond inference (`make_bonds` and `MakeBonds.run_system`):
  - bonds within a residue come from the atom names of its force-field block;
  - a residue whose block is unusable falls back to distances;
  - a final distance pass adds bonds between residues;
  - the system is joined, bonded once, and cut back into molecules at the
    connected components of its residue graph;
- force fields (`ForceField`, `find_force_fields`,
  `iter_force_field_files`):
  - features and reference graphs;
  - discovery of force-field directories and the dispatch of their files
    to parsers;
- Go-model virtual sites (`GoVirtIncludes.run_molecule`,
  `add_virtual_sites`):
  - one virtual site per backbone bead, numbered after every existing atom;
  - include lines after the molecule's sections;
- the entry API's mapping reader (`read_mapping`,
  `read_mapping_directory`) and topology writer (`write_gmx_topology`):
  - deduplication of molecule types;
  - run-length grouping of the `[ molecules ]` section;
- GROMACS `.gro` files (`read_gro`, `write_gro`):
  - a fixed-width layout inferred from the first atom line;
  - the box line that ends reading;
  - atoms written sorted by residue and numbered across the system.

The molecule graph (`Molecules.Graph`) keeps three things:
- the node iteration order of networkx;
- a map from node key to attributes;
- a set of normalised edges.

Operations return new values where the Python code mutates in place.
Exceptions become the error side of a `Result`.

| file | module | models |
|---|---|---|
| outcome.dfy | Outcome | `Option`, `Result` |
| text.dfy | Text | the string operations the code uses: strip, split, find, count, `str`/`int` of naturals, base names |
| molecules.dfy | Molecules | atoms, edges, graphs, molecules, `subgraph` |
| forcefield.dfy | ForceFields | `vermouth/forcefield.py` |
| bonding.dfy | Bonding | `make_bonds`, `_bonds_from_names`, `_bonds_from_distance`, `_collect_residues` |
| components.dfy | Components | the connected components of the residue graph |
| fuse_split.dfy | FuseSplit | `MakeBonds.run_system` |
| go_vs.dfy | GoVs | `vermouth/processors/go_vs_includes.py` |
| mapping.dfy | Mapping | `read_mapping`, `read_mapping_directory` |
| topology.dfy | Topology | `write_gmx_topology` |
| gro_read.dfy | GroRead | `read_gro` |
| gro_write.dfy | GroWrite | `write_gro` |

## Model

| member | source | states |
|---|---|---|
| Bonding.MaxRadiusIsLargest | vermouth/processors/make_bonds.py:38-58 | every van der Waals radius in the table is positive and at most the largest one |
| Bonding.SeleniumRadius | vermouth/processors/make_bonds.py:52 | the table gives Se 1.90 nm, and that is the largest radius, so it sets the search radius for every pair |
| Bonding.CarbonRadius | vermouth/processors/make_bonds.py:41 | the table gives C 0.170 nm |
| Bonding.CollectResidues | vermouth/processors/make_bonds.py:62-80 | every atom lies in the group of its own key (mol_idx, chain, resid, resname); groups are nonempty and hold only atoms of their key |
| Bonding.ResidueGroupsExact | vermouth/processors/make_bonds.py:62-80 | two atoms share a group iff all four key attributes agree, and no atom lies in two groups |
| Bonding.ResidueOrder | vermouth/processors/make_bonds.py:254 | the loop visits every residue key exactly once |
| Bonding.NameIndex | vermouth/processors/make_bonds.py:187-196 | when names are unique in a residue, each name present maps to the one atom carrying it, and every named atom is found under its name |
| Bonding.BondsFromNames | vermouth/processors/make_bonds.py:154-216 | fails iff the residue's block is missing or empty, or two atoms of the residue share a name; the missing block is the `UnknownResidue` error; every bond and non-edge found joins named atoms of the residue |
| Bonding.NameBondsExact | vermouth/processors/make_bonds.py:198-207 | two named atoms get bonded iff the block bonds their names |
| Bonding.NameNonEdgesExact | vermouth/processors/make_bonds.py:209-216 | a pair of named atoms is a returned non-edge iff the block holds their names apart, in either order |
| Bonding.BondsFromDistance | vermouth/processors/make_bonds.py:83-151 | the distance pass as the comment at lines 103-108 intends, each eligible atom measured at its own position (see Findings): it fails iff an eligible atom has no position; nodes and attributes are untouched; exactly the qualifying distance pairs are added |
| Bonding.DistancePairsExact | vermouth/processors/make_bonds.py:109-151 | a pair is bonded by distance iff both atoms are eligible and have positions, the pair is not a known non-edge, it lies within the search radius (largest radius times fudge squared), and it is within half the sum of the radii times fudge |
| Bonding.BondsFromDistanceAsWritten | vermouth/processors/make_bonds.py:109-151 | the distance pass as written: it fails iff some row index below the number of eligible atoms is not a node with a position; otherwise nodes and attributes are untouched, bonds are only added, and each new bond joins two eligible atoms of the pool |
| Bonding.EligibleInMembers | vermouth/processors/make_bonds.py:109-116 | `idx_to_nodenum` lists exactly the graph's nodes that are in the pool and have a known radius |
| Bonding.AsWrittenAgrees | vermouth/processors/make_bonds.py:109-151 | when the eligible atoms are exactly the keys 0, 1, ... in graph order, the pass as written gives the same result as the intended one, failure included |
| Bonding.RowShiftBondsFarAtoms | vermouth/processors/make_bonds.py:119-151 | four carbons with keys 0 to 3 at x = 0, 0.1, `far` and `far` + 10 nm, pass over nodes 2 and 3 at fudge 1: as written it bonds 2 and 3, measuring nodes 0 and 1; the intended pass adds nothing |
| Bonding.RowShiftFails | vermouth/processors/make_bonds.py:119-122 | nodes 0 and 1 without element or position, carbons 2 and 3 0.1 nm apart, pass over the whole graph: as written it fails on row 0; the intended pass bonds 2 and 3 |
| Bonding.NamePassSpec | vermouth/processors/make_bonds.py:254-267 | the residue loop fails iff some residue's distance fallback fails; otherwise it adds every residue's bonds and collects every residue's non-edges, whatever the order of the residues |
| Bonding.NameStageSpec | vermouth/processors/make_bonds.py:250-267 | with the intended distance pass (see Findings), the loop over the residue dictionary fails only when distances are allowed and some atom of known radius has no position; otherwise it adds the residue bonds (none when names are disallowed) and returns the known non-edges |
| Bonding.NameLoopSpec | vermouth/processors/make_bonds.py:254-267 | the loop gives the same bonds and non-edges over any listing of all the residues |
| Bonding.MakeBonds | vermouth/processors/make_bonds.py:219-275 | nodes and attributes never change and bonds are only added; with the intended distance pass (see Findings), it fails exactly when distances are allowed and an atom of known radius has no position |
| Bonding.MakeBondsSpec | vermouth/processors/make_bonds.py:250-273 | the bonds added are exactly the inferred bonds: name bonds and fallback bonds when names are allowed, and the global distance bonds when distances are allowed |
| Bonding.MakeBondsWellFormed | vermouth/processors/make_bonds.py:219-275 | bond inference keeps a graph well formed |
| Bonding.MakeBondsIdempotent | vermouth/processors/make_bonds.py:219-275 | a second run on the result succeeds and adds nothing |
| Bonding.FallbackFailsGlobally | vermouth/processors/make_bonds.py:260-265 | a residue whose fallback fails has an atom that makes the global pass fail too |
| Bonding.ContributionInsideResidue | vermouth/processors/make_bonds.py:254-267 | every bond or non-edge a residue produces joins atoms of that residue |
| Bonding.NonEdgesAreNeverGuessed | vermouth/processors/make_bonds.py:268-273 | a known non-edge ends up bonded only when it was already a bond or is a name bond |
| Bonding.NonEdgeResidueBonds | vermouth/processors/make_bonds.py:259-264 | a known non-edge is a residue bond only as a name bond, never through a fallback |
| Bonding.DistancePairsAvoidNonEdges | vermouth/processors/make_bonds.py:142-143 | the distance criterion never proposes a pair passed as a non-edge |
| Bonding.CrossResidueBondsAreGlobal | vermouth/processors/make_bonds.py:268-273 | a bond between two residues was already there or comes from the global distance pass |
| Bonding.NamesOnly | vermouth/processors/make_bonds.py:259-265 | with distances disallowed, `make_bonds` never fails and adds exactly the name bonds |
| Bonding.NameEdgesWithoutFallback | vermouth/processors/make_bonds.py:263-264 | without the distance fallback, the residue bonds are exactly the name bonds |
| Bonding.DistancesOnly | vermouth/processors/make_bonds.py:255-256 | with names disallowed, only the global distance pass runs, with no known non-edge |
| Bonding.NothingAllowed | vermouth/processors/make_bonds.py:250-273 | with both kinds of inference disallowed, the graph is returned unchanged |
| Bonding.NoEligibleNoBonds | vermouth/processors/make_bonds.py:109-130 | a distance pass over atoms none of which has a known radius adds nothing |
| Bonding.BondLengthBounded | vermouth/processors/make_bonds.py:145 | the bond length of two known elements is positive and at most the largest radius |
| Bonding.SearchRadiusHarmless | vermouth/processors/make_bonds.py:117-146 | with a fudge factor of at least one, the search radius never drops a pair the bond criterion accepts |
| Bonding.SearchRadiusPrunes | vermouth/processors/make_bonds.py:117-128 | the search radius applies the fudge factor twice: two Se atoms 0.6 nm apart pass the bond criterion at fudge 0.5 but lie outside the search radius, so they are not bonded |
| Bonding.CarbonBoundary | vermouth/processors/make_bonds.py:146 | the criterion is inclusive: two carbons 0.170 nm apart are bonded, 0.171 nm apart are not |
| Bonding.PairDistance | vermouth/processors/make_bonds.py:125-151 | distance-only bonding of two atoms of one known element bonds them iff both the search radius and the bond criterion hold |
| Components.ComponentIsReachable | vermouth/processors/make_bonds.py:303-307 | the component of an atom is exactly the set of atoms a walk over bonds and shared residues reaches from it |
| Components.ClosureLeast | vermouth/processors/make_bonds.py:306 | the closure of a set is inside every closed set containing it |
| Components.SplitPartitions | vermouth/processors/make_bonds.py:303-310 | the components partition the atoms: none is empty, no two meet, every atom lies in one, and each is the component of each of its atoms |
| Components.SplitComponentsConnected | vermouth/processors/make_bonds.py:304-307 | atoms of one component are connected by a walk, and atoms linked to a component belong to it |
| Components.SplitKeepsLinksInside | vermouth/processors/make_bonds.py:304-307 | no bond joins two components and no residue is cut in two |
| Molecules.Subgraph | vermouth/processors/make_bonds.py:308 | the subgraph is well formed and keeps exactly the chosen atoms, with their attributes, and exactly the bonds between them |
| FuseSplit.FuseWellFormed | vermouth/processors/make_bonds.py:298 | the joined graph is well formed and its keys run from 0 in order |
| FuseSplit.FuseAtoms | vermouth/processors/make_bonds.py:291-298 | the `k`-th atom of molecule `i` in iteration order becomes atom `offset + k`, where `offset` counts the atoms of the earlier molecules; it keeps all its attributes and gets `mol_idx` `i` |
| FuseSplit.FuseOwner | vermouth/processors/make_bonds.py:291-298 | every joined atom carries the index of its molecule and is that molecule's atom at its place in the range |
| FuseSplit.FuseBond | vermouth/processors/make_bonds.py:298 | two atoms of one molecule are bonded in the joined graph iff they were bonded in the molecule |
| FuseSplit.NoResidueSpansMolecules | vermouth/processors/make_bonds.py:289-292 | two joined atoms that share a residue key come from the same input molecule |
| FuseSplit.RunSystem | vermouth/processors/make_bonds.py:284-310 | an empty system is left alone; every output molecule is well formed |
| FuseSplit.RunSystemFails | vermouth/processors/make_bonds.py:297-299 | with the intended distance pass (see Findings), running fails exactly when distances are allowed and an atom of known radius in some molecule has no position |
| FuseSplit.FuseUnlocated | vermouth/processors/make_bonds.py:298 | the joined graph has an atom of known radius without position iff some input molecule has one |
| FuseSplit.RunSystemIsCut | vermouth/processors/make_bonds.py:298-310 | a successful run is the cut of the joined graph after bonding |
| FuseSplit.CutPartitions | vermouth/processors/make_bonds.py:303-310 | the cut's parts partition the atoms: no part is empty, no two share an atom, and every atom is in one |
| FuseSplit.RunSystemPartitions | vermouth/processors/make_bonds.py:298-310 | the output molecules partition the atoms of the joined system |
| FuseSplit.RunSystemKeepsBondsAndResidues | vermouth/processors/make_bonds.py:303-310 | each output molecule holds whole residues and keeps every bond at its atoms, so no bond joins two outputs |
| FuseSplit.RunSystemConnected | vermouth/processors/make_bonds.py:303-310 | any two atoms of one output molecule are connected by bonds and shared residues |
| FuseSplit.RunSystemKeepsFusedBonds | vermouth/processors/make_bonds.py:298-310 | every bond of the joined graph, including each renumbered input bond, lies inside the output molecule holding its first atom |
| FuseSplit.FuseKeepsInputBond | vermouth/processors/make_bonds.py:298 | a bond of an input molecule is a bond of the joined graph between its renumbered atoms |
| ForceFields.Features | vermouth/forcefield.py:65-74 | the features are exactly those declared by some link; no link, no feature |
| ForceFields.HasFeature | vermouth/forcefield.py:76-89 | a feature is present iff some link declares it |
| ForceFields.ForceFieldFiles | vermouth/forcefield.py:141-148 | the `.rtp` files come first, then the `.ff` files, each in listing order |
| ForceFields.GlobbedEmpty | vermouth/forcefield.py:141-148 | a directory without matching entries yields no file |
| ForceFields.GlobbedDispatch | vermouth/forcefield.py:55-59 | every globbed file has the extension it was globbed for, so the dispatch finds that format's parser |
| ForceFields.DispatchNeverFails | vermouth/forcefield.py:55-59 | reading the globbed files of a directory never meets an extension without a parser |
| ForceFields.NewForceFieldName | vermouth/forcefield.py:39-46 | a force field read from an entry starts with no blocks under the entry's name (`os.path.basename`), and, with parsers that fill it in without renaming it, is still named after the entry once read |
| ForceFields.RegisterSpec | vermouth/forcefield.py:123-137 | one iteration adds a force-field directory under its name as a new force field read from it, or, when the name is already filed, stores the filed force field updated by `read_from` rather than a replacement; other entries and non-force-field directories leave the dictionary unchanged; an error names the entry's path or one of its files |
| ForceFields.RegisterAllKeys | vermouth/forcefield.py:123-138 | after the loop an entry is in the dictionary iff it was already there or is a force-field directory; other entries keep their value |
| ForceFields.RegisterAllValue | vermouth/forcefield.py:123-138 | after the loop, a force-field directory listed once holds a new force field read from it when its name was not filed, and the filed force field updated by `read_from` otherwise |
| ForceFields.RegisterOther | vermouth/forcefield.py:130-134 | one iteration leaves the entry of every other name as it was, present or absent |
| ForceFields.RegisterAllOther | vermouth/forcefield.py:123-138 | the loop leaves the entry of a name it does not list as it was, present or absent |
| ForceFields.RegisterAllErrorPath | vermouth/forcefield.py:130-137 | every failure of the loop names the path of an entry or of a file inside one |
| ForceFields.FindForceFieldsSpec | vermouth/forcefield.py:92-138 | an unlistable directory fails; otherwise the dictionary gains exactly the force-field directories, each holding a new force field read from it or the filed one updated in place by `read_from`, keeps every other entry, and a failure names an entry or one of its files |
| ForceFields.ReadFilesKeepsName | vermouth/forcefield.py:48-59 | reading files with parsers that fill in the force field without renaming it keeps its name |
| ForceFields.RegisterKeepsNames | vermouth/forcefield.py:130-134 | with such parsers, one iteration keeps a dictionary whose force fields are named after their keys |
| ForceFields.FindForceFieldsNamed | vermouth/forcefield.py:92-138 | with such parsers and entry names as a listing gives them, `find_force_fields` keeps every force field named after its key: new ones after their directory, updated ones keep their name |
| GoVs.MaxOf | vermouth/processors/go_vs_includes.py:122 | the largest key is one of the keys and at least every other |
| GoVs.MaxChargeGroupIsMax | vermouth/processors/go_vs_includes.py:123-124 | there is no largest charge group iff no atom has one; otherwise it is some atom's charge group and at least every other |
| GoVs.Backbone | vermouth/processors/go_vs_includes.py:125-126 | the backbone beads are the atoms named like the backbone, in iteration order |
| GoVs.SiteAtomSpec | vermouth/processors/go_vs_includes.py:129-138 | a site is refused iff its bead lacks resid, resname, chain or position; otherwise it copies those, has bead type `<prefix>_<resid>`, the given name and charge, and its own charge group |
| GoVs.SiteAtomsSpec | vermouth/processors/go_vs_includes.py:125-143 | the loop fails iff some bead lacks an attribute; otherwise the `i`-th site is that of the `i`-th bead in charge group `cg + 1 + i` |
| GoVs.SiteAtomsFails | vermouth/processors/go_vs_includes.py:125-138 | the loop fails iff some bead lacks an attribute the site copies |
| GoVs.SiteLinkAt | vermouth/processors/go_vs_includes.py:139-143 | the `k`-th `virtual_sitesn` entry links the `k`-th new site to the `k`-th bead, with parameter `1` and the Go meta |
| GoVs.BeadSites | vermouth/processors/go_vs_includes.py:122-143 | a successful loop makes one site per backbone bead |
| GoVs.AddVirtualSitesEmpty | vermouth/processors/go_vs_includes.py:118-119 | a molecule without atoms is returned unchanged |
| GoVs.AddVirtualSitesFails | vermouth/processors/go_vs_includes.py:125-138 | adding sites fails iff some backbone bead lacks resid, resname, chain or position |
| GoVs.AddVirtualSitesShape | vermouth/processors/go_vs_includes.py:120-147 | on a molecule with atoms, the result adds the sites of the backbone beads under keys after the largest key |
| GoVs.AddVirtualSitesKeeps | vermouth/processors/go_vs_includes.py:144-147 | the existing atoms, bonds, other interaction lists and metadata are kept; the new atoms and `virtual_sitesn` links come after the old ones |
| GoVs.WithSitesWellFormed | vermouth/processors/go_vs_includes.py:144 | adding the sites above every key gives a well-formed graph with one more node per site |
| GoVs.WithSitesNumbering | vermouth/processors/go_vs_includes.py:127-143 | the `k`-th site goes under the free key `first + k`, and the `k`-th new link joins it to the `k`-th bead |
| GoVs.AddVirtualSitesGrowth | vermouth/processors/go_vs_includes.py:125-144 | the molecule grows by exactly one atom per backbone bead |
| GoVs.AddVirtualSitesKeepsCount | vermouth/processors/go_vs_includes.py:145-147 | the `virtual_sitesn` list grows by exactly one entry per backbone bead |
| GoVs.BackboneStable | vermouth/processors/go_vs_includes.py:125-136 | sites are named apart from the backbone, so a second run finds the same beads and adds a second set of sites |
| GoVs.SiteTypeInjective | vermouth/processors/go_vs_includes.py:132 | the sites of two beads share a bead type iff the beads share a residue id |
| GoVs.RunMolecule | vermouth/processors/go_vs_includes.py:70-73 | a molecule without a type name, or with an empty one, is a `ValueError` |
| GoVs.AddIncludesSpec | vermouth/processors/go_vs_includes.py:77-83 | each listed section gains one include line per listing, after its existing lines; unlisted sections keep theirs |
| GoVs.RunMoleculeSpec | vermouth/processors/go_vs_includes.py:70-84 | fails iff the type name is missing or empty or adding the default sites fails; otherwise it adds the default sites and the include lines |
| GoVs.IncludesAccumulate | vermouth/processors/go_vs_includes.py:77-83 | running twice puts two include lines per listing after a section |
| Mapping.Refs | entry_api.py:71 | each destination name becomes the reference `(0, name)`, in order |
| Mapping.BlankSkipped | entry_api.py:60-62 | blank and comment-only lines change nothing |
| Mapping.HeaderLines | entry_api.py:63-66 | a line opening with `[` without a closing `]` is an error citing its number; with one, it switches section |
| Mapping.StepError | entry_api.py:59-71 | a line fails exactly as the reference `LineError` says, given the section it is read in |
| Mapping.ScanErrors | entry_api.py:59-71 | reading fails iff some line raises, with the error of the first such line |
| Mapping.ScanName | entry_api.py:67-68 | the name is the last line read in the `molecule` section |
| Mapping.ScanAtoms | entry_api.py:69-71 | each atom maps as its last `atoms` line says, and atoms without such a line are unmapped |
| Mapping.ReadLinesSpec | entry_api.py:54-73 | fails with the first line error, or when no line was read in `molecule`; otherwise the name is the last such line, the lists are `universal` and `martini22`, and each atom maps as its last `atoms` line says |
| Mapping.AddFragmentSpec | entry_api.py:104-108 | filing a fragment stores its mapping under each origin, destination and its name, creating the levels it needs, and leaves every other entry alone |
| Mapping.CollectSpec | entry_api.py:102-109 | the loop fails with the first failure; otherwise every entry is the mapping of the last fragment filed under it |
| Mapping.ReadMappingDirectorySpec | entry_api.py:76-109 | reading a directory fails iff a file fails, with the first failing file's error; otherwise the last file with a name provides its mapping from `universal` to `martini22`, and nothing else is filed |
| Topology.FirstShared | entry_api.py:169-172 | the first type from `k` on whose representative shares its molecule type, or none |
| Topology.Group | entry_api.py:167-174 | the loop gives every molecule a type, and every representative is one of the molecules seen |
| Topology.GroupDeduplicates | entry_api.py:167-174 | the loop computes a deduplication: each type's representative is the first molecule of the type, and each molecule joins the first type it shares with |
| Topology.DeduplicatesUnique | entry_api.py:167-174 | a deduplication is exactly what the loop computes |
| Topology.RepresentativesDiffer | entry_api.py:167-174 | no representative shares its type with an earlier representative, so each type is written once |
| Topology.RunsExpand | entry_api.py:206-212 | expanding the runs gives back the names |
| Topology.ExpandRuns | entry_api.py:206-212 | grouping the names of canonical runs gives back the runs |
| Topology.RunsCanonical | entry_api.py:206-207 | the runs are canonical: positive counts, no two neighbours with the same name |
| Topology.RunsSpec | entry_api.py:206-212 | the runs round-trip to the names, are canonical and start with the first name |
| Topology.ExpandLength | entry_api.py:210 | the counts of the runs add up to the number of names |
| Topology.TypeNameInjective | entry_api.py:177-178 | different types get different names and files |
| Topology.MaxLength | entry_api.py:190-191 | the width is at least every name's length and, for a nonempty list, is some name's length |
| Topology.WidestName | entry_api.py:190-191 | the widest type name is that of the last type |
| Topology.ListingLineFormat | entry_api.py:209-210 | a listing line holds the name padded to the width, four spaces, then the count, which reads back |
| Topology.WriteGmxTopology | entry_api.py:162-164 | it fails iff the system has no molecule |
| Topology.WriteGmxTopologySpec | entry_api.py:165-188 | one file per type, `molecule_t.itp`, from its representative renamed `molecule_t`; representatives are renamed in the system and every other molecule is left alone |
| Topology.TopologyFileSpec | entry_api.py:185-220 | the file includes `martini.itp` and every type in order, then lists the molecules' type names as canonical runs, in system order, padded to the width of the last type's name |
| GroRead.LayoutColumns | vermouth/gmx/gro.py:29-56 | the four five-column fields first, then, for a positive precision, one slice of that width per coordinate and velocity from column 20; a precision that is not positive leaves only the four fields |
| GroRead.SpanOfWidth | vermouth/gmx/gro.py:51-56 | a positive width gets the slice numbered by the positive widths before it, starting after the columns all earlier widths take or skip |
| GroRead.SpansCount | vermouth/gmx/gro.py:53-55 | there is one slice per positive width |
| GroRead.PrecisionFromDots | vermouth/gmx/gro.py:40-43 | the precision is the distance from the first dot at or after column 25 to the next dot |
| GroRead.PrecisionNoDot | vermouth/gmx/gro.py:41-43 | a line without a dot has precision 0, so no coordinate fields |
| GroRead.PrecisionEarlyDot | vermouth/gmx/gro.py:41-43 | without a dot from column 25 on, the precision is one more than the column of the line's first dot |
| GroRead.Kinds | vermouth/gmx/gro.py:29-49 | resid and atomid are integers, resname and atomname strings, and the remaining fields reals |
| GroRead.FieldCountSpec | vermouth/gmx/gro.py:69 | a line has its four text and integer fields, plus the coordinates and velocities only with a positive precision |
| GroRead.ParseFields | vermouth/gmx/gro.py:68-70 | a line parses iff every field converts; the values are the converted fields, each of its kind |
| GroRead.UnparsedLine | vermouth/gmx/gro.py:71-74 | a line that does not parse ends reading when its index is the atom count (the box line), and is an error otherwise |
| GroRead.FirstAlphaSpec | vermouth/gmx/gro.py:76 | `first_alpha` fails (`ValueError`) iff the atom name has no letter, and otherwise gives the letter at the first position holding one |
| GroRead.SkipRule | vermouth/gmx/gro.py:76-79 | a parsed record whose atom name has no letter fails, whether or not it would be skipped; any other is skipped iff its residue name is excluded, or hydrogens are ignored and the first letter of its atom name (`first_alpha`) is H |
| GroRead.KeepFacts | vermouth/gmx/gro.py:76-88 | a kept record has an empty chain, the element of its atom name, an unexcluded residue name, no hydrogen under `ignh`, a position, and a velocity iff the layout has velocities |
| GroRead.LoopSpec | vermouth/gmx/gro.py:60-89 | the loop fails iff the first line that ends it is a failure; otherwise it holds the atoms kept before that line, or before the end |
| GroRead.FirstEnd | vermouth/gmx/gro.py:60-74 | the first line that ends the loop, if any, and no earlier line ends it |
| GroRead.KeptSource | vermouth/gmx/gro.py:88-89 | the `i`-th kept atom comes from a line with exactly `i` atoms kept before it, so atoms keep file order |
| GroRead.MoleculeOfSpec | vermouth/gmx/gro.py:88-90 | the molecule numbers the kept atoms 0, 1, ... in order, with no bonds |
| GroRead.ReadGroSpec | vermouth/gmx/gro.py:26-90 | a file without title, count and first atom line, or with a count that is not an integer, fails; otherwise reading fails iff the first line ending it fails, and else returns the atoms kept before it |
| GroRead.ReadGroAtoms | vermouth/gmx/gro.py:76-88 | every node read has an empty chain, an unexcluded residue name, no hydrogen under `ignh`, a position, and a velocity iff the first atom line has six dots |
| GroRead.StopsAtBox | vermouth/gmx/gro.py:71-74 | nothing after the box line is read |
| GroWrite.HasVelocitiesSpec | vermouth/gmx/gro.py:104 | velocities are written iff every molecule's first node has one; an empty molecule is an error only when no earlier molecule lacks a velocity |
| GroWrite.KeyOf | vermouth/gmx/gro.py:94-96 | a node has a sort key iff it has chain, resid and resname, and the key holds those values |
| GroWrite.KeyLessTransitive | vermouth/gmx/gro.py:114 | the key order (chain, then resid, then resname) is transitive |
| GroWrite.KeyLessTotal | vermouth/gmx/gro.py:114 | any two different keys are ordered one way or the other |
| GroWrite.SortSpec | vermouth/gmx/gro.py:114 | the sort orders by key, keeps every item, and is stable |
| GroWrite.ItemsSpec | vermouth/gmx/gro.py:114 | computing the keys fails iff some node lacks a key attribute, naming the first such node |
| GroWrite.Tenth | vermouth/gmx/gro.py:125 | velocities are divided by ten, from Å/ps to nm/ps |
| GroWrite.LineOf | vermouth/gmx/gro.py:116-126 | a line exists iff the node has atomname, resname, resid, position and, when needed, velocity; it carries those values and the atom number |
| GroWrite.MoleculeLinesOk | vermouth/gmx/gro.py:113-128 | a molecule is written iff all its nodes are writable |
| GroWrite.MoleculeLineAt | vermouth/gmx/gro.py:114-128 | line `j` of a molecule is the line of its `j`-th node in sorted order |
| GroWrite.SystemLinesOk | vermouth/gmx/gro.py:113-128 | the molecules are written iff each is writable; otherwise the error names the first one that is not |
| GroWrite.SystemNumbered | vermouth/gmx/gro.py:112-127 | atom numbers run from 1 through the whole file |
| GroWrite.WriteGroSpec | vermouth/gmx/gro.py:93-131 | writing succeeds iff the velocity check does and every molecule is writable; the title is `Martinized!`, the count is the number of atom lines, and they are numbered from 1 |
| GroWrite.WriteGroLine | vermouth/gmx/gro.py:112-128 | in a written file, node `j` of molecule `m` in sorted order is on the line after the atoms of the earlier molecules, numbered accordingly |

## Left out

- Logging, and the `distance` attribute set on each new bond: the bond set does not record distances.
- The KD-tree query is modelled as a test of every pair. Distances come from a metric parameter, so no floating-point geometry is modelled. Numbers are reals.
- Positions and velocities are reals. Floating-point rounding, the NaN default position in `_bonds_from_names` and numpy arrays are not modelled.
- `make_bonds` reads the force field from a free name. Here it is a parameter.
- `MakeBonds.run_system` with `nproc > 1` is left out: that path runs the processor per molecule, and the parallel runner is not part of this model.
- The serial `MakeBonds.run_system` follows what the code evidently intends:
  - join the molecules (`disjoint_union_all`);
  - bond once;
  - cut the result into the components of the residue graph and store them as the system's molecules.
  As written, the code rebinds `system` to the joined graph, so the new molecule list is stored on that local graph.
- Restoring the force field at the end of `run_system` is left out: the model has no system-level force field.
- Component order: networkx's iteration order for `connected_components` is modelled as the order of each component's first atom in the joined graph.
- Molecules keep `moltype`, interactions and post-section lines only. Other metadata is not modelled.
- Files and directories are values:
  - `FileSystem` maps a directory to its listing;
  - a file is its list of lines;
  - a directory of mapping files is the list of its files in glob order.
  So `os.listdir`, `glob` and the recursive `**/*.map` pattern are not modelled.
- The `.rtp` and `.ff` parsers are a `Parser` parameter. Their formats are not part of this model.
- ForceFields.NewForceFieldName: in Python a parser fills in the object it is given, and the force-field readers do not assign its `name`. A `Parser` value returns a force field, and nothing in its type stops it from renaming it. The name is therefore promised only for parsers that keep it (`KeepsName`), and the same holds for RegisterKeepsNames and FindForceFieldsNamed.
- ForceFields.FindForceFieldsSpec: the stored value is stated for entries listed once, as `os.listdir` lists them. A model listing that repeats a name reads that directory again into the same force field, and no contract describes that.
- The conversions `int()` and `float()`, and the letter test `str.isalpha`, are parameters of the `.gro` reader. `first_alpha` is modelled on top of the letter test.
- `write_molecule_itp` and all text formatting are left out:
  - `TruncFormatter` widths, the float precision argument and the box line of `.gro` files;
  - the dedent of the topology template.
  An `.itp` file is the molecule written into it. A `.gro` file is a title, a count and one record per atom. The topology file is its list of lines.
- `write_gmx_topology` keys `molecule_to_type` by molecule identity. The model keys it by position in the system. The molecule-type test `share_moltype_with` is a `Share` parameter.
- `write_gro` writes line by line. Before it raises `KeyError`, the file already holds the title, the count and the atom line of every node written before the failing one. The model returns only the error.
- A molecule without nodes ends the velocity check of `write_gro` with a `RuntimeError`: the `StopIteration` of `next()` is raised inside a generator, and PEP 479 converts it. The model returns the `EmptyMolecule` error for it.
- ForceFields.FindForceFields: `find_force_fields` registers directories in place, so when a later directory fails to read, the dictionary it was given already holds the force fields registered before. The model returns only the error, and the caller's map is a value it does not change.
- Bonding.MakeBonds: `make_bonds` adds edges to the molecule in place. When a later `_bonds_from_distance` raises `KeyError` for an atom without a position, the name bonds of earlier residues are already in the molecule. The model returns only the error.
- Bonding.BondsFromNames: blocks are assumed to name every atom, as the force-field readers do. In the source, a block atom without `atomname` raises `KeyError` part-way through adding the name bonds. The residue then falls back to distance bonds, keeping the name bonds added so far. The model ignores block bonds and non-bonds at unnamed atoms instead: the order in which the source adds them is not modelled.
- Bonding.BondsFromDistance: states the intended distance pass, which measures each eligible atom at its own position. The code as written reads row `i` from the node whose key is `i` (see Findings), so for graphs whose eligible atoms are not the keys 0, 1, ... in order, this contract describes the intended pass and not the code's result.
- Bonding.DistancePairsExact: characterises the pairs of the intended distance pass, not the row pairs the code measures (see Findings).
- Bonding.NamePassSpec: the residue fallback is the intended distance pass (see Findings), so the failure condition and the fallback bonds are those of the intended pass.
- Bonding.NameStageSpec: built on the intended distance pass (see Findings); the failure condition is that of the intended pass.
- Bonding.MakeBonds: both distance passes are the intended one (see Findings); the failure condition and the distance bonds are those of the intended pass.
- Bonding.MakeBondsSpec: the fallback and global distance bonds are those of the intended pass (see Findings).
- Bonding.DistancesOnly: the global pass is the intended distance pass (see Findings).
- FuseSplit.RunSystemFails: the joined graph has keys 0, 1, ... in order, so the code's pass agrees with the intended one when every atom has a known radius (Bonding.AsWrittenAgrees); with atoms of unknown radius the failure condition stated is that of the intended pass (see Findings).
- Sort keys in `write_gro` are compared as (string, integer, string). Python's errors on keys of mixed types are not modelled.
- `System.num_particles` is modelled as the number of atoms of the molecules written.
- The `add_virtual_sites` docstring names the generated include files `VirtGoSite`. The code writes `VirtGoSites`, and the model follows the code.
- The site's position copies the backbone bead's position. It is a shared reference in Python and a copied value in the model.
- `read_mapping` reads in a `context` or returns a `name` that may never have been assigned. The Python error is an unbound-variable error; the model reports `NoSection` and `NoName`.
- The `ForceField` fields `modifications`, `renamed_residues` and `variables` are not modelled. Only the links' features and the blocks' atom names and bonds are.

## Findings

| source | as written | input that shows it | evidently intended | confidence | as-written member | corrected member |
|---|---|---|---|---|---|---|
| vermouth/processors/make_bonds.py:119-122 | the position array is built by iterating over `idx_to_nodenum`, which yields its keys 0, 1, ...; row `i` is the position of the node whose key is `i`, while the bonds, radii and non-edges use the node `idx_to_nodenum[i]` | four carbons with keys 0 to 3 at x = 0, 0.1, 5 and 15 nm, a residue fallback over nodes 2 and 3 at fudge 1: the rows measured are nodes 0 and 1, 0.1 nm apart, and nodes 2 and 3, 10 nm apart, get bonded; with nodes 0 and 1 carrying no element and no position, a pass over the whole graph raises `KeyError` although every eligible atom has a position | row `i` holds the position of `idx_to_nodenum[i]`, as the comment at lines 103-108 says | not executed | Bonding.BondsFromDistanceAsWritten, Bonding.RowShiftBondsFarAtoms, Bonding.RowShiftFails | Bonding.BondsFromDistance, Bonding.DistancePairsExact |
