/** The molecular graph model: atoms are nodes with a typed attribute record,
    bonds are undirected edges, and a molecule carries the interaction lists
    and metadata that processors read and extend. */
module Molecules {
  import opened Outcome

  /** Node keys. The readers and the disjoint union number nodes with
      integers, and processors add fresh ones after the largest. */
  type NodeId = nat

  datatype Vec3 = Vec3(x: real, y: real, z: real)

  /** The attributes the modelled code reads or writes. A `None` field is an
      attribute the node does not have: `node.get(attr)` gives `None`, and
      `node[attr]` raises `KeyError`. */
  datatype Atom = Atom(
    element: Option<string>,
    atomname: Option<string>,
    resname: Option<string>,
    resid: Option<int>,
    chain: Option<string>,
    molIdx: Option<nat>,
    position: Option<Vec3>,
    velocity: Option<Vec3>,
    atomid: Option<int>,
    charge: Option<real>,
    chargeGroup: Option<int>,
    atype: Option<string>)

  /** An atom with no attribute at all. */
  const Bare: Atom := Atom(None, None, None, None, None, None, None, None, None, None, None, None)

  /** An undirected edge, stored with its smaller end first. */
  datatype Edge = Edge(lo: NodeId, hi: NodeId)

  /** The edge between `u` and `v`, whichever way round they are given. */
  function Bond(u: NodeId, v: NodeId): (e: Edge)
    ensures e.lo <= e.hi
    ensures (e.lo == u && e.hi == v) || (e.lo == v && e.hi == u)
  {
    if u <= v then Edge(u, v) else Edge(v, u)
  }

  lemma {:induction false} BondSymmetric(u: NodeId, v: NodeId)
    ensures Bond(u, v) == Bond(v, u)
  {
  }

  /** Two different pairs of nodes never name the same edge. */
  lemma {:induction false} BondInjective(u: NodeId, v: NodeId, x: NodeId, y: NodeId)
    requires Bond(u, v) == Bond(x, y)
    ensures (u == x && v == y) || (u == y && v == x)
  {
  }

  /** A graph: `order` lists the node keys in insertion order (the order in
      which iterating over the graph visits them), `atoms` holds the node
      attributes and `edges` the bonds. */
  datatype Graph = Graph(order: seq<NodeId>, atoms: map<NodeId, Atom>, edges: set<Edge>)

  predicate Distinct<T(==)>(s: seq<T>) {
    forall i, j :: 0 <= i < j < |s| ==> s[i] != s[j]
  }

  /** The invariant every graph of the source satisfies: node keys are unique,
      the iteration order visits exactly the nodes, and edges join nodes
      (stored with their smaller end first). */
  predicate WellFormed(g: Graph) {
    && Distinct(g.order)
    && (forall n | n in g.atoms :: n in g.order)
    && (forall i | 0 <= i < |g.order| :: g.order[i] in g.atoms)
    && (forall e | e in g.edges :: e.lo in g.atoms && e.hi in g.atoms && e.lo <= e.hi)
  }

  const EmptyGraph: Graph := Graph([], map[], {})

  /** The elements of `s` that belong to `keep`, in their order in `s`. */
  function Select(s: seq<NodeId>, keep: set<NodeId>): seq<NodeId> {
    if s == [] then []
    else (if s[0] in keep then [s[0]] else []) + Select(s[1..], keep)
  }

  lemma {:induction false} SelectSpec(s: seq<NodeId>, keep: set<NodeId>)
    ensures forall n :: n in Select(s, keep) <==> n in s && n in keep
    ensures Distinct(s) ==> Distinct(Select(s, keep))
    ensures |Select(s, keep)| <= |s|
  {
    if s != [] {
      SelectSpec(s[1..], keep);
      var rest := Select(s[1..], keep);
      var head: seq<NodeId> := if s[0] in keep then [s[0]] else [];
      assert forall n :: n in s <==> n == s[0] || n in s[1..];
      if Distinct(s) {
        assert Distinct(s[1..]) by {
          forall i, j | 0 <= i < j < |s[1..]| ensures s[1..][i] != s[1..][j] {
            assert s[1..][i] == s[i + 1] && s[1..][j] == s[j + 1];
          }
        }
        assert s[0] !in s[1..];
        assert forall i | 0 <= i < |head + rest| :: (head + rest)[i] == if i < |head| then head[i] else rest[i - |head|];
      }
    }
  }

  /** Filtering a sequence by a set, as the comprehension
      `[n for n in s if n in keep]` does. */
  function FilterIn(s: seq<NodeId>, keep: set<NodeId>): (r: seq<NodeId>)
    ensures forall n :: n in r <==> n in s && n in keep
    ensures |r| <= |s|
  {
    SelectSpec(s, keep);
    Select(s, keep)
  }

  /** Filtering keeps the elements of a sequence apart. */
  lemma {:induction false} FilterInDistinct(s: seq<NodeId>, keep: set<NodeId>)
    requires Distinct(s)
    ensures Distinct(FilterIn(s, keep))
  {
    SelectSpec(s, keep);
  }

  lemma {:induction false} SelectAppend(s: seq<NodeId>, t: seq<NodeId>, keep: set<NodeId>)
    ensures Select(s + t, keep) == Select(s, keep) + Select(t, keep)
    decreases |s|
  {
    if s == [] {
      assert s + t == t;
    } else {
      assert (s + t)[0] == s[0] && (s + t)[1..] == s[1..] + t;
      SelectAppend(s[1..], t, keep);
      var head: seq<NodeId> := if s[0] in keep then [s[0]] else [];
      assert head + (Select(s[1..], keep) + Select(t, keep)) == (head + Select(s[1..], keep)) + Select(t, keep);
    }
  }

  /** Filtering distributes over concatenation. */
  lemma {:induction false} FilterInAppend(s: seq<NodeId>, t: seq<NodeId>, keep: set<NodeId>)
    ensures FilterIn(s + t, keep) == FilterIn(s, keep) + FilterIn(t, keep)
  {
    SelectAppend(s, t, keep);
  }

  lemma {:induction false} SelectNone(s: seq<NodeId>, keep: set<NodeId>)
    requires forall i | 0 <= i < |s| :: s[i] !in keep
    ensures Select(s, keep) == []
  {
    if s != [] {
      SelectNone(s[1..], keep);
    }
  }

  /** Nothing of `s` is kept when no element belongs to `keep`. */
  lemma {:induction false} FilterInNone(s: seq<NodeId>, keep: set<NodeId>)
    requires forall i | 0 <= i < |s| :: s[i] !in keep
    ensures FilterIn(s, keep) == []
  {
    SelectNone(s, keep);
  }

  /** `graph.subgraph(nodes)`: the nodes in `keep` with their attributes, the
      edges between them, and the parent's iteration order. */
  function Subgraph(g: Graph, keep: set<NodeId>): (r: Graph)
    requires WellFormed(g)
    ensures WellFormed(r)
    ensures r.atoms.Keys == g.atoms.Keys * keep
    ensures forall n | n in r.atoms :: r.atoms[n] == g.atoms[n]
    ensures forall e :: e in r.edges <==> e in g.edges && e.lo in keep && e.hi in keep
  {
    var order := FilterIn(g.order, keep);
    FilterInDistinct(g.order, keep);
    var r := Graph(order,
                   map n | n in g.atoms && n in keep :: g.atoms[n],
                   set e | e in g.edges && e.lo in keep && e.hi in keep);
    assert forall i | 0 <= i < |order| :: order[i] in r.atoms by {
      forall i | 0 <= i < |order| ensures order[i] in r.atoms {
        assert order[i] in order;
      }
    }
    r
  }

  /** A value stored in an interaction's metadata. */
  datatype MetaValue = Flag(b: bool) | Text(s: string)

  /** One entry of an interaction list: the ordered atoms it involves, its
      parameters and its metadata. */
  datatype Interaction = Interaction(atoms: seq<NodeId>, parameters: seq<string>, meta: map<string, MetaValue>)

  /** A molecule: its graph, its interaction lists keyed by kind, and the two
      metadata entries the modelled processors use — the molecule type name
      (`meta['moltype']`) and the extra lines written after each section of
      its topology (`meta['post_section_lines']`, an empty map when absent). */
  datatype Molecule = Molecule(
    graph: Graph,
    interactions: map<string, seq<Interaction>>,
    moltype: Option<string>,
    postSectionLines: map<string, seq<string>>)
}
