/** Connected components of a molecular graph in which the atoms of one
    residue count as connected. These are the connected components of the
    residue graph (one node per residue, an edge wherever two residues are
    bonded) expanded back to atoms: a walk in the residue graph is a walk of
    atoms that may also step between two atoms of the same residue. */
module Components {
  import opened Molecules
  import opened Bonding

  /** `u` and `v` are atoms of `g` that are bonded or share a residue. */
  predicate Linked(g: Graph, u: NodeId, v: NodeId) {
    u in g.atoms && v in g.atoms && (Bond(u, v) in g.edges || KeyOf(g.atoms[u]) == KeyOf(g.atoms[v]))
  }

  lemma {:induction false} LinkedSymmetric(g: Graph, u: NodeId, v: NodeId)
    ensures Linked(g, u, v) <==> Linked(g, v, u)
  {
    BondSymmetric(u, v);
  }

  /** No link leaves `s`. */
  predicate Closed(g: Graph, s: set<NodeId>) {
    forall u, v | u in s && v in g.atoms && Linked(g, u, v) :: v in s
  }

  /** `s` with every atom linked to one of its atoms. */
  function Expand(g: Graph, s: set<NodeId>): (r: set<NodeId>)
    ensures s <= r
    ensures forall v :: v in r <==> v in s || exists u | u in s :: Linked(g, u, v)
  {
    s + (set u, v | u in s && v in g.atoms && Linked(g, u, v) :: v)
  }

  /** Growing `s` inside `a` shrinks what is left of `a`. */
  lemma {:induction false} Shrinks(a: set<NodeId>, s: set<NodeId>, s': set<NodeId>)
    requires s <= s' <= a && s' != s
    ensures |a - s'| < |a - s|
  {
    var x :| x in s' && x !in s;
    assert a - s == (a - s') + (s' - s);
    assert (a - s') * (s' - s) == {};
    assert x in s' - s;
  }

  /** A set that expansion does not grow is closed. */
  lemma {:induction false} FixpointClosed(g: Graph, s: set<NodeId>)
    requires Expand(g, s) == s
    ensures Closed(g, s)
  {
    forall u, v | u in s && v in g.atoms && Linked(g, u, v) ensures v in s {
      assert v in Expand(g, s);
    }
  }

  /** Expanding a set of atoms stays among the atoms. */
  lemma {:induction false} ExpandAtoms(g: Graph, s: set<NodeId>)
    requires s <= g.atoms.Keys
    ensures Expand(g, s) <= g.atoms.Keys
  {
  }

  /** The smallest closed set containing `s`: expand until nothing changes. */
  function Closure(g: Graph, s: set<NodeId>): (r: set<NodeId>)
    requires s <= g.atoms.Keys
    ensures s <= r <= g.atoms.Keys
    ensures Closed(g, r)
    decreases |g.atoms.Keys - s|
  {
    var s' := Expand(g, s);
    ExpandAtoms(g, s);
    if s' == s then FixpointClosed(g, s); s
    else
      Shrinks(g.atoms.Keys, s, s');
      Closure(g, s')
  }

  /** The closure lies inside every closed set containing `s`. */
  lemma {:induction false} ClosureLeast(g: Graph, s: set<NodeId>, t: set<NodeId>)
    requires s <= g.atoms.Keys
    requires s <= t && Closed(g, t)
    ensures Closure(g, s) <= t
    decreases |g.atoms.Keys - s|
  {
    var s' := Expand(g, s);
    ExpandAtoms(g, s);
    assert s' <= t;
    if s' != s {
      Shrinks(g.atoms.Keys, s, s');
      ClosureLeast(g, s', t);
    }
  }

  /** Outside a closed set is closed too, since links go both ways. */
  lemma {:induction false} ComplementClosed(g: Graph, t: set<NodeId>)
    requires Closed(g, t)
    ensures Closed(g, g.atoms.Keys - t)
  {
    forall u, v | u in g.atoms.Keys - t && Linked(g, u, v) ensures v in g.atoms.Keys - t {
      LinkedSymmetric(g, u, v);
    }
  }

  /** The component of atom `n`. */
  function Component(g: Graph, n: NodeId): set<NodeId>
    requires n in g.atoms
  {
    Closure(g, {n})
  }

  /** A sequence of atoms, each linked to the next. */
  ghost predicate IsWalk(g: Graph, p: seq<NodeId>) {
    && |p| > 0
    && (forall i | 0 <= i < |p| :: p[i] in g.atoms)
    && (forall i | 0 <= i < |p| - 1 :: Linked(g, p[i], p[i + 1]))
  }

  /** A walk leads from `u` to `v`. */
  ghost predicate Reaches(g: Graph, u: NodeId, v: NodeId) {
    exists p :: IsWalk(g, p) && p[0] == u && p[|p| - 1] == v
  }

  /** A walk that starts in a closed set never leaves it. */
  lemma {:induction false} WalkStaysInside(g: Graph, p: seq<NodeId>, t: set<NodeId>, i: nat)
    requires IsWalk(g, p) && p[0] in t && Closed(g, t)
    requires i < |p|
    ensures p[i] in t
  {
    if i > 0 {
      WalkStaysInside(g, p, t, i - 1);
      assert Linked(g, p[i - 1], p[i]);
    }
  }

  /** The component of `n` is exactly the set of atoms a walk from `n`
      reaches: it is connected, and nothing connected to it is left out. */
  lemma {:induction false} ComponentIsReachable(g: Graph, n: NodeId, v: NodeId)
    requires n in g.atoms
    ensures v in Component(g, n) <==> Reaches(g, n, v)
  {
    var reached := set x | x in g.atoms && Reaches(g, n, x);
    assert IsWalk(g, [n]);
    assert n in reached;
    forall x, y | x in reached && Linked(g, x, y) ensures y in reached {
      var p :| IsWalk(g, p) && p[0] == n && p[|p| - 1] == x;
      assert IsWalk(g, p + [y]);
    }
    ClosureLeast(g, {n}, reached);
    if Reaches(g, n, v) {
      var p :| IsWalk(g, p) && p[0] == n && p[|p| - 1] == v;
      WalkStaysInside(g, p, Component(g, n), |p| - 1);
    }
  }

  /** Every atom of a component generates that same component. */
  lemma {:induction false} ComponentOfMember(g: Graph, n: NodeId, v: NodeId)
    requires n in g.atoms && v in Component(g, n)
    ensures Component(g, v) == Component(g, n)
  {
    ClosureLeast(g, {v}, Component(g, n));
    if n !in Component(g, v) {
      ComplementClosed(g, Component(g, v));
      ClosureLeast(g, {n}, g.atoms.Keys - Component(g, v));
      assert false;
    }
    ClosureLeast(g, {n}, Component(g, v));
  }

  /** A component meeting a closed set lies inside it. */
  lemma {:induction false} ComponentMeetsClosed(g: Graph, n: NodeId, t: set<NodeId>, x: NodeId)
    requires n in g.atoms && Closed(g, t)
    requires x in Component(g, n) && x in t
    ensures Component(g, n) <= t
  {
    ComponentOfMember(g, n, x);
    ClosureLeast(g, {x}, t);
  }

  /** The components met along `rest`, skipping atoms already covered by
      `seen`, in order of their first atom in `rest`. */
  function SplitFrom(g: Graph, rest: seq<NodeId>, seen: set<NodeId>): seq<set<NodeId>>
    requires forall i | 0 <= i < |rest| :: rest[i] in g.atoms
    decreases |rest|
  {
    if rest == [] then []
    else if rest[0] in seen then SplitFrom(g, rest[1..], seen)
    else
      var c := Component(g, rest[0]);
      [c] + SplitFrom(g, rest[1..], seen + c)
  }

  lemma {:induction false} UnionClosed(g: Graph, a: set<NodeId>, b: set<NodeId>)
    requires Closed(g, a) && Closed(g, b)
    ensures Closed(g, a + b)
  {
  }

  /** Every block of `parts` is a nonempty set of atoms of `g` and the
      component of each of its atoms. */
  predicate ComponentBlocks(g: Graph, parts: seq<set<NodeId>>) {
    forall i | 0 <= i < |parts| ::
      && parts[i] != {} && parts[i] <= g.atoms.Keys
      && (forall n | n in parts[i] :: Component(g, n) == parts[i])
  }

  lemma {:induction false} ComponentBlocksCons(g: Graph, n: NodeId, tail: seq<set<NodeId>>)
    requires n in g.atoms && ComponentBlocks(g, tail)
    ensures ComponentBlocks(g, [Component(g, n)] + tail)
  {
    var c := Component(g, n);
    var r := [c] + tail;
    forall i | 0 <= i < |r|
      ensures r[i] != {} && r[i] <= g.atoms.Keys && (forall m | m in r[i] :: Component(g, m) == r[i])
    {
      if i == 0 {
        forall m | m in c ensures Component(g, m) == c {
          ComponentOfMember(g, n, m);
        }
      } else {
        assert r[i] == tail[i - 1];
      }
    }
  }

  /** Each block found is nonempty and is the component of each of its atoms. */
  lemma {:induction false} SplitFromMembers(g: Graph, rest: seq<NodeId>, seen: set<NodeId>)
    requires forall i | 0 <= i < |rest| :: rest[i] in g.atoms
    ensures ComponentBlocks(g, SplitFrom(g, rest, seen))
    decreases |rest|
  {
    if rest != [] {
      var n := rest[0];
      if n in seen {
        assert SplitFrom(g, rest, seen) == SplitFrom(g, rest[1..], seen);
        SplitFromMembers(g, rest[1..], seen);
      } else {
        assert SplitFrom(g, rest, seen) == [Component(g, n)] + SplitFrom(g, rest[1..], seen + Component(g, n));
        SplitFromMembers(g, rest[1..], seen + Component(g, n));
        ComponentBlocksCons(g, n, SplitFrom(g, rest[1..], seen + Component(g, n)));
      }
    }
  }

  /** No block of `parts` meets `s`. */
  predicate AvoidsAll(parts: seq<set<NodeId>>, s: set<NodeId>) {
    forall i | 0 <= i < |parts| :: parts[i] * s == {}
  }

  /** No two blocks of `parts` meet. */
  predicate PairwiseDisjoint(parts: seq<set<NodeId>>) {
    forall i, j | 0 <= i < j < |parts| :: parts[i] * parts[j] == {}
  }

  lemma {:induction false} AvoidsCons(c: set<NodeId>, tail: seq<set<NodeId>>, s: set<NodeId>, extra: set<NodeId>)
    requires c * s == {} && AvoidsAll(tail, s + extra)
    ensures AvoidsAll([c] + tail, s)
  {
    var r := [c] + tail;
    forall i | 0 <= i < |r| ensures r[i] * s == {} {
      if i > 0 {
        assert r[i] == tail[i - 1];
        assert tail[i - 1] * (s + extra) == {};
      }
    }
  }

  lemma {:induction false} DisjointCons(c: set<NodeId>, tail: seq<set<NodeId>>, s: set<NodeId>)
    requires PairwiseDisjoint(tail) && AvoidsAll(tail, s) && c <= s
    ensures PairwiseDisjoint([c] + tail)
  {
    var r := [c] + tail;
    forall i, j | 0 <= i < j < |r| ensures r[i] * r[j] == {} {
      assert r[j] == tail[j - 1];
      if i == 0 {
        assert tail[j - 1] * s == {};
      } else {
        assert r[i] == tail[i - 1];
      }
    }
  }

  /** The component of an atom outside a closed set does not meet it. */
  lemma {:induction false} ComponentAvoidsClosed(g: Graph, n: NodeId, t: set<NodeId>)
    requires n in g.atoms && n !in t && Closed(g, t)
    ensures Component(g, n) * t == {}
  {
    if Component(g, n) * t != {} {
      var x :| x in Component(g, n) && x in t;
      ComponentMeetsClosed(g, n, t, x);
      assert false;
    }
  }

  /** No block found meets a closed set of atoms already seen. */
  lemma {:induction false} SplitFromAvoidsSeen(g: Graph, rest: seq<NodeId>, seen: set<NodeId>)
    requires forall i | 0 <= i < |rest| :: rest[i] in g.atoms
    requires Closed(g, seen)
    ensures AvoidsAll(SplitFrom(g, rest, seen), seen)
    decreases |rest|
  {
    if rest != [] {
      var n := rest[0];
      if n in seen {
        SplitFromAvoidsSeen(g, rest[1..], seen);
      } else {
        var c := Component(g, n);
        ComponentAvoidsClosed(g, n, seen);
        UnionClosed(g, seen, c);
        SplitFromAvoidsSeen(g, rest[1..], seen + c);
        AvoidsCons(c, SplitFrom(g, rest[1..], seen + c), seen, c);
      }
    }
  }

  /** No two blocks found meet. */
  lemma {:induction false} SplitFromDisjoint(g: Graph, rest: seq<NodeId>, seen: set<NodeId>)
    requires forall i | 0 <= i < |rest| :: rest[i] in g.atoms
    requires Closed(g, seen)
    ensures PairwiseDisjoint(SplitFrom(g, rest, seen))
    decreases |rest|
  {
    if rest != [] {
      var n := rest[0];
      if n in seen {
        SplitFromDisjoint(g, rest[1..], seen);
      } else {
        var c := Component(g, n);
        UnionClosed(g, seen, c);
        SplitFromDisjoint(g, rest[1..], seen + c);
        SplitFromAvoidsSeen(g, rest[1..], seen + c);
        DisjointCons(c, SplitFrom(g, rest[1..], seen + c), seen + c);
      }
    }
  }

  /** Every atom of `rest` was seen or lies in a block found. */
  lemma {:induction false} SplitFromCovers(g: Graph, rest: seq<NodeId>, seen: set<NodeId>)
    requires forall i | 0 <= i < |rest| :: rest[i] in g.atoms
    ensures var r := SplitFrom(g, rest, seen);
      forall x | x in rest :: x in seen || exists i | 0 <= i < |r| :: x in r[i]
    decreases |rest|
  {
    if rest != [] {
      var n := rest[0];
      assert forall x | x in rest :: x == n || x in rest[1..];
      if n in seen {
        assert SplitFrom(g, rest, seen) == SplitFrom(g, rest[1..], seen);
        SplitFromCovers(g, rest[1..], seen);
      } else {
        var c := Component(g, n);
        assert SplitFrom(g, rest, seen) == [c] + SplitFrom(g, rest[1..], seen + c);
        SplitFromCovers(g, rest[1..], seen + c);
        var tail := SplitFrom(g, rest[1..], seen + c);
        var r := [c] + tail;
        assert forall j | 1 <= j < |r| :: r[j] == tail[j - 1];
        assert n in r[0];
        forall x | x in rest && x !in seen ensures exists i | 0 <= i < |r| :: x in r[i] {
          if x in c {
            assert x in r[0];
          } else if x != n {
            var j :| 0 <= j < |tail| && x in tail[j];
            assert x in r[j + 1];
          }
        }
      }
    }
  }

  /** The components of `g`, in order of their first atom. */
  function Split(g: Graph): seq<set<NodeId>>
    requires WellFormed(g)
  {
    SplitFrom(g, g.order, {})
  }

  /** The components partition the atoms: none is empty, no two meet, and
      every atom lies in one. Each is the component of each of its atoms. */
  lemma {:induction false} SplitPartitions(g: Graph)
    requires WellFormed(g)
    ensures forall i | 0 <= i < |Split(g)| :: Split(g)[i] != {} && Split(g)[i] <= g.atoms.Keys
    ensures forall i, j | 0 <= i < j < |Split(g)| :: Split(g)[i] * Split(g)[j] == {}
    ensures forall n | n in g.atoms :: exists i | 0 <= i < |Split(g)| :: n in Split(g)[i]
    ensures forall i, n | 0 <= i < |Split(g)| && n in Split(g)[i] :: Component(g, n) == Split(g)[i]
  {
    var r := Split(g);
    assert r == SplitFrom(g, g.order, {});
    SplitFromMembers(g, g.order, {});
    SplitFromDisjoint(g, g.order, {});
    SplitFromCovers(g, g.order, {});
    forall n | n in g.atoms ensures exists i | 0 <= i < |r| :: n in r[i] {
      assert n in g.order;
    }
  }

  /** Each component is a nonempty set of atoms. */
  lemma {:induction false} SplitPartsInside(g: Graph)
    requires WellFormed(g)
    ensures forall i | 0 <= i < |Split(g)| :: Split(g)[i] != {} && Split(g)[i] <= g.atoms.Keys
  {
    SplitPartitions(g);
  }

  /** No two components meet. */
  lemma {:induction false} SplitDisjointParts(g: Graph)
    requires WellFormed(g)
    ensures forall i, j | 0 <= i < j < |Split(g)| :: Split(g)[i] * Split(g)[j] == {}
  {
    SplitPartitions(g);
  }

  /** Every atom lies in some component. */
  lemma {:induction false} SplitCovers(g: Graph, n: NodeId)
    requires WellFormed(g) && n in g.atoms
    ensures exists i | 0 <= i < |Split(g)| :: n in Split(g)[i]
  {
    SplitPartitions(g);
  }

  /** Atoms in one component are connected by a walk, and atoms linked to a
      component (bonded to it or in one of its residues) belong to it. */
  lemma {:induction false} SplitComponentsConnected(g: Graph, i: nat, u: NodeId, v: NodeId)
    requires WellFormed(g) && i < |Split(g)|
    requires u in Split(g)[i]
    ensures v in Split(g)[i] <==> Reaches(g, u, v)
  {
    SplitPartitions(g);
    ComponentIsReachable(g, u, v);
  }

  /** No bond joins two components, and no residue is cut in two. */
  lemma {:induction false} SplitKeepsLinksInside(g: Graph, i: nat, u: NodeId, v: NodeId)
    requires WellFormed(g) && i < |Split(g)|
    requires u in Split(g)[i] && Linked(g, u, v)
    ensures v in Split(g)[i]
  {
    SplitPartitions(g);
    assert Closed(g, Component(g, u));
  }
}
