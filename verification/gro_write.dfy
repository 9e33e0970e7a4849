/** The writer of GROMACS `.gro` files: the atoms of every molecule, sorted
    by chain, residue number and residue name, numbered from 1 across the
    whole system, with velocities when every molecule's first atom has one.
    The text formatting of the numbers is not modelled: a written line is
    the record of its values. */
module GroWrite {
  import opened Outcome
  import opened Text
  import opened Molecules

  /** The `RuntimeError` for a molecule without atoms (its `next()` runs
      inside the generator of the velocity check, so under PEP 479 the
      `StopIteration` is turned into a `RuntimeError`), and `KeyError` for
      a node of molecule `mol` without an attribute the writer reads. */
  datatype WriteError = EmptyMolecule(mol: nat) | KeyError(mol: nat, node: NodeId)

  /** One atom line: residue number and name, atom name, atom number,
      position and, when written, velocity. */
  datatype GroLine = GroLine(resid: int, resname: string, atomname: string, atomid: nat, position: Vec3, velocity: Option<Vec3>)

  /** The file: title, atom count, atom lines (the box line is fixed). */
  datatype GroFile = GroFile(title: string, count: nat, atoms: seq<GroLine>)

  const Title: string := "Martinized!"

  /** The attributes of node `n`; a node without an entry has none. */
  function Attrs(g: Graph, n: NodeId): Atom {
    if n in g.atoms then g.atoms[n] else Bare
  }

  // ------------------------------------------------------------ velocities

  /** The first node of a molecule has a velocity. */
  predicate FirstHasVelocity(m: Molecule) {
    m.graph.order != [] && Attrs(m.graph, m.graph.order[0]).velocity.Some?
  }

  /** `all('velocity' in first node for mol in molecules)` from molecule
      `k` on: stops at the first molecule whose first node has no
      velocity, and fails on an empty molecule reached before. */
  function HasVelocities(mols: seq<Molecule>, k: nat): Result<bool, WriteError>
    requires k <= |mols|
    decreases |mols| - k
  {
    if k == |mols| then Ok(true)
    else if mols[k].graph.order == [] then Err(EmptyMolecule(k))
    else if Attrs(mols[k].graph, mols[k].graph.order[0]).velocity.None? then Ok(false)
    else HasVelocities(mols, k + 1)
  }

  /** Velocities are written exactly when every molecule's first node has
      one; an empty molecule is an error only when no molecule before it
      lacks a velocity. */
  lemma {:induction false} HasVelocitiesSpec(mols: seq<Molecule>, k: nat)
    requires k <= |mols|
    ensures HasVelocities(mols, k) == Ok(true) <==> forall j | k <= j < |mols| :: FirstHasVelocity(mols[j])
    ensures HasVelocities(mols, k).Err? ==> exists j | k <= j < |mols| ::
      && HasVelocities(mols, k) == Err(EmptyMolecule(j))
      && mols[j].graph.order == []
      && forall i | k <= i < j :: FirstHasVelocity(mols[i])
    decreases |mols| - k
  {
    if k < |mols| {
      HasVelocitiesSpec(mols, k + 1);
      if mols[k].graph.order == [] {
        assert HasVelocities(mols, k) == Err(EmptyMolecule(k));
      }
    }
  }

  // ------------------------------------------------------------ sorting

  /** The sort key `(chain, resid, resname)`. */
  datatype Key = Key(chain: string, resid: int, resname: string)

  /** Python's tuple order on keys. */
  predicate KeyLess(a: Key, b: Key) {
    || StrLess(a.chain, b.chain)
    || (a.chain == b.chain && a.resid < b.resid)
    || (a.chain == b.chain && a.resid == b.resid && StrLess(a.resname, b.resname))
  }

  lemma {:induction false} KeyLessIrreflexive(a: Key)
    ensures !KeyLess(a, a)
  {
    StrLessIrreflexive(a.chain);
    StrLessIrreflexive(a.resname);
  }

  lemma {:induction false} KeyLessTransitive(a: Key, b: Key, c: Key)
    requires KeyLess(a, b) && KeyLess(b, c)
    ensures KeyLess(a, c)
  {
    if StrLess(a.chain, b.chain) && StrLess(b.chain, c.chain) {
      StrLessTransitive(a.chain, b.chain, c.chain);
    }
    if a.chain == b.chain == c.chain && a.resid == b.resid == c.resid
       && StrLess(a.resname, b.resname) && StrLess(b.resname, c.resname) {
      StrLessTransitive(a.resname, b.resname, c.resname);
    }
  }

  lemma {:induction false} KeyLessTotal(a: Key, b: Key)
    ensures KeyLess(a, b) || KeyLess(b, a) || a == b
  {
    StrLessTotal(a.chain, b.chain);
    StrLessTotal(a.resname, b.resname);
  }

  /** A node with its key. */
  datatype Item = Item(node: NodeId, key: Key)

  /** Nondecreasing keys. */
  predicate Sorted(s: seq<Item>) {
    forall i | 0 <= i < |s| - 1 :: !KeyLess(s[i + 1].key, s[i].key)
  }

  /** The items of `s` with key `k`, in order. */
  function WithKey(s: seq<Item>, k: Key): seq<Item> {
    if s == [] then []
    else WithKey(s[..|s| - 1], k) + (if s[|s| - 1].key == k then [s[|s| - 1]] else [])
  }

  /** `x` placed after every item of `s` that is not greater. */
  function Insert(x: Item, s: seq<Item>): seq<Item> {
    if s == [] then [x]
    else if KeyLess(x.key, s[0].key) then [x] + s
    else [s[0]] + Insert(x, s[1..])
  }

  /** `sorted(nodes, key=keyfunc)`, a stable insertion sort. */
  function Sort(s: seq<Item>): seq<Item> {
    if s == [] then [] else Insert(s[|s| - 1], Sort(s[..|s| - 1]))
  }

  lemma {:induction false} WithKeyCons(x: Item, s: seq<Item>, k: Key)
    ensures WithKey([x] + s, k) == (if x.key == k then [x] else []) + WithKey(s, k)
    decreases |s|
  {
    if s != [] {
      var t := [x] + s;
      assert t[..|t| - 1] == [x] + s[..|s| - 1];
      WithKeyCons(x, s[..|s| - 1], k);
    } else {
      assert ([x] + s)[..0] == [];
    }
  }

  /** Insertion adds exactly the one item. */
  lemma {:induction false} InsertPermutes(x: Item, s: seq<Item>)
    ensures |Insert(x, s)| == |s| + 1
    ensures multiset(Insert(x, s)) == multiset(s) + multiset{x}
  {
    if s != [] && !KeyLess(x.key, s[0].key) {
      InsertPermutes(x, s[1..]);
      assert s == [s[0]] + s[1..];
    }
  }

  lemma {:induction false} SortedTail(s: seq<Item>)
    requires Sorted(s) && s != []
    ensures Sorted(s[1..])
  {
    forall i | 0 <= i < |s[1..]| - 1 ensures !KeyLess(s[1..][i + 1].key, s[1..][i].key) {
      assert s[1..][i] == s[i + 1] && s[1..][i + 1] == s[i + 2];
    }
  }

  lemma {:induction false} SortedCons(x: Item, s: seq<Item>)
    requires Sorted(s) && (s != [] ==> !KeyLess(s[0].key, x.key))
    ensures Sorted([x] + s)
  {
    var r := [x] + s;
    forall i | 0 <= i < |r| - 1 ensures !KeyLess(r[i + 1].key, r[i].key) {
      if i > 0 {
        assert r[i] == s[i - 1] && r[i + 1] == s[i];
      }
    }
  }

  /** Insertion into a sorted sequence keeps it sorted. */
  lemma {:induction false} InsertSorted(x: Item, s: seq<Item>)
    requires Sorted(s)
    ensures Sorted(Insert(x, s))
    ensures Insert(x, s)[0] == x || (s != [] && Insert(x, s)[0] == s[0])
  {
    if s == [] {
    } else if KeyLess(x.key, s[0].key) {
      if KeyLess(s[0].key, x.key) {
        KeyLessTransitive(x.key, s[0].key, x.key);
        KeyLessIrreflexive(x.key);
      }
      SortedCons(x, s);
    } else {
      SortedTail(s);
      InsertSorted(x, s[1..]);
      var rest := Insert(x, s[1..]);
      if rest[0] != x {
        assert rest[0] == s[1];
      } else {
        KeyLessTotal(x.key, s[0].key);
        if x.key == s[0].key {
          KeyLessIrreflexive(x.key);
        }
      }
      SortedCons(s[0], rest);
    }
  }

  /** "Not less" is transitive on keys. */
  lemma {:induction false} NotLessTransitive(a: Key, b: Key, c: Key)
    requires !KeyLess(c, b) && !KeyLess(b, a)
    ensures !KeyLess(c, a)
  {
    KeyLessTotal(c, b);
    if KeyLess(c, a) && KeyLess(b, c) {
      KeyLessTransitive(b, c, a);
    }
  }

  /** No item of a sorted sequence is less than its first. */
  lemma {:induction false} SortedFromFirst(s: seq<Item>, i: nat)
    requires Sorted(s) && i < |s|
    ensures !KeyLess(s[i].key, s[0].key)
  {
    if i == 0 {
      KeyLessIrreflexive(s[0].key);
    } else {
      SortedFromFirst(s, i - 1);
      NotLessTransitive(s[0].key, s[i - 1].key, s[i].key);
    }
  }

  lemma {:induction false} WithKeyAbsent(s: seq<Item>, k: Key)
    requires forall i | 0 <= i < |s| :: s[i].key != k
    ensures WithKey(s, k) == []
  {
    if s != [] {
      WithKeyAbsent(s[..|s| - 1], k);
    }
  }

  /** A key below the first of a sorted sequence is not in it. */
  lemma WithKeyBelow(s: seq<Item>, k: Key)
    requires Sorted(s) && s != [] && KeyLess(k, s[0].key)
    ensures WithKey(s, k) == []
  {
    forall i | 0 <= i < |s| ensures s[i].key != k {
      SortedFromFirst(s, i);
    }
    WithKeyAbsent(s, k);
  }

  /** The items with any one key keep their order through insertion, the
      inserted item coming after those already there. */
  lemma {:induction false} InsertWithKey(x: Item, s: seq<Item>, k: Key)
    requires Sorted(s)
    ensures WithKey(Insert(x, s), k) == WithKey(s, k) + (if x.key == k then [x] else [])
  {
    if s == [] {
      assert WithKey([x], k) == WithKey([], k) + (if x.key == k then [x] else []);
    } else if KeyLess(x.key, s[0].key) {
      WithKeyCons(x, s, k);
      if x.key == k {
        WithKeyBelow(s, k);
      }
    } else {
      var rest := Insert(x, s[1..]);
      assert Insert(x, s) == [s[0]] + rest;
      SortedTail(s);
      InsertWithKey(x, s[1..], k);
      WithKeyCons(s[0], rest, k);
      WithKeyCons(s[0], s[1..], k);
      assert s == [s[0]] + s[1..];
    }
  }

  lemma {:induction false} SortSorted(s: seq<Item>)
    ensures Sorted(Sort(s))
  {
    if s != [] {
      SortSorted(s[..|s| - 1]);
      InsertSorted(s[|s| - 1], Sort(s[..|s| - 1]));
    }
  }

  lemma {:induction false} SortPermutes(s: seq<Item>)
    ensures |Sort(s)| == |s|
    ensures multiset(Sort(s)) == multiset(s)
  {
    if s != [] {
      SortPermutes(s[..|s| - 1]);
      InsertPermutes(s[|s| - 1], Sort(s[..|s| - 1]));
      assert s == s[..|s| - 1] + [s[|s| - 1]];
    }
  }

  lemma {:induction false} SortStable(s: seq<Item>, k: Key)
    ensures WithKey(Sort(s), k) == WithKey(s, k)
  {
    if s != [] {
      var init := s[..|s| - 1];
      SortStable(init, k);
      SortSorted(init);
      InsertWithKey(s[|s| - 1], Sort(init), k);
    }
  }

  /** The sort orders by key, keeps every item, and is stable: the items
      with any one key come out in their input order. */
  lemma SortSpec(s: seq<Item>)
    ensures Sorted(Sort(s))
    ensures |Sort(s)| == |s|
    ensures multiset(Sort(s)) == multiset(s)
    ensures forall k :: WithKey(Sort(s), k) == WithKey(s, k)
  {
    SortSorted(s);
    SortPermutes(s);
    forall k ensures WithKey(Sort(s), k) == WithKey(s, k) {
      SortStable(s, k);
    }
  }

  // ------------------------------------------------------------ lines

  /** The sort key of a node, when it has a chain, a residue number and a
      residue name. */
  function KeyOf(a: Atom): (r: Option<Key>)
    ensures r.Some? <==> a.chain.Some? && a.resid.Some? && a.resname.Some?
    ensures r.Some? ==> r.value.chain == a.chain.value && r.value.resid == a.resid.value && r.value.resname == a.resname.value
  {
    if a.chain.Some? && a.resid.Some? && a.resname.Some? then Some(Key(a.chain.value, a.resid.value, a.resname.value))
    else None
  }

  /** The position of the first `None`, if any. */
  function FirstNone<T>(s: seq<Option<T>>): (r: Option<nat>)
    ensures r.Some? ==> r.value < |s| && s[r.value].None? && forall i | 0 <= i < r.value :: s[i].Some?
    ensures r.None? ==> forall i | 0 <= i < |s| :: s[i].Some?
  {
    if s == [] then None
    else if s[0].None? then Some(0)
    else match FirstNone(s[1..])
      case None => None
      case Some(i) => Some(i + 1)
  }

  /** The keys of the nodes in iteration order. */
  function Keys(g: Graph): (r: seq<Option<Key>>)
    ensures |r| == |g.order| && forall i | 0 <= i < |r| :: r[i] == KeyOf(Attrs(g, g.order[i]))
  {
    seq(|g.order|, i requires 0 <= i < |g.order| => KeyOf(Attrs(g, g.order[i])))
  }

  /** The values of a sequence of options that are all present. */
  function Values<T>(s: seq<Option<T>>): (r: seq<T>)
    requires forall i | 0 <= i < |s| :: s[i].Some?
    ensures |r| == |s| && forall i | 0 <= i < |s| :: r[i] == s[i].value
  {
    seq(|s|, i requires 0 <= i < |s| => s[i].value)
  }

  /** The keys of all nodes, computed before sorting: the first node
      without a key attribute raises `KeyError`. */
  function Items(g: Graph, mol: nat): (r: Result<seq<Item>, WriteError>)
    ensures r.Ok? ==> |r.value| == |g.order|
  {
    var keys := Keys(g);
    match FirstNone(keys)
    case Some(i) => Err(KeyError(mol, g.order[i]))
    case None =>
      var ks := Values(keys);
      Ok(seq(|ks|, i requires 0 <= i < |ks| => Item(g.order[i], ks[i])))
  }

  /** `Items` fails exactly when some node has no key, and then names the
      first such node; otherwise it pairs every node with its key. */
  lemma ItemsSpec(g: Graph, mol: nat)
    ensures Items(g, mol).Ok? <==> forall i | 0 <= i < |g.order| :: KeyOf(Attrs(g, g.order[i])).Some?
    ensures Items(g, mol).Ok? ==>
      forall i | 0 <= i < |g.order| :: Items(g, mol).value[i] == Item(g.order[i], KeyOf(Attrs(g, g.order[i])).value)
    ensures Items(g, mol).Err? ==> exists i | 0 <= i < |g.order| ::
      && Items(g, mol) == Err(KeyError(mol, g.order[i]))
      && KeyOf(Attrs(g, g.order[i])).None?
      && forall j | 0 <= j < i :: KeyOf(Attrs(g, g.order[j])).Some?
  {
    var keys := Keys(g);
    var f := FirstNone(keys);
    if f.Some? {
      assert Items(g, mol) == Err(KeyError(mol, g.order[f.value]));
    }
  }

  /** A node has what its line needs: atom name, residue name and number,
      position, and a velocity when velocities are written. */
  predicate LineReady(a: Atom, hasVel: bool) {
    && a.atomname.Some? && a.resname.Some? && a.resid.Some? && a.position.Some?
    && (hasVel ==> a.velocity.Some?)
  }

  /** Velocities are stored in Å/ps and written in nm/ps. */
  function Tenth(v: Vec3): (r: Vec3)
    ensures r.x * 10.0 == v.x && r.y * 10.0 == v.y && r.z * 10.0 == v.z
  {
    Vec3(v.x / 10.0, v.y / 10.0, v.z / 10.0)
  }

  /** The line of a node with atom number `atomid`. */
  function LineOf(a: Atom, atomid: nat, hasVel: bool): (r: Option<GroLine>)
    ensures r.Some? <==> LineReady(a, hasVel)
    ensures r.Some? ==>
      && Some(r.value.resid) == a.resid && Some(r.value.resname) == a.resname
      && Some(r.value.atomname) == a.atomname && Some(r.value.position) == a.position
      && r.value.atomid == atomid
      && (r.value.velocity.Some? <==> hasVel)
      && (hasVel ==> r.value.velocity == Some(Tenth(a.velocity.value)))
  {
    if !LineReady(a, hasVel) then None
    else Some(GroLine(a.resid.value, a.resname.value, a.atomname.value, atomid, a.position.value,
                      if hasVel then Some(Tenth(a.velocity.value)) else None))
  }

  /** The nodes of the items, in order. */
  function Nodes(s: seq<Item>): (r: seq<NodeId>)
    ensures |r| == |s| && forall i | 0 <= i < |s| :: r[i] == s[i].node
  {
    seq(|s|, i requires 0 <= i < |s| => s[i].node)
  }

  /** The lines of the nodes `order`, numbered after the `before` atoms already
      written; `None` for a
      node missing an attribute. */
  function LinesOf(g: Graph, order: seq<NodeId>, before: nat, hasVel: bool): (r: seq<Option<GroLine>>)
    ensures |r| == |order| && forall j | 0 <= j < |r| :: r[j] == LineOf(Attrs(g, order[j]), before + j + 1, hasVel)
  {
    seq(|order|, j requires 0 <= j < |order| => LineOf(Attrs(g, order[j]), before + j + 1, hasVel))
  }

  /** The lines of one molecule, its nodes sorted by key and numbered after
      the `before` atoms already written; the first node in that order missing an attribute raises
      `KeyError`. */
  function MoleculeLines(m: Molecule, mol: nat, before: nat, hasVel: bool): (r: Result<seq<GroLine>, WriteError>)
    ensures r.Ok? ==> |r.value| == |m.graph.order|
    ensures r.Err? ==> r.error.KeyError? && r.error.mol == mol
  {
    var items :- Items(m.graph, mol);
    var order := Nodes(Sort(items));
    var lines := LinesOf(m.graph, order, before, hasVel);
    match FirstNone(lines)
    case Some(j) => Err(KeyError(mol, order[j]))
    case None =>
      SortPermutes(items);
      Ok(Values(lines))
  }

  /** The number of nodes in the first `n` molecules. */
  function Total(mols: seq<Molecule>, n: nat): nat
    requires n <= |mols|
  {
    if n == 0 then 0 else Total(mols, n - 1) + |mols[n - 1].graph.order|
  }

  /** Each molecule's lines, numbered on from the nodes of the molecules
      before it: the writer's running atom number once those are all
      written. */
  function MoleculeResults(mols: seq<Molecule>, hasVel: bool): (r: seq<Result<seq<GroLine>, WriteError>>)
    ensures |r| == |mols|
  {
    seq(|mols|, m requires 0 <= m < |mols| => MoleculeLines(mols[m], m, Total(mols, m), hasVel))
  }

  /** The first `n` results joined in order, or the first failure among
      them. */
  function Concat<T, E>(rs: seq<Result<seq<T>, E>>, n: nat): Result<seq<T>, E>
    requires n <= |rs|
  {
    if n == 0 then Ok([])
    else
      match Concat(rs, n - 1)
      case Err(e) => Err(e)
      case Ok(prev) =>
        match rs[n - 1]
        case Err(e) => Err(e)
        case Ok(cur) => Ok(prev + cur)
  }

  /** The lines of all molecules, atom numbers running on from one
      molecule to the next; writing stops at the first failure. */
  function SystemLines(mols: seq<Molecule>, hasVel: bool): Result<seq<GroLine>, WriteError> {
    Concat(MoleculeResults(mols, hasVel), |mols|)
  }

  /** `write_gro`: the title, the particle count and the atom lines. */
  function WriteGro(mols: seq<Molecule>): Result<GroFile, WriteError> {
    var hasVel :- HasVelocities(mols, 0);
    var lines :- SystemLines(mols, hasVel);
    Ok(GroFile(Title, Total(mols, |mols|), lines))
  }

  // ------------------------------------------------------------ properties

  /** Every node of the graph can be written: it has a key and what its
      line needs. */
  predicate Writable(g: Graph, hasVel: bool) {
    forall i | 0 <= i < |g.order| :: KeyOf(Attrs(g, g.order[i])).Some? && LineReady(Attrs(g, g.order[i]), hasVel)
  }

  /** Sorting moves nodes around but neither adds nor drops one. */
  lemma SortedNodesSame(g: Graph, mol: nat)
    requires Items(g, mol).Ok?
    ensures forall n :: n in Nodes(Sort(Items(g, mol).value)) <==> n in g.order
  {
    var items := Items(g, mol).value;
    var order := Nodes(Sort(items));
    ItemsSpec(g, mol);
    SortPermutes(items);
    forall n ensures n in order <==> n in g.order {
      if n in order {
        var j :| 0 <= j < |order| && order[j] == n;
        assert Sort(items)[j] in multiset(items);
        var i :| 0 <= i < |items| && items[i] == Sort(items)[j];
        assert g.order[i] == n;
      }
      if n in g.order {
        var i :| 0 <= i < |g.order| && g.order[i] == n;
        assert items[i] in multiset(Sort(items));
        var j :| 0 <= j < |order| && Sort(items)[j] == items[i];
        assert order[j] == n;
      }
    }
  }

  /** A molecule is written exactly when all its nodes are writable;
      a failure names the molecule. */
  lemma MoleculeLinesOk(m: Molecule, mol: nat, before: nat, hasVel: bool)
    ensures MoleculeLines(m, mol, before, hasVel).Ok? <==> Writable(m.graph, hasVel)
  {
    var g := m.graph;
    ItemsSpec(g, mol);
    if Items(g, mol).Ok? {
      var items := Items(g, mol).value;
      var order := Nodes(Sort(items));
      var lines := LinesOf(g, order, before, hasVel);
      SortedNodesSame(g, mol);
      if Writable(g, hasVel) {
        forall j | 0 <= j < |lines| ensures lines[j].Some? {
          assert order[j] in g.order;
        }
      } else {
        var i :| 0 <= i < |g.order| && !(KeyOf(Attrs(g, g.order[i])).Some? && LineReady(Attrs(g, g.order[i]), hasVel));
        assert g.order[i] in order;
        var j :| 0 <= j < |order| && order[j] == g.order[i];
        assert lines[j].None?;
      }
    }
  }

  /** Line `j` of a molecule is the line of its `j`-th node in sorted
      order (`SortSpec` says what that order is), numbered `before + j + 1`. */
  lemma MoleculeLineAt(m: Molecule, mol: nat, before: nat, hasVel: bool, j: nat)
    requires MoleculeLines(m, mol, before, hasVel).Ok? && j < |m.graph.order|
    ensures Items(m.graph, mol).Ok?
    ensures j < |Sort(Items(m.graph, mol).value)|
    ensures Some(MoleculeLines(m, mol, before, hasVel).value[j])
         == LineOf(Attrs(m.graph, Sort(Items(m.graph, mol).value)[j].node), before + j + 1, hasVel)
  {
    SortPermutes(Items(m.graph, mol).value);
  }

  /** Where the lines of molecule `m` sit among those of the first `n`. */
  lemma {:induction false} TotalGrows(mols: seq<Molecule>, m: nat, n: nat)
    requires m < n <= |mols|
    ensures Total(mols, m) + |mols[m].graph.order| <= Total(mols, n)
    decreases n
  {
    if m < n - 1 {
      TotalGrows(mols, m, n - 1);
    }
  }

  /** The total length of the successful results among the first `n`. */
  function Lengths<T, E>(rs: seq<Result<seq<T>, E>>, n: nat): nat
    requires n <= |rs|
  {
    if n == 0 then 0 else Lengths(rs, n - 1) + (if rs[n - 1].Ok? then |rs[n - 1].value| else 0)
  }

  /** Joining succeeds exactly when every result does, and otherwise gives
      the first failure. */
  lemma {:induction false} ConcatOk<T, E>(rs: seq<Result<seq<T>, E>>, n: nat)
    requires n <= |rs|
    ensures Concat(rs, n).Ok? <==> forall m | 0 <= m < n :: rs[m].Ok?
    ensures Concat(rs, n).Err? ==> exists m | 0 <= m < n ::
      rs[m].Err? && Concat(rs, n).error == rs[m].error && forall l | 0 <= l < m :: rs[l].Ok?
  {
    if n > 0 {
      ConcatOk(rs, n - 1);
    }
  }

  lemma {:induction false} ConcatLength<T, E>(rs: seq<Result<seq<T>, E>>, n: nat)
    requires n <= |rs| && Concat(rs, n).Ok?
    ensures |Concat(rs, n).value| == Lengths(rs, n)
  {
    if n > 0 {
      ConcatLength(rs, n - 1);
    }
  }

  /** One step of joining: the join so far, then the next result. */
  lemma ConcatStep<T, E>(rs: seq<Result<seq<T>, E>>, n: nat)
    requires 0 < n <= |rs| && Concat(rs, n).Ok?
    ensures Concat(rs, n - 1).Ok? && rs[n - 1].Ok?
    ensures Concat(rs, n).value == Concat(rs, n - 1).value + rs[n - 1].value
  { }

  /** Item `j` of result `m` is item `Lengths(rs, m) + j` of the join. */
  lemma {:induction false} ConcatAt<T, E>(rs: seq<Result<seq<T>, E>>, n: nat, m: nat, j: nat)
    requires n <= |rs| && Concat(rs, n).Ok? && m < n && rs[m].Ok? && j < |rs[m].value|
    ensures Lengths(rs, m) + j < |Concat(rs, n).value|
    ensures Concat(rs, n).value[Lengths(rs, m) + j] == rs[m].value[j]
  {
    ConcatStep(rs, n);
    ConcatLength(rs, n - 1);
    if m < n - 1 {
      ConcatAt(rs, n - 1, m, j);
    }
  }

  /** Results as long as the molecules' node lists add up to their total. */
  lemma {:induction false} LengthsTotal(rs: seq<Result<seq<GroLine>, WriteError>>, mols: seq<Molecule>, n: nat)
    requires n <= |rs| && n <= |mols|
    requires forall m | 0 <= m < n :: rs[m].Ok? && |rs[m].value| == |mols[m].graph.order|
    ensures Lengths(rs, n) == Total(mols, n)
  {
    if n > 0 {
      LengthsTotal(rs, mols, n - 1);
    }
  }

  /** Molecule `m`'s result is that of its lines numbered after the nodes
      before it. */
  lemma ResultOf(mols: seq<Molecule>, hasVel: bool, m: nat)
    requires m < |mols|
    ensures MoleculeResults(mols, hasVel)[m] == MoleculeLines(mols[m], m, Total(mols, m), hasVel)
  { }

  /** Molecule `m`'s result succeeds exactly when it is writable, and a
      failure names it. */
  lemma ResultOk(mols: seq<Molecule>, hasVel: bool, m: nat)
    requires m < |mols|
    ensures MoleculeResults(mols, hasVel)[m].Ok? <==> Writable(mols[m].graph, hasVel)
    ensures MoleculeResults(mols, hasVel)[m].Err? ==>
      MoleculeResults(mols, hasVel)[m].error.KeyError? && MoleculeResults(mols, hasVel)[m].error.mol == m
  {
    ResultOf(mols, hasVel, m);
    MoleculeLinesOk(mols[m], m, Total(mols, m), hasVel);
  }

  /** Each molecule's lines, when written, are one per node. */
  lemma ResultLengths(mols: seq<Molecule>, hasVel: bool)
    ensures forall m | 0 <= m < |mols| && MoleculeResults(mols, hasVel)[m].Ok? ::
      |MoleculeResults(mols, hasVel)[m].value| == |mols[m].graph.order|
  {
    forall m | 0 <= m < |mols| && MoleculeResults(mols, hasVel)[m].Ok?
      ensures |MoleculeResults(mols, hasVel)[m].value| == |mols[m].graph.order|
    {
      ResultOf(mols, hasVel, m);
    }
  }

  /** Each molecule's result succeeds exactly when it is writable, and a
      failure names it. */
  lemma ResultsOk(mols: seq<Molecule>, hasVel: bool)
    ensures forall m | 0 <= m < |mols| :: MoleculeResults(mols, hasVel)[m].Ok? <==> Writable(mols[m].graph, hasVel)
    ensures forall m | 0 <= m < |mols| && MoleculeResults(mols, hasVel)[m].Err? ::
      MoleculeResults(mols, hasVel)[m].error.KeyError? && MoleculeResults(mols, hasVel)[m].error.mol == m
  {
    forall m | 0 <= m < |mols|
      ensures MoleculeResults(mols, hasVel)[m].Ok? <==> Writable(mols[m].graph, hasVel)
      ensures MoleculeResults(mols, hasVel)[m].Err? ==>
        MoleculeResults(mols, hasVel)[m].error.KeyError? && MoleculeResults(mols, hasVel)[m].error.mol == m
    {
      ResultOk(mols, hasVel, m);
    }
  }

  /** The molecules are written exactly when each is writable; otherwise
      the error names the first one that is not. */
  lemma SystemLinesOk(mols: seq<Molecule>, hasVel: bool)
    ensures SystemLines(mols, hasVel).Ok? <==> forall m | 0 <= m < |mols| :: Writable(mols[m].graph, hasVel)
    ensures SystemLines(mols, hasVel).Err? ==> exists m | 0 <= m < |mols| ::
      && SystemLines(mols, hasVel).error.KeyError?
      && SystemLines(mols, hasVel).error.mol == m
      && !Writable(mols[m].graph, hasVel)
      && forall l | 0 <= l < m :: Writable(mols[l].graph, hasVel)
  {
    var rs := MoleculeResults(mols, hasVel);
    ConcatOk(rs, |mols|);
    ResultsOk(mols, hasVel);
  }

  /** Written, the molecules give one line per node. */
  lemma SystemLinesLength(mols: seq<Molecule>, hasVel: bool)
    requires SystemLines(mols, hasVel).Ok?
    ensures |SystemLines(mols, hasVel).value| == Total(mols, |mols|)
  {
    var rs := MoleculeResults(mols, hasVel);
    ConcatOk(rs, |mols|);
    ResultLengths(mols, hasVel);
    LengthsTotal(rs, mols, |mols|);
    ConcatLength(rs, |mols|);
  }

  /** Line `j` of molecule `m` comes after the lines of the molecules
      before it. */
  lemma SystemLineAt(mols: seq<Molecule>, hasVel: bool, m: nat, j: nat)
    requires SystemLines(mols, hasVel).Ok? && m < |mols| && j < |mols[m].graph.order|
    ensures MoleculeResults(mols, hasVel)[m].Ok?
    ensures j < |MoleculeResults(mols, hasVel)[m].value|
    ensures Total(mols, m) + j < |SystemLines(mols, hasVel).value|
    ensures SystemLines(mols, hasVel).value[Total(mols, m) + j] == MoleculeResults(mols, hasVel)[m].value[j]
  {
    var rs := MoleculeResults(mols, hasVel);
    ConcatOk(rs, |mols|);
    ResultOf(mols, hasVel, m);
    ResultLengths(mols, hasVel);
      LengthsTotal(rs, mols, m);
    ConcatAt(rs, |mols|, m, j);
  }

  /** The lines are numbered consecutively after `before` atoms. */
  predicate NumberedAfter(lines: seq<GroLine>, before: nat) {
    forall j | 0 <= j < |lines| :: lines[j].atomid == before + j + 1
  }

  /** A molecule's lines are numbered after the atoms already written. */
  lemma MoleculeNumbered(m: Molecule, mol: nat, before: nat, hasVel: bool)
    requires MoleculeLines(m, mol, before, hasVel).Ok?
    ensures NumberedAfter(MoleculeLines(m, mol, before, hasVel).value, before)
  {
    SortPermutes(Items(m.graph, mol).value);
  }

  /** Results each numbered after those before them join into lines
      numbered from 1. */
  lemma {:induction false} ConcatNumbered<E>(rs: seq<Result<seq<GroLine>, E>>, n: nat)
    requires n <= |rs| && Concat(rs, n).Ok?
    requires forall m | 0 <= m < n && rs[m].Ok? :: NumberedAfter(rs[m].value, Lengths(rs, m))
    ensures NumberedAfter(Concat(rs, n).value, 0)
  {
    if n > 0 {
      ConcatStep(rs, n);
      ConcatNumbered(rs, n - 1);
      ConcatLength(rs, n - 1);
      var prev := Concat(rs, n - 1).value;
      var cur := rs[n - 1].value;
      assert NumberedAfter(cur, Lengths(rs, n - 1));
      forall i | 0 <= i < |prev + cur| ensures (prev + cur)[i].atomid == i + 1 {
        if i >= |prev| {
          assert (prev + cur)[i] == cur[i - |prev|];
        }
      }
    }
  }

  /** Atom numbers run from 1 through the whole file. */
  lemma SystemNumbered(mols: seq<Molecule>, hasVel: bool)
    requires SystemLines(mols, hasVel).Ok?
    ensures NumberedAfter(SystemLines(mols, hasVel).value, 0)
  {
    var rs := MoleculeResults(mols, hasVel);
    ConcatOk(rs, |mols|);
    forall m | 0 <= m < |mols| && rs[m].Ok? ensures NumberedAfter(rs[m].value, Lengths(rs, m)) {
      ResultOf(mols, hasVel, m);
      ResultLengths(mols, hasVel);
      LengthsTotal(rs, mols, m);
      MoleculeNumbered(mols[m], m, Total(mols, m), hasVel);
    }
    ConcatNumbered(rs, |mols|);
  }

  /** Line `before + j` is that of the `j`-th node of molecule `m` in sorted
      order, numbered after the `before` atoms of the molecules before it. */
  lemma SystemLineIs(mols: seq<Molecule>, hasVel: bool, m: nat, j: nat, before: nat)
    requires SystemLines(mols, hasVel).Ok? && m < |mols| && j < |mols[m].graph.order|
    requires before == Total(mols, m)
    ensures Items(mols[m].graph, m).Ok?
    ensures j < |Sort(Items(mols[m].graph, m).value)|
    ensures before + j < |SystemLines(mols, hasVel).value|
    ensures Some(SystemLines(mols, hasVel).value[before + j])
         == LineOf(Attrs(mols[m].graph, Sort(Items(mols[m].graph, m).value)[j].node), before + j + 1, hasVel)
  {
    var r := MoleculeLines(mols[m], m, before, hasVel);
    assert r.Ok? && j < |r.value| && before + j < |SystemLines(mols, hasVel).value|
        && SystemLines(mols, hasVel).value[before + j] == r.value[j] by {
      SystemLineAt(mols, hasVel, m, j);
      ResultOf(mols, hasVel, m);
    }
    MoleculeLineAt(mols[m], m, before, hasVel, j);
  }

  /** `write_gro` succeeds exactly when the velocity check does and every
      molecule is writable, and then numbers the atoms from 1. */
  lemma WriteGroSpec(mols: seq<Molecule>)
    ensures WriteGro(mols).Ok? <==>
      HasVelocities(mols, 0).Ok? && forall m | 0 <= m < |mols| :: Writable(mols[m].graph, HasVelocities(mols, 0).value)
    ensures WriteGro(mols).Ok? ==> WriteGro(mols).value.title == Title
    ensures WriteGro(mols).Ok? ==> WriteGro(mols).value.count == |WriteGro(mols).value.atoms| == Total(mols, |mols|)
    ensures WriteGro(mols).Ok? ==> forall i | 0 <= i < |WriteGro(mols).value.atoms| :: WriteGro(mols).value.atoms[i].atomid == i + 1
  {
    if HasVelocities(mols, 0).Ok? {
      var hasVel := HasVelocities(mols, 0).value;
      SystemLinesOk(mols, hasVel);
      if SystemLines(mols, hasVel).Ok? {
        SystemLinesLength(mols, hasVel);
        SystemNumbered(mols, hasVel);
      }
    }
  }

  /** In a written file, node `j` of molecule `m` in sorted order has line
      `before + j`, numbered `before + j + 1`, where `before` counts the
      atoms of the molecules before `m`. */
  lemma WriteGroLine(mols: seq<Molecule>, m: nat, j: nat, before: nat)
    requires WriteGro(mols).Ok? && m < |mols| && j < |mols[m].graph.order|
    requires before == Total(mols, m)
    ensures Items(mols[m].graph, m).Ok?
    ensures j < |Sort(Items(mols[m].graph, m).value)|
    ensures before + j < |WriteGro(mols).value.atoms|
    ensures Some(WriteGro(mols).value.atoms[before + j])
         == LineOf(Attrs(mols[m].graph, Sort(Items(mols[m].graph, m).value)[j].node), before + j + 1, HasVelocities(mols, 0).value)
  {
    var hasVel := HasVelocities(mols, 0).value;
    assert WriteGro(mols).value.atoms == SystemLines(mols, hasVel).value;
    SystemLineIs(mols, hasVel, m, j, before);
  }
}
