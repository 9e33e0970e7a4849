/** Writing the GROMACS system topology of a system: molecules that share a
    molecule type are grouped, each type is named after its position and
    written once, and the `[ molecules ]` section lists the molecules in
    their order, as runs of one type. Whether two molecules share a type is
    the `share` parameter (`share(m, rep)` is `m.share_moltype_with(rep)`). */
module Topology {
  import opened Outcome
  import opened Text
  import opened Molecules

  /** `ValueError` for a system without molecules. */
  datatype TopError = NoMolecules

  /** The molecule types found among some molecules: `reps[t]` is the
      index of the molecule that stands for type `t`, and `typeOf[i]` is
      the type of molecule `i`. */
  datatype Grouping = Grouping(reps: seq<nat>, typeOf: seq<nat>)

  type Share = (Molecule, Molecule) -> bool

  // ------------------------------------------------------------ grouping

  /** The first of the types `k`, `k + 1`, ... whose representative `m`
      shares its molecule type with. */
  function FirstShared(mols: seq<Molecule>, share: Share, reps: seq<nat>, m: Molecule, k: nat): (r: Option<nat>)
    requires k <= |reps|
    requires forall t | 0 <= t < |reps| :: reps[t] < |mols|
    ensures r.Some? ==> k <= r.value < |reps| && share(m, mols[reps[r.value]])
    ensures r.Some? ==> forall t | k <= t < r.value :: !share(m, mols[reps[t]])
    ensures r.None? ==> forall t | k <= t < |reps| :: !share(m, mols[reps[t]])
    decreases |reps| - k
  {
    if k == |reps| then None
    else if share(m, mols[reps[k]]) then Some(k)
    else FirstShared(mols, share, reps, m, k + 1)
  }

  /** The loop that deduplicates molecule types, over the first `n`
      molecules: the first molecule starts the first type; every later one
      joins the first type it shares with, or starts a new one. */
  function Group(mols: seq<Molecule>, share: Share, n: nat): (g: Grouping)
    requires 1 <= n <= |mols|
    ensures |g.typeOf| == n
    ensures forall t | 0 <= t < |g.reps| :: g.reps[t] < n
  {
    if n == 1 then Grouping([0], [0])
    else
      var g := Group(mols, share, n - 1);
      match FirstShared(mols, share, g.reps, mols[n - 1], 0)
      case Some(t) => g.(typeOf := g.typeOf + [t])
      case None => Grouping(g.reps + [n - 1], g.typeOf + [|g.reps|])
  }

  /** Type `t` is represented by a molecule of type `t`, later than the
      representatives of all earlier types. */
  predicate RepOk(g: Grouping, t: nat)
    requires t < |g.reps|
  {
    && g.reps[t] < |g.typeOf|
    && g.typeOf[g.reps[t]] == t
    && forall s | 0 <= s < t :: g.reps[s] < g.reps[t]
  }

  /** Molecule `i` is of a type whose representative is no later than it;
      it shares with that representative unless it is the representative;
      and it shares with no representative of an earlier type, all of which
      come before it. */
  predicate MoleculeOk(mols: seq<Molecule>, share: Share, g: Grouping, i: nat)
    requires i < |g.typeOf| <= |mols|
  {
    var t := g.typeOf[i];
    && t < |g.reps|
    && g.reps[t] <= i
    && (g.reps[t] < i ==> share(mols[i], mols[g.reps[t]]))
    && forall s | 0 <= s < t :: g.reps[s] < i && !share(mols[i], mols[g.reps[s]])
  }

  /** What the loop computes over the first `n` molecules, stated
      independently of it. */
  predicate Deduplicates(mols: seq<Molecule>, share: Share, n: nat, g: Grouping) {
    && n <= |mols|
    && |g.typeOf| == n
    && (n > 0 ==> |g.reps| > 0)
    && (forall t | 0 <= t < |g.reps| :: g.reps[t] < n && RepOk(g, t))
    && (forall i | 0 <= i < n :: MoleculeOk(mols, share, g, i))
  }

  /** Facts about representatives and molecules survive extending the
      grouping by later molecules. */
  lemma {:induction false} RepOkExtend(g: Grouping, r: Grouping, t: nat)
    requires g.reps <= r.reps && g.typeOf <= r.typeOf
    requires t < |g.reps| && RepOk(g, t)
    ensures RepOk(r, t)
  {
    assert r.reps[t] == g.reps[t];
    assert r.typeOf[g.reps[t]] == g.typeOf[g.reps[t]];
    forall s | 0 <= s < t ensures r.reps[s] < r.reps[t] {
      assert r.reps[s] == g.reps[s];
    }
  }

  lemma {:induction false} MoleculeOkExtend(mols: seq<Molecule>, share: Share, g: Grouping, r: Grouping, i: nat)
    requires g.reps <= r.reps && g.typeOf <= r.typeOf && |r.typeOf| <= |mols|
    requires i < |g.typeOf| && MoleculeOk(mols, share, g, i)
    ensures MoleculeOk(mols, share, r, i)
  {
    var t := g.typeOf[i];
    assert r.typeOf[i] == t && r.reps[t] == g.reps[t];
    forall s | 0 <= s < t ensures r.reps[s] < i && !share(mols[i], mols[r.reps[s]]) {
      assert r.reps[s] == g.reps[s];
    }
  }

  /** The loop computes a deduplication. */
  lemma {:induction false} GroupDeduplicates(mols: seq<Molecule>, share: Share, n: nat)
    requires 1 <= n <= |mols|
    ensures Deduplicates(mols, share, n, Group(mols, share, n))
  {
    var r := Group(mols, share, n);
    if n == 1 {
      assert RepOk(r, 0);
      assert MoleculeOk(mols, share, r, 0);
    } else {
      GroupDeduplicates(mols, share, n - 1);
      GroupRepsOk(mols, share, n);
      GroupMoleculesOk(mols, share, n);
    }
  }

  /** One step of the loop: molecule `n - 1` joins the first type it
      shares with, or starts a new one. */
  lemma GroupStep(mols: seq<Molecule>, share: Share, n: nat)
    requires 2 <= n <= |mols|
    ensures var g := Group(mols, share, n - 1);
      var found := FirstShared(mols, share, g.reps, mols[n - 1], 0);
      && (found.Some? ==> Group(mols, share, n) == g.(typeOf := g.typeOf + [found.value]))
      && (found.None? ==> Group(mols, share, n) == Grouping(g.reps + [n - 1], g.typeOf + [|g.reps|]))
  { }

  lemma GroupRepsOk(mols: seq<Molecule>, share: Share, n: nat)
    requires 2 <= n <= |mols| && Deduplicates(mols, share, n - 1, Group(mols, share, n - 1))
    ensures forall t | 0 <= t < |Group(mols, share, n).reps| :: RepOk(Group(mols, share, n), t)
  {
    var r := Group(mols, share, n);
    var g := Group(mols, share, n - 1);
    GroupStep(mols, share, n);
    assert g.reps <= r.reps && g.typeOf <= r.typeOf;
    forall t | 0 <= t < |r.reps| ensures RepOk(r, t) {
      if t < |g.reps| {
        RepOkExtend(g, r, t);
      }
    }
  }

  lemma GroupMoleculesOk(mols: seq<Molecule>, share: Share, n: nat)
    requires 2 <= n <= |mols| && Deduplicates(mols, share, n - 1, Group(mols, share, n - 1))
    ensures forall j | 0 <= j < n :: MoleculeOk(mols, share, Group(mols, share, n), j)
  {
    var r := Group(mols, share, n);
    var g := Group(mols, share, n - 1);
    GroupStep(mols, share, n);
    assert g.reps <= r.reps && g.typeOf <= r.typeOf;
    forall j | 0 <= j < n ensures MoleculeOk(mols, share, r, j) {
      if j < n - 1 {
        MoleculeOkExtend(mols, share, g, r, j);
      }
    }
  }

  /** The first `n - 1` molecules' part of a deduplication of `n`. */
  function Restrict(g: Grouping, n: nat): (r: Grouping)
    requires 1 <= n && |g.typeOf| == n
  {
    if |g.reps| > 0 && g.reps[|g.reps| - 1] == n - 1 then Grouping(g.reps[..|g.reps| - 1], g.typeOf[..n - 1])
    else Grouping(g.reps, g.typeOf[..n - 1])
  }

  /** Every representative of a type other than the last molecule's comes
      before the last molecule. */
  lemma {:induction false} RepsBeforeLast(mols: seq<Molecule>, share: Share, n: nat, g: Grouping, t: nat)
    requires 2 <= n && Deduplicates(mols, share, n, g)
    requires t < |g.reps| && (g.reps[|g.reps| - 1] == n - 1 ==> t < |g.reps| - 1)
    ensures g.reps[t] < n - 1
  {
    var last := |g.reps| - 1;
    assert RepOk(g, t) && RepOk(g, last);
    if g.reps[last] == n - 1 {
      assert g.typeOf[g.reps[t]] == t != last == g.typeOf[n - 1];
    } else if t < last {
      assert g.reps[t] < g.reps[last] < n;
    }
  }

  lemma {:induction false} RestrictDeduplicates(mols: seq<Molecule>, share: Share, n: nat, g: Grouping)
    requires 2 <= n && Deduplicates(mols, share, n, g)
    ensures Deduplicates(mols, share, n - 1, Restrict(g, n))
    ensures g.reps[|g.reps| - 1] == n - 1 ==>
      g == Grouping(Restrict(g, n).reps + [n - 1], Restrict(g, n).typeOf + [|Restrict(g, n).reps|])
    ensures g.reps[|g.reps| - 1] != n - 1 ==>
      g == Restrict(g, n).(typeOf := Restrict(g, n).typeOf + [g.typeOf[n - 1]])
  {
    assert Deduplicates(mols, share, n - 1, Restrict(g, n)) by {
      RestrictNonempty(mols, share, n, g);
      RestrictRepsOk(mols, share, n, g);
      RestrictMoleculesOk(mols, share, n, g);
    }
    RestrictSplits(mols, share, n, g);
  }

  /** The first molecule's type survives dropping the last molecule. */
  lemma RestrictNonempty(mols: seq<Molecule>, share: Share, n: nat, g: Grouping)
    requires 2 <= n && Deduplicates(mols, share, n, g)
    ensures |Restrict(g, n).reps| > 0
  {
    assert MoleculeOk(mols, share, g, 0);
    var t := g.typeOf[0];
    var last := |g.reps| - 1;
    if g.reps[last] == n - 1 {
      assert t != last;
    }
  }

  /** The grouping of `n` molecules is that of the first `n - 1` with the
      last molecule's type appended, and its representative when new. */
  lemma RestrictSplits(mols: seq<Molecule>, share: Share, n: nat, g: Grouping)
    requires 2 <= n && Deduplicates(mols, share, n, g)
    ensures g.reps[|g.reps| - 1] == n - 1 ==>
      g == Grouping(Restrict(g, n).reps + [n - 1], Restrict(g, n).typeOf + [|Restrict(g, n).reps|])
    ensures g.reps[|g.reps| - 1] != n - 1 ==>
      g == Restrict(g, n).(typeOf := Restrict(g, n).typeOf + [g.typeOf[n - 1]])
  {
    var r := Restrict(g, n);
    var last := |g.reps| - 1;
    if g.reps[last] == n - 1 {
      assert MoleculeOk(mols, share, g, n - 1) && RepOk(g, last);
      assert g.reps == r.reps + [n - 1];
    }
    assert g.typeOf == r.typeOf + [g.typeOf[n - 1]];
  }

  lemma RestrictRepsOk(mols: seq<Molecule>, share: Share, n: nat, g: Grouping)
    requires 2 <= n && Deduplicates(mols, share, n, g)
    ensures forall t | 0 <= t < |Restrict(g, n).reps| :: Restrict(g, n).reps[t] < n - 1 && RepOk(Restrict(g, n), t)
  {
    var r := Restrict(g, n);
    forall t | 0 <= t < |r.reps| ensures r.reps[t] < n - 1 && RepOk(r, t) {
      RepsBeforeLast(mols, share, n, g, t);
      assert RepOk(g, t);
      assert r.reps[t] == g.reps[t] && r.typeOf[g.reps[t]] == g.typeOf[g.reps[t]];
      forall s | 0 <= s < t ensures r.reps[s] < r.reps[t] {
        assert r.reps[s] == g.reps[s];
      }
    }
  }

  lemma RestrictMoleculesOk(mols: seq<Molecule>, share: Share, n: nat, g: Grouping)
    requires 2 <= n && Deduplicates(mols, share, n, g)
    ensures forall i | 0 <= i < n - 1 :: MoleculeOk(mols, share, Restrict(g, n), i)
  {
    var r := Restrict(g, n);
    var last := |g.reps| - 1;
    var dropped := g.reps[last] == n - 1;
    forall i | 0 <= i < n - 1 ensures MoleculeOk(mols, share, r, i) {
      assert MoleculeOk(mols, share, g, i);
      var t := g.typeOf[i];
      assert dropped ==> t != last by {
        assert dropped ==> g.reps[last] == n - 1 > i;
      }
      assert r.typeOf[i] == t && r.reps[t] == g.reps[t];
      forall s | 0 <= s < t ensures r.reps[s] == g.reps[s] {
      }
    }
  }

  /** One molecule forms one type. */
  lemma {:induction false} DeduplicatesOne(mols: seq<Molecule>, share: Share, g: Grouping)
    requires Deduplicates(mols, share, 1, g)
    ensures g == Grouping([0], [0])
  {
    assert MoleculeOk(mols, share, g, 0);
    assert g.reps[0] >= 0;
    assert RepOk(g, |g.reps| - 1);
    assert g.reps == [0];
  }

  /** In a deduplication the last molecule starts a new type exactly when
      it shares with no earlier representative, and otherwise is of the
      first type it shares with. */
  lemma {:induction false} LastChoice(mols: seq<Molecule>, share: Share, n: nat, g: Grouping)
    requires 2 <= n && Deduplicates(mols, share, n, g)
    ensures var r := Restrict(g, n);
      FirstShared(mols, share, r.reps, mols[n - 1], 0) ==
        if g.reps[|g.reps| - 1] == n - 1 then None else Some(g.typeOf[n - 1])
  {
    RestrictDeduplicates(mols, share, n, g);
    var r := Restrict(g, n);
    var i := n - 1;
    var found := FirstShared(mols, share, r.reps, mols[i], 0);
    assert MoleculeOk(mols, share, g, i);
    var t := g.typeOf[i];
    if g.reps[|g.reps| - 1] == i {
      assert forall s | 0 <= s < |r.reps| :: !share(mols[i], mols[r.reps[s]]);
      assert found.None?;
    } else {
      assert share(mols[i], mols[r.reps[t]]);
      assert forall s | 0 <= s < t :: !share(mols[i], mols[r.reps[s]]);
      assert found == Some(t);
    }
  }

  /** A deduplication is exactly what the loop computes: the independent
      description and the loop agree on every input. */
  lemma {:induction false} DeduplicatesUnique(mols: seq<Molecule>, share: Share, n: nat, g: Grouping)
    requires 1 <= n && Deduplicates(mols, share, n, g)
    ensures g == Group(mols, share, n)
  {
    if n == 1 {
      DeduplicatesOne(mols, share, g);
    } else {
      RestrictDeduplicates(mols, share, n, g);
      DeduplicatesUnique(mols, share, n - 1, Restrict(g, n));
      LastChoice(mols, share, n, g);
    }
  }

  /** No representative shares its type with the representative of an
      earlier type, so each type is written once. */
  lemma {:induction false} RepresentativesDiffer(mols: seq<Molecule>, share: Share, n: nat, g: Grouping, s: nat, t: nat)
    requires Deduplicates(mols, share, n, g)
    requires s < t < |g.reps|
    ensures g.reps[s] < g.reps[t] && !share(mols[g.reps[t]], mols[g.reps[s]])
  {
    assert RepOk(g, t);
    assert MoleculeOk(mols, share, g, g.reps[t]);
  }

  // ------------------------------------------------------------ runs

  /** `itertools.groupby` over names: one entry per run of equal
      consecutive names, with its length. */
  datatype Run = Run(name: string, count: nat)

  function Runs(names: seq<string>): seq<Run> {
    if names == [] then []
    else
      var rest := Runs(names[1..]);
      if rest != [] && rest[0].name == names[0] then [Run(names[0], rest[0].count + 1)] + rest[1..]
      else [Run(names[0], 1)] + rest
  }

  function Repeat(name: string, count: nat): (r: seq<string>)
    ensures |r| == count && forall i | 0 <= i < count :: r[i] == name
  {
    if count == 0 then [] else [name] + Repeat(name, count - 1)
  }

  /** The names a list of runs stands for. */
  function Expand(runs: seq<Run>): seq<string> {
    if runs == [] then [] else Repeat(runs[0].name, runs[0].count) + Expand(runs[1..])
  }

  /** The runs `groupby` can produce: nonempty, and no two neighbours of the
      same name. */
  predicate Canonical(runs: seq<Run>) {
    && (forall k | 0 <= k < |runs| :: runs[k].count >= 1)
    && (forall k | 0 <= k < |runs| - 1 :: runs[k].name != runs[k + 1].name)
  }

  lemma ExpandCons(r: Run, rest: seq<Run>)
    ensures Expand([r] + rest) == Repeat(r.name, r.count) + Expand(rest)
  {
    assert ([r] + rest)[1..] == rest;
  }

  lemma RunsFirst(names: seq<string>)
    requires names != []
    ensures Runs(names) != [] && Runs(names)[0].name == names[0]
  { }

  /** Expanding the runs of a list of names gives back the names. */
  lemma {:induction false} RunsExpand(names: seq<string>)
    ensures Expand(Runs(names)) == names
  {
    if names != [] {
      var x := names[0];
      var tail := names[1..];
      var rest := Runs(tail);
      RunsExpand(tail);
      assert names == [x] + tail;
      if rest != [] && rest[0].name == x {
        RunsMerge(x, tail);
        assert rest == [Run(x, rest[0].count)] + rest[1..];
        ExpandMerged(x, rest[0].count, rest[1..]);
      } else {
        RunsNew(x, tail);
        ExpandCons(Run(x, 1), rest);
        assert Repeat(x, 1) == [x];
      }
    }
  }

  /** A name in front of runs that start with it expands to the same
      names as the lengthened first run. */
  lemma ExpandMerged(x: string, c: nat, tail: seq<Run>)
    ensures Expand([Run(x, c + 1)] + tail) == [x] + Expand([Run(x, c)] + tail)
  {
    ExpandCons(Run(x, c + 1), tail);
    ExpandCons(Run(x, c), tail);
    RepeatCons(x, c);
  }

  lemma RepeatCons(x: string, c: nat)
    ensures Repeat(x, c + 1) == [x] + Repeat(x, c)
  { }

  /** The runs of a list of names are canonical. */
  lemma {:induction false} RunsCanonical(names: seq<string>)
    ensures Canonical(Runs(names))
  {
    if names != [] {
      var rest := Runs(names[1..]);
      RunsCanonical(names[1..]);
      if rest != [] && rest[0].name == names[0] {
        var r := [Run(names[0], rest[0].count + 1)] + rest[1..];
        assert Runs(names) == r;
        assert forall k | 1 <= k < |r| :: r[k] == rest[k];
      } else {
        var r := [Run(names[0], 1)] + rest;
        assert Runs(names) == r;
        assert forall k | 1 <= k < |r| :: r[k] == rest[k - 1];
        if rest != [] {
          RunsFirst(names[1..]);
        }
      }
    }
  }

  /** Expanding the runs gives back the names, and the runs are canonical;
      the first run starts with the first name. */
  lemma RunsSpec(names: seq<string>)
    ensures Expand(Runs(names)) == names
    ensures Canonical(Runs(names))
    ensures names != [] ==> Runs(names) != [] && Runs(names)[0].name == names[0]
  {
    RunsExpand(names);
    RunsCanonical(names);
    if names != [] {
      RunsFirst(names);
    }
  }

  lemma CanonicalTail(runs: seq<Run>)
    requires Canonical(runs) && runs != []
    ensures Canonical(runs[1..])
  {
    assert forall k | 0 <= k < |runs| - 1 :: runs[1..][k] == runs[k + 1];
  }

  /** A name in front of names whose runs start with it lengthens the
      first run. */
  lemma RunsMerge(x: string, names: seq<string>)
    requires Runs(names) != [] && Runs(names)[0].name == x
    ensures Runs([x] + names) == [Run(x, Runs(names)[0].count + 1)] + Runs(names)[1..]
  {
    assert ([x] + names)[1..] == names;
  }

  /** Any other name starts a run of its own. */
  lemma RunsNew(x: string, names: seq<string>)
    requires Runs(names) == [] || Runs(names)[0].name != x
    ensures Runs([x] + names) == [Run(x, 1)] + Runs(names)
  {
    assert ([x] + names)[1..] == names;
  }

  /** Grouping the names of canonical runs gives back the runs. */
  lemma {:induction false} ExpandRuns(runs: seq<Run>)
    requires Canonical(runs)
    ensures Runs(Expand(runs)) == runs
    decreases |runs|, if runs == [] then 0 else runs[0].count
  {
    if runs != [] {
      var h := runs[0];
      if h.count == 1 {
        CanonicalTail(runs);
        ExpandRuns(runs[1..]);
        ExpandSingle(runs);
      } else {
        var shorter := [h.(count := h.count - 1)] + runs[1..];
        assert Canonical(shorter) by {
          assert forall k | 1 <= k < |runs| :: shorter[k] == runs[k];
        }
        ExpandRuns(shorter);
        ExpandLonger(runs, shorter);
      }
    }
  }

  /** A first run of one name, then the rest. */
  lemma ExpandSingle(runs: seq<Run>)
    requires Canonical(runs) && runs != [] && runs[0].count == 1
    requires Runs(Expand(runs[1..])) == runs[1..]
    ensures Runs(Expand(runs)) == runs
  {
    var h := runs[0];
    ExpandCons(h, runs[1..]);
    assert runs == [h] + runs[1..];
    assert Repeat(h.name, 1) == [h.name];
    if |runs| > 1 {
      assert runs[1..][0].name == runs[1].name != h.name;
    }
    RunsNew(h.name, Expand(runs[1..]));
    assert Expand(runs) == [h.name] + Expand(runs[1..]);
    assert h == Run(h.name, 1);
  }

  /** A first run of more than one name is one name before the same runs
      with that run shortened. */
  lemma ExpandLonger(runs: seq<Run>, shorter: seq<Run>)
    requires runs != [] && runs[0].count > 1
    requires shorter == [runs[0].(count := runs[0].count - 1)] + runs[1..]
    requires Runs(Expand(shorter)) == shorter
    ensures Runs(Expand(runs)) == runs
  {
    var h := runs[0];
    var e := Expand(shorter);
    assert Expand(runs) == [h.name] + e by {
      ExpandShorter(runs, shorter);
    }
    RunsMerge(h.name, e);
    assert Run(h.name, shorter[0].count + 1) == h;
    assert shorter[1..] == runs[1..];
    assert runs == [h] + runs[1..];
  }

  /** One name off the first run of more than one. */
  lemma ExpandShorter(runs: seq<Run>, shorter: seq<Run>)
    requires runs != [] && runs[0].count > 1
    requires shorter == [runs[0].(count := runs[0].count - 1)] + runs[1..]
    ensures Expand(runs) == [runs[0].name] + Expand(shorter)
  {
    var h := runs[0];
    ExpandCons(h, runs[1..]);
    ExpandCons(shorter[0], runs[1..]);
    assert Repeat(h.name, h.count) == [h.name] + Repeat(h.name, h.count - 1);
    assert runs == [h] + runs[1..];
  }

  function TotalCount(runs: seq<Run>): nat {
    if runs == [] then 0 else runs[0].count + TotalCount(runs[1..])
  }

  /** The counts of the runs add up to the number of names. */
  lemma {:induction false} ExpandLength(runs: seq<Run>)
    ensures |Expand(runs)| == TotalCount(runs)
  {
    if runs != [] {
      ExpandLength(runs[1..]);
    }
  }

  // ------------------------------------------------------------ text

  /** The name of molecule type `t`: `'molecule_{}'.format(t)`. */
  function TypeName(t: nat): string {
    "molecule_" + NatToString(t)
  }

  /** Different types get different names, so no file is written twice. */
  lemma {:induction false} TypeNameInjective(s: nat, t: nat)
    requires TypeName(s) == TypeName(t)
    ensures s == t
  {
    assert TypeName(s)[9..] == NatToString(s);
    assert TypeName(t)[9..] == NatToString(t);
    NatToStringInjective(s, t);
  }

  function Spaces(n: nat): (r: string)
    ensures |r| == n && forall i | 0 <= i < n :: r[i] == ' '
  {
    if n == 0 then [] else [' '] + Spaces(n - 1)
  }

  /** `'{:<{w}}'.format(s)`: `s` padded with spaces on the right to width
      `w`, never cut. */
  function PadRight(s: string, w: nat): string {
    if |s| >= w then s else s + Spaces(w - |s|)
  }

  /** The length of the longest name, 0 for none. */
  function MaxLength(names: seq<string>): (m: nat)
    ensures forall k | 0 <= k < |names| :: |names[k]| <= m
    ensures names != [] ==> exists k | 0 <= k < |names| :: |names[k]| == m
  {
    if names == [] then 0
    else
      var m := MaxLength(names[1..]);
      assert forall k | 1 <= k < |names| :: names[k] == names[1..][k - 1];
      if |names[0]| >= m then |names[0]| else m
  }

  /** One line of the `[ molecules ]` section: `'{mtype:<{length}}    {num}'`. */
  function ListingLine(run: Run, width: nat): string {
    PadRight(run.name, width) + "    " + NatToString(run.count)
  }

  /** A line for a name no longer than the width keeps the name in the
      first `width` columns, padded with spaces, then four spaces, then the
      count, which reads back as the count. */
  lemma {:induction false} ListingLineFormat(run: Run, width: nat)
    requires |run.name| <= width
    ensures var line := ListingLine(run, width);
      && |line| > width + 4
      && line[..|run.name|] == run.name
      && (forall i | |run.name| <= i < width + 4 :: line[i] == ' ')
      && IsDecimal(line[width + 4..]) && DecimalValue(line[width + 4..]) == run.count
  {
    var line := ListingLine(run, width);
    var pad := PadRight(run.name, width);
    assert |pad| == width;
    NatToStringRoundTrip(run.count);
    assert line[width + 4..] == NatToString(run.count);
    assert line[..|run.name|] == pad[..|run.name|] == run.name;
    forall i | |run.name| <= i < width + 4 ensures line[i] == ' ' {
      if i < width {
        assert line[i] == pad[i];
      } else {
        assert line[i] == "    "[i - width];
      }
    }
  }

  /** The lines of the topology file. */
  function TopLines(includes: seq<string>, listing: seq<string>): seq<string> {
    ["#include \"martini.itp\""] + includes
    + ["", "[ system ]", "Title of the system", "", "[ molecules ]"] + listing
  }

  // ------------------------------------------------------------ writer

  /** A molecule-type file to write: its name and the molecule written. */
  datatype Itp = Itp(file: string, molecule: Molecule)

  /** What `write_gmx_topology` produces: the system's molecules (the
      representatives renamed in place), one file per molecule type, and
      the lines of the topology file. */
  datatype Written = Written(molecules: seq<Molecule>, itps: seq<Itp>, top: seq<string>)

  /** Every molecule of a grouping has a type, and every type a
      representative among the molecules. */
  predicate Shaped(n: nat, g: Grouping) {
    && |g.typeOf| == n
    && (forall t | 0 <= t < |g.reps| :: g.reps[t] < n)
    && (forall i | 0 <= i < n :: g.typeOf[i] < |g.reps|)
  }

  /** Molecule `m` named after type `t`. */
  function Named(m: Molecule, t: nat): Molecule {
    m.(moltype := Some(TypeName(t)))
  }

  /** The molecules after the renaming loop: each representative takes its
      type's name. */
  function Renamed(mols: seq<Molecule>, g: Grouping): (r: seq<Molecule>)
    requires Shaped(|mols|, g)
  {
    seq(|mols|, i requires 0 <= i < |mols| =>
      if g.reps[g.typeOf[i]] == i then Named(mols[i], g.typeOf[i]) else mols[i])
  }

  /** The type name of every molecule, in the order of the system (the
      `molecule_to_type` dictionary). */
  function MoleculeNames(g: Grouping): seq<string> {
    seq(|g.typeOf|, i requires 0 <= i < |g.typeOf| => TypeName(g.typeOf[i]))
  }

  function TypeNames(count: nat): seq<string> {
    seq(count, t requires 0 <= t < count => TypeName(t))
  }

  function Includes(count: nat): seq<string> {
    seq(count, t requires 0 <= t < count => "#include \"" + TypeName(t) + ".itp\"")
  }

  function Listing(runs: seq<Run>, width: nat): seq<string> {
    seq(|runs|, k requires 0 <= k < |runs| => ListingLine(runs[k], width))
  }

  function Output(mols: seq<Molecule>, g: Grouping): Written
    requires Shaped(|mols|, g)
  {
    var renamed := Renamed(mols, g);
    Written(renamed,
            seq(|g.reps|, t requires 0 <= t < |g.reps| => Itp(TypeName(t) + ".itp", renamed[g.reps[t]])),
            TopLines(Includes(|g.reps|), Listing(Runs(MoleculeNames(g)), MaxLength(TypeNames(|g.reps|)))))
  }

  /** `write_gmx_topology`, without the file writes: what each file would
      hold. */
  function WriteGmxTopology(mols: seq<Molecule>, share: Share): (r: Result<Written, TopError>)
    ensures r.Err? <==> mols == []
  {
    if mols == [] then Err(NoMolecules)
    else
      var g := Group(mols, share, |mols|);
      GroupShaped(mols, share, |mols|);
      Ok(Output(mols, g))
  }

  lemma {:induction false} GroupShaped(mols: seq<Molecule>, share: Share, n: nat)
    requires 1 <= n <= |mols|
    ensures Shaped(n, Group(mols, share, n))
  {
    var g := Group(mols, share, n);
    GroupDeduplicates(mols, share, n);
    forall i | 0 <= i < n ensures g.typeOf[i] < |g.reps| {
      assert MoleculeOk(mols, share, g, i);
    }
  }

  /** A longer number never prints shorter. */
  lemma {:induction false} NatToStringLengthMonotone(m: nat, n: nat)
    requires m <= n
    ensures |NatToString(m)| <= |NatToString(n)|
  {
    if m >= 10 {
      NatToStringLengthMonotone(m / 10, n / 10);
    }
  }

  /** The widest type name is the last one's. */
  lemma {:induction false} WidestName(count: nat)
    requires count >= 1
    ensures MaxLength(TypeNames(count)) == |TypeName(count - 1)|
  {
    var names := TypeNames(count);
    assert names[count - 1] == TypeName(count - 1);
    forall k | 0 <= k < count ensures |names[k]| <= |TypeName(count - 1)| {
      NatToStringLengthMonotone(k, count - 1);
    }
  }

  /** The topology of a system of molecules. The types are those of the
      deduplication `g` (the only one, by `DeduplicatesUnique`): type `t` is
      written once, to `molecule_t.itp`, from its representative renamed
      `molecule_t`; representatives are renamed in the system and every
      other molecule is left alone; the file includes every type in order
      and lists the molecules' type names as canonical runs, padded to the
      width of the last type's name. */
  lemma {:induction false} WriteGmxTopologySpec(mols: seq<Molecule>, share: Share, g: Grouping)
    requires mols != [] && Deduplicates(mols, share, |mols|, g)
    ensures WriteGmxTopology(mols, share).Ok?
    ensures var w := WriteGmxTopology(mols, share).value;
      && |w.itps| == |g.reps|
      && (forall t | 0 <= t < |g.reps| :: w.itps[t] == Itp(TypeName(t) + ".itp", Named(mols[g.reps[t]], t)))
      && |w.molecules| == |mols|
      && (forall t | 0 <= t < |g.reps| :: w.molecules[g.reps[t]] == Named(mols[g.reps[t]], t))
      && (forall i | 0 <= i < |mols| && i !in g.reps :: w.molecules[i] == mols[i])
  {
    DeduplicatesUnique(mols, share, |mols|, g);
    GroupShaped(mols, share, |mols|);
    var w := Output(mols, g);
    assert WriteGmxTopology(mols, share) == Ok(w);
    forall t | 0 <= t < |g.reps| ensures w.molecules[g.reps[t]] == Named(mols[g.reps[t]], t) {
      assert RepOk(g, t);
    }
    forall i | 0 <= i < |mols| && i !in g.reps ensures w.molecules[i] == mols[i] {
      assert g.reps[g.typeOf[i]] in g.reps;
    }
  }

  /** The topology file: the force field include, one include per type in
      order, the system title, and one line per run of molecules of one
      type; expanding the runs gives each molecule's type name in the
      order of the system, and the names are padded to the width of the
      last type's name. */
  lemma {:induction false} TopologyFileSpec(mols: seq<Molecule>, share: Share, g: Grouping)
    requires mols != [] && Deduplicates(mols, share, |mols|, g)
    ensures WriteGmxTopology(mols, share).Ok?
    ensures var runs := Runs(MoleculeNames(g));
      && Expand(runs) == MoleculeNames(g)
      && Canonical(runs)
      && (forall k | 0 <= k < |runs| :: |runs[k].name| <= |TypeName(|g.reps| - 1)|)
      && WriteGmxTopology(mols, share).value.top
         == TopLines(Includes(|g.reps|), Listing(runs, |TypeName(|g.reps| - 1)|))
  {
    assert Group(mols, share, |mols|) == g by {
      DeduplicatesUnique(mols, share, |mols|, g);
      GroupDeduplicates(mols, share, |mols|);
    }
    RunsSpec(MoleculeNames(g));
    WidestName(|g.reps|);
    RunNamesFit(mols, share, g);
  }

  /** No run's name is longer than the name of the last type. */
  lemma RunNamesFit(mols: seq<Molecule>, share: Share, g: Grouping)
    requires mols != [] && Deduplicates(mols, share, |mols|, g)
    ensures var runs := Runs(MoleculeNames(g));
      forall k | 0 <= k < |runs| :: |runs[k].name| <= |TypeName(|g.reps| - 1)|
  {
    var runs := Runs(MoleculeNames(g));
    forall k | 0 <= k < |runs| ensures |runs[k].name| <= |TypeName(|g.reps| - 1)| {
      RunNameIn(MoleculeNames(g), k);
      var i :| 0 <= i < |mols| && runs[k].name == TypeName(g.typeOf[i]);
      assert MoleculeOk(mols, share, g, i);
      NatToStringLengthMonotone(g.typeOf[i], |g.reps| - 1);
    }
  }

  /** Every run is named after one of the names. */
  lemma {:induction false} RunNameIn(names: seq<string>, k: nat)
    requires k < |Runs(names)|
    ensures Runs(names)[k].name in names
  {
    RunsSpec(names);
    var runs := Runs(names);
    ExpandAt(runs, k);
  }

  /** A canonical run's name occurs in the expansion. */
  lemma {:induction false} ExpandAt(runs: seq<Run>, k: nat)
    requires k < |runs| && runs[k].count >= 1
    ensures runs[k].name in Expand(runs)
  {
    if k == 0 {
      assert Expand(runs)[0] == Repeat(runs[0].name, runs[0].count)[0];
    } else {
      ExpandAt(runs[1..], k - 1);
    }
  }
}
