/** The reader of GROMACS `.gro` coordinate files: a title line, the atom
    count, then fixed-width atom lines whose layout (the precision of the
    coordinates and whether velocities follow) is read off the first atom
    line, and a final box line. Number conversion is given as partial
    parsers, and the first letter of an atom name as a function. */
module GroRead {
  import opened Outcome
  import opened Text
  import opened Molecules

  /** The conversions the reader delegates: `int(s)` and `float(s)` (`None`
      when they raise `ValueError`), and `str.isalpha` on one character. */
  datatype Parsers = Parsers(toInt: string -> Option<int>, toReal: string -> Option<real>, isAlpha: char -> bool)

  /** `first_alpha(s)`: the first letter of `s`, as a one-character string;
      `None` where it raises `ValueError`, on a string without letters. */
  function FirstAlpha(s: string, isAlpha: char -> bool): Option<string> {
    if s == [] then None
    else if isAlpha(s[0]) then Some([s[0]])
    else FirstAlpha(s[1..], isAlpha)
  }

  /** `first_alpha` fails exactly on a string without letters, and
      otherwise gives the letter at the first position that has one. */
  lemma {:induction false} FirstAlphaSpec(s: string, isAlpha: char -> bool)
    ensures FirstAlpha(s, isAlpha).None? <==> forall i | 0 <= i < |s| :: !isAlpha(s[i])
    ensures FirstAlpha(s, isAlpha).Some? ==> exists i | 0 <= i < |s| ::
      FirstAlpha(s, isAlpha) == Some([s[i]]) && isAlpha(s[i]) && forall j | 0 <= j < i :: !isAlpha(s[j])
    decreases |s|
  {
    if s != [] && !isAlpha(s[0]) {
      FirstAlphaSpec(s[1..], isAlpha);
      if FirstAlpha(s, isAlpha).Some? {
        var i :| 0 <= i < |s[1..]| && FirstAlpha(s[1..], isAlpha) == Some([s[1..][i]]) && isAlpha(s[1..][i])
          && forall j | 0 <= j < i :: !isAlpha(s[1..][j]);
        assert forall j | 0 <= j < i + 1 :: !isAlpha(s[j]) by {
          forall j | 0 <= j < i + 1 ensures !isAlpha(s[j]) {
            if j > 0 { assert s[j] == s[1..][j - 1]; }
          }
        }
        assert FirstAlpha(s, isAlpha) == Some([s[i + 1]]) && isAlpha(s[i + 1]);
      }
    }
  }

  /** `StopIteration` on a file too short for its header and first atom
      line, `ValueError` on the count line, on an atom line that is not
      the box line, or on a parsed atom name without a letter, and
      `KeyError` when a kept record has no coordinates. */
  datatype GroError = Truncated | BadCount | BadField(line: nat) | NoLetter(line: nat) | NoCoordinates(line: nat)

  // ------------------------------------------------------------ layout

  /** A column range `[start, end)` of a line. */
  datatype Span = Span(start: nat, end: nat)

  function Abs(w: int): nat {
    if w < 0 then -w else w
  }

  /** The slices of a list of field widths, laid out from column `start`:
      a positive width takes that many columns, any other width skips its
      absolute value. */
  function Spans(widths: seq<int>, start: nat): seq<Span> {
    if widths == [] then []
    else
      (if widths[0] > 0 then [Span(start, start + widths[0])] else [])
      + Spans(widths[1..], start + Abs(widths[0]))
  }

  /** `[w] * m` */
  function Copies<T>(w: T, m: nat): (r: seq<T>)
    ensures |r| == m && forall j | 0 <= j < m :: r[j] == w
  {
    seq(m, j requires 0 <= j < m => w)
  }

  /** Three coordinates, and three velocities when present. */
  function RealFields(hasVel: bool): nat {
    if hasVel then 6 else 3
  }

  /** The field widths: resid, resname, atomname and atomid five columns
      each, then three coordinates of `precision` columns, and three
      velocities as wide when present. */
  function Widths(precision: int, hasVel: bool): seq<int> {
    [5, 5, 5, 5] + Copies(precision, RealFields(hasVel))
  }

  /** The columns the widths before field `k` take or skip. */
  function SumAbs(widths: seq<int>): nat {
    if widths == [] then 0 else Abs(widths[0]) + SumAbs(widths[1..])
  }

  /** The number of positive widths, that is, of slices. */
  function CountPositive(widths: seq<int>): nat {
    if widths == [] then 0 else (if widths[0] > 0 then 1 else 0) + CountPositive(widths[1..])
  }

  lemma {:induction false} SumsAppend(a: seq<int>, b: seq<int>)
    ensures SumAbs(a + b) == SumAbs(a) + SumAbs(b)
    ensures CountPositive(a + b) == CountPositive(a) + CountPositive(b)
  {
    if a == [] {
      assert a + b == b;
    } else {
      assert (a + b)[1..] == a[1..] + b;
      SumsAppend(a[1..], b);
    }
  }

  lemma {:induction false} SpansAppend(a: seq<int>, b: seq<int>, start: nat)
    ensures Spans(a + b, start) == Spans(a, start) + Spans(b, start + SumAbs(a))
  {
    if a == [] {
      assert a + b == b;
    } else {
      assert (a + b)[1..] == a[1..] + b;
      SpansAppend(a[1..], b, start + Abs(a[0]));
    }
  }

  /** There is one slice per positive width. */
  lemma {:induction false} SpansCount(widths: seq<int>, start: nat)
    ensures |Spans(widths, start)| == CountPositive(widths)
  {
    if widths != [] {
      SpansCount(widths[1..], start + Abs(widths[0]));
    }
  }

  /** Slices are laid out left to right: a positive width `k` gets the
      slice numbered by the positive widths before it, starting after all
      the columns the earlier widths take or skip. */
  lemma {:induction false} SpanOfWidth(widths: seq<int>, start: nat, k: nat)
    requires k < |widths| && widths[k] > 0
    ensures var before := widths[..k];
      && CountPositive(before) < |Spans(widths, start)|
      && Spans(widths, start)[CountPositive(before)]
         == Span(start + SumAbs(before), start + SumAbs(before) + widths[k])
  {
    var before := widths[..k];
    assert widths == before + widths[k..];
    SpansAppend(before, widths[k..], start);
    SpansCount(before, start);
    SpansCount(widths, start);
    SumsAppend(before, widths[k..]);
    var rest := Spans(widths[k..], start + SumAbs(before));
    assert widths[k..][0] == widths[k];
    assert rest[0] == Span(start + SumAbs(before), start + SumAbs(before) + widths[k]);
  }

  /** Widths that are not positive make no slice. */
  lemma {:induction false} SkippedWidth(widths: seq<int>, start: nat)
    requires forall k | 0 <= k < |widths| :: widths[k] <= 0
    ensures Spans(widths, start) == []
  {
    if widths != [] {
      SkippedWidth(widths[1..], start + Abs(widths[0]));
    }
  }

  /** `m` slices of `p > 0` columns each, side by side. */
  lemma {:induction false} SpansOfCopies(p: int, m: nat, start: nat)
    requires p > 0
    ensures var s := Spans(Copies(p, m), start);
      && |s| == m
      && forall j | 0 <= j < m :: s[j] == Span(start + p * j, start + p * j + p)
  {
    if m > 0 {
      var c := Copies(p, m);
      assert c[1..] == Copies(p, m - 1);
      SpansOfCopies(p, m - 1, start + p);
      var s := Spans(c, start);
      var rest := Spans(c[1..], start + p);
      assert s == [Span(start, start + p)] + rest;
      forall j | 1 <= j < m ensures s[j] == Span(start + p * j, start + p * j + p) {
        assert s[j] == rest[j - 1];
        assert start + p + p * (j - 1) == start + p * j;
      }
    }
  }

  /** The layout of an atom line: the four five-column fields from column
      0, then, for a positive precision, one slice of that many columns per
      coordinate and velocity, side by side from column 20; a precision
      that is not positive leaves only the first four fields. */
  lemma {:induction false} LayoutColumns(layout: Layout)
    ensures var s := SpansOf(layout);
      var p := layout.precision;
      && |s| >= 4
      && s[..4] == [Span(0, 5), Span(5, 10), Span(10, 15), Span(15, 20)]
      && (p > 0 ==> |s| == 4 + RealFields(layout.hasVel))
      && (p > 0 ==> forall j | 0 <= j < RealFields(layout.hasVel) :: s[4 + j] == Span(20 + p * j, 20 + p * j + p))
      && (p <= 0 ==> |s| == 4)
  {
    var p := layout.precision;
    var m := RealFields(layout.hasVel);
    var head: seq<int> := [5, 5, 5, 5];
    SpansAppend(head, Copies(p, m), 0);
    assert SumAbs(head) == 20;
    assert Spans(head, 0) == [Span(0, 5), Span(5, 10), Span(10, 15), Span(15, 20)];
    if p > 0 {
      SpansOfCopies(p, m, 20);
    } else {
      SkippedWidth(Copies(p, m), 20);
    }
  }

  /** What the first atom line tells the reader. */
  datatype Layout = Layout(hasVel: bool, precision: int)

  /** Velocities are present when the first atom line has exactly six
      dots; the precision is the distance from the first dot at or after
      column 25 to the next dot. */
  function LayoutOf(first: string): Layout {
    var firstDot := Find(first, '.', 25);
    var secondDot := Find(first, '.', (firstDot + 1) as nat);
    Layout(Count(first, '.') == 6, secondDot - firstDot)
  }

  function SpansOf(layout: Layout): seq<Span> {
    Spans(Widths(layout.precision, layout.hasVel), 0)
  }

  // ------------------------------------------------------------ fields

  datatype Kind = IntField | StrField | RealField

  datatype Value = IntV(i: int) | StrV(s: string) | RealV(r: real)

  predicate Fits(v: Value, kind: Kind) {
    match kind
    case IntField => v.IntV?
    case StrField => v.StrV?
    case RealField => v.RealV?
  }

  /** resid, resname, atomname, atomid, x, y, z, and vx, vy, vz with
      velocities. */
  function Kinds(hasVel: bool): (r: seq<Kind>)
    ensures |r| == 4 + RealFields(hasVel)
    ensures r[0] == IntField && r[1] == StrField && r[2] == StrField && r[3] == IntField
    ensures forall k | 4 <= k < |r| :: r[k] == RealField
  {
    [IntField, StrField, StrField, IntField] + Copies(RealField, RealFields(hasVel))
  }

  /** `line[start:end]`, clamped to the line as Python slices are. */
  function Cut(line: string, span: Span): string {
    var lo := if span.start <= |line| then span.start else |line|;
    var hi := if span.end <= |line| then span.end else |line|;
    if lo <= hi then line[lo..hi] else []
  }

  /** One field: the stripped text of its columns, converted. */
  function Convert(kind: Kind, text: string, ps: Parsers): (r: Option<Value>)
    ensures r.Some? ==> Fits(r.value, kind)
    ensures kind == StrField ==> r == Some(StrV(text))
  {
    match kind
    case IntField => (match ps.toInt(text) case Some(i) => Some(IntV(i)) case None => None)
    case StrField => Some(StrV(text))
    case RealField => (match ps.toReal(text) case Some(x) => Some(RealV(x)) case None => None)
  }

  function FieldCount(layout: Layout): nat {
    var k := |Kinds(layout.hasVel)|;
    var s := |SpansOf(layout)|;
    if k <= s then k else s
  }

  lemma {:induction false} FourFields(layout: Layout)
    ensures FieldCount(layout) >= 4
  {
    FieldCountSpec(layout);
  }

  /** Every line has its four text and integer fields; the coordinates
      (and velocities) come with a positive precision only. */
  lemma {:induction false} FieldCountSpec(layout: Layout)
    ensures FieldCount(layout) == if layout.precision > 0 then |Kinds(layout.hasVel)| else 4
  {
    LayoutColumns(layout);
  }

  /** The conversion of field `k` of a line. */
  function FieldAt(line: string, layout: Layout, ps: Parsers, k: nat): Option<Value>
    requires k < FieldCount(layout)
  {
    Convert(Kinds(layout.hasVel)[k], Strip(Cut(line, SpansOf(layout)[k])), ps)
  }

  /** The fields of a line, as many as there are both names and slices
      (`zip` stops at the shorter), or `None` when one does not convert. */
  function ParseFields(line: string, layout: Layout, ps: Parsers): (r: Option<seq<Value>>)
    ensures r.Some? <==> forall k | 0 <= k < FieldCount(layout) :: FieldAt(line, layout, ps, k).Some?
    ensures r.Some? ==> |r.value| == FieldCount(layout)
    ensures r.Some? ==> forall k | 0 <= k < FieldCount(layout) :: r.value[k] == FieldAt(line, layout, ps, k).value
    ensures r.Some? ==> forall k | 0 <= k < FieldCount(layout) :: Fits(r.value[k], Kinds(layout.hasVel)[k])
  {
    var n := FieldCount(layout);
    if forall k | 0 <= k < n :: FieldAt(line, layout, ps, k).Some? then
      Some(seq(n, k requires 0 <= k < n => FieldAt(line, layout, ps, k).value))
    else None
  }

  // ------------------------------------------------------------ records

  /** What the loop does with one atom line: stop (the box line), fail,
      skip an excluded record, or keep an atom. */
  datatype LineOutcome = Stop | Fail(error: GroError) | Skip | Keep(atom: Atom)

  /** The node attributes of a record: its fields, the element from the
      atom name, an empty chain, the position and, with velocities, the
      velocity. */
  function RecordAtom(v: seq<Value>, hasVel: bool, element: string): Atom
    requires |v| == |Kinds(hasVel)|
    requires forall k | 0 <= k < |v| :: Fits(v[k], Kinds(hasVel)[k])
  {
    assert Fits(v[0], Kinds(hasVel)[0]) && Fits(v[1], Kinds(hasVel)[1]);
    assert Fits(v[2], Kinds(hasVel)[2]) && Fits(v[3], Kinds(hasVel)[3]);
    assert forall k | 4 <= k < |v| :: v[k].RealV? by {
      forall k | 4 <= k < |v| ensures v[k].RealV? {
        assert Fits(v[k], Kinds(hasVel)[k]);
      }
    }
    Atom(
      element := Some(element),
      atomname := Some(v[2].s),
      resname := Some(v[1].s),
      resid := Some(v[0].i),
      chain := Some(""),
      molIdx := None,
      position := Some(Vec3(v[4].r, v[5].r, v[6].r)),
      velocity := if hasVel then Some(Vec3(v[7].r, v[8].r, v[9].r)) else None,
      atomid := Some(v[3].i),
      charge := None,
      chargeGroup := None,
      atype := None)
  }

  /** One iteration of the reading loop on atom line `k`, given the atom
      count `count`, the excluded residue names and the hydrogen switch. */
  function LineResult(line: string, k: nat, count: int, layout: Layout, ps: Parsers, exclude: seq<string>, ignh: bool): LineOutcome {
    match ParseFields(line, layout, ps)
    case None => if k == count then Stop else Fail(BadField(k))
    case Some(v) =>
      var kinds := Kinds(layout.hasVel);
      FourFields(layout);
      assert Fits(v[1], kinds[1]) && Fits(v[2], kinds[2]);
      var element := FirstAlpha(v[2].s, ps.isAlpha);
      if element.None? then Fail(NoLetter(k))
      else if v[1].s in exclude || (ignh && element == Some("H")) then Skip
      else if |v| < |kinds| then Fail(NoCoordinates(k))
      else Keep(RecordAtom(v, layout.hasVel, element.value))
  }

  // ------------------------------------------------------------ the loop

  /** The reader between two lines: still reading, or past the box line. */
  datatype ReadState = Reading(atoms: seq<Atom>) | Stopped(atoms: seq<Atom>)

  function Step(st: ReadState, out: LineOutcome): Result<ReadState, GroError> {
    if st.Stopped? then Ok(st)
    else
      match out
      case Stop => Ok(Stopped(st.atoms))
      case Fail(e) => Err(e)
      case Skip => Ok(st)
      case Keep(a) => Ok(Reading(st.atoms + [a]))
  }

  /** The loop over the first `n` atom lines. */
  function Loop(outs: seq<LineOutcome>, n: nat): Result<ReadState, GroError>
    requires n <= |outs|
  {
    if n == 0 then Ok(Reading([]))
    else
      var st :- Loop(outs, n - 1);
      Step(st, outs[n - 1])
  }

  /** The molecule of the kept atoms, numbered from 0 in file order. */
  function MoleculeOf(atoms: seq<Atom>): Molecule {
    Molecule(Graph(seq(|atoms|, i requires 0 <= i < |atoms| => i as NodeId),
                   map i: NodeId | i < |atoms| :: atoms[i],
                   {}),
             map[], None, map[])
  }

  /** `read_gro` over the lines of a file. */
  function ReadGro(lines: seq<string>, exclude: seq<string>, ignh: bool, ps: Parsers): Result<Molecule, GroError> {
    if |lines| < 2 then Err(Truncated)
    else
      match ps.toInt(lines[1])
      case None => Err(BadCount)
      case Some(count) =>
        if |lines| < 3 then Err(Truncated)
        else
          var layout := LayoutOf(lines[2]);
          var outs := Outcomes(lines[2..], count, layout, ps, exclude, ignh);
          var st :- Loop(outs, |outs|);
          Ok(MoleculeOf(st.atoms))
  }

  function Outcomes(atomLines: seq<string>, count: int, layout: Layout, ps: Parsers, exclude: seq<string>, ignh: bool): (r: seq<LineOutcome>)
    ensures |r| == |atomLines|
  {
    seq(|atomLines|, k requires 0 <= k < |atomLines| => LineResult(atomLines[k], k, count, layout, ps, exclude, ignh))
  }

  // ------------------------------------------------------------ reference

  /** The first line among the first `n` that ends the loop (the box line
      or a failure). */
  function FirstEnd(outs: seq<LineOutcome>, n: nat): (r: Option<nat>)
    requires n <= |outs|
    ensures r.Some? ==> r.value < n && (outs[r.value].Stop? || outs[r.value].Fail?)
    ensures r.Some? ==> forall k | 0 <= k < r.value :: !outs[k].Stop? && !outs[k].Fail?
    ensures r.None? <==> forall k | 0 <= k < n :: !outs[k].Stop? && !outs[k].Fail?
  {
    if n == 0 then None
    else if FirstEnd(outs, n - 1).Some? then FirstEnd(outs, n - 1)
    else if outs[n - 1].Stop? || outs[n - 1].Fail? then Some(n - 1)
    else None
  }

  /** The atoms kept among the first `n` lines, in order. */
  function Kept(outs: seq<LineOutcome>, n: nat): seq<Atom>
    requires n <= |outs|
  {
    if n == 0 then []
    else Kept(outs, n - 1) + (if outs[n - 1].Keep? then [outs[n - 1].atom] else [])
  }

  /** The loop fails exactly when the first line that ends it is a failure,
      with that failure; otherwise it holds the atoms kept before that line
      (or before the end) and has stopped exactly when such a line exists. */
  lemma {:induction false} LoopSpec(outs: seq<LineOutcome>, n: nat)
    requires n <= |outs|
    ensures Loop(outs, n).Err? <==> FirstEnd(outs, n).Some? && outs[FirstEnd(outs, n).value].Fail?
    ensures Loop(outs, n).Err? ==> Loop(outs, n).error == outs[FirstEnd(outs, n).value].error
    ensures Loop(outs, n).Ok? ==> (Loop(outs, n).value.Stopped? <==> FirstEnd(outs, n).Some?)
    ensures Loop(outs, n).Ok? ==>
      Loop(outs, n).value.atoms == Kept(outs, if FirstEnd(outs, n).Some? then FirstEnd(outs, n).value else n)
  {
    if n > 0 {
      LoopSpec(outs, n - 1);
    }
  }

  /** The first line that ends the loop, and the atoms kept before a
      point, do not depend on the lines after it. */
  lemma {:induction false} PrefixIndependent(outs: seq<LineOutcome>, more: seq<LineOutcome>, n: nat)
    requires n <= |outs|
    ensures FirstEnd(outs + more, n) == FirstEnd(outs, n)
    ensures Kept(outs + more, n) == Kept(outs, n)
  {
    if n > 0 {
      PrefixIndependent(outs, more, n - 1);
      assert (outs + more)[n - 1] == outs[n - 1];
    }
  }

  /** Once a line has ended the loop, later lines change nothing. */
  lemma {:induction false} FirstEndSettled(outs: seq<LineOutcome>, n: nat, m: nat)
    requires n <= m <= |outs| && FirstEnd(outs, n).Some?
    ensures FirstEnd(outs, m) == FirstEnd(outs, n)
  {
    if m > n {
      FirstEndSettled(outs, n, m - 1);
    }
  }

  /** The index of the line the `i`-th kept atom comes from: exactly `i`
      atoms are kept before it, so kept atoms are in file order. */
  function KeptSource(outs: seq<LineOutcome>, n: nat, i: nat): (k: nat)
    requires n <= |outs| && i < |Kept(outs, n)|
    ensures k < n && outs[k] == Keep(Kept(outs, n)[i])
    ensures |Kept(outs, k)| == i
  {
    if i < |Kept(outs, n - 1)| then
      assert Kept(outs, n)[i] == Kept(outs, n - 1)[i];
      KeptSource(outs, n - 1, i)
    else n - 1
  }

  /** A kept record has an empty chain, the element of its atom name, a
      residue name that is not excluded, is no hydrogen when hydrogens are
      ignored, and has a position, and a velocity exactly when the layout
      has velocities; keeping needs a positive precision. */
  lemma {:induction false} KeepFacts(line: string, k: nat, count: int, layout: Layout, ps: Parsers,
                                     exclude: seq<string>, ignh: bool, a: Atom)
    requires LineResult(line, k, count, layout, ps, exclude, ignh) == Keep(a)
    ensures a.chain == Some("") && a.atomname.Some? && a.element == FirstAlpha(a.atomname.value, ps.isAlpha)
    ensures a.resname.Some? && a.resname.value !in exclude
    ensures ignh ==> a.element != Some("H")
    ensures a.position.Some? && (a.velocity.Some? <==> layout.hasVel)
    ensures a.resid.Some? && a.atomid.Some?
    ensures layout.precision > 0
  {
    var v, e := KeptRecord(line, k, count, layout, ps, exclude, ignh, a);
    FieldCountSpec(layout);
  }

  /** The record and the element a kept atom is built from. */
  lemma {:induction false} KeptRecord(line: string, k: nat, count: int, layout: Layout, ps: Parsers,
                                      exclude: seq<string>, ignh: bool, a: Atom)
    returns (v: seq<Value>, e: string)
    requires LineResult(line, k, count, layout, ps, exclude, ignh) == Keep(a)
    ensures ParseFields(line, layout, ps) == Some(v)
    ensures |v| == |Kinds(layout.hasVel)| && forall j | 0 <= j < |v| :: Fits(v[j], Kinds(layout.hasVel)[j])
    ensures v[1].StrV? && v[2].StrV?
    ensures FirstAlpha(v[2].s, ps.isAlpha) == Some(e)
    ensures v[1].s !in exclude && !(ignh && e == "H")
    ensures a == RecordAtom(v, layout.hasVel, e)
  {
    FieldCountSpec(layout);
    var parsed := ParseFields(line, layout, ps);
    if parsed.None? {
      UnparsedLine(line, k, count, layout, ps, exclude, ignh);
      assert false;
    }
    v := parsed.value;
    var kinds := Kinds(layout.hasVel);
    assert Fits(v[1], kinds[1]) && Fits(v[2], kinds[2]);
    var element := FirstAlpha(v[2].s, ps.isAlpha);
    assert element.Some?;
    e := element.value;
    assert !(v[1].s in exclude || (ignh && element == Some("H")));
    assert |v| >= |kinds|;
  }

  /** A parsed record whose atom name (columns 10 to 15) has no letter is
      an error, skipped or not; any other is skipped exactly when its
      residue name (columns 5 to 10) is excluded, or hydrogens are ignored
      and the first letter of its atom name is an H. */
  lemma {:induction false} SkipRule(line: string, k: nat, count: int, layout: Layout, ps: Parsers,
                                    exclude: seq<string>, ignh: bool)
    requires ParseFields(line, layout, ps).Some?
    ensures var e := FirstAlpha(Strip(Cut(line, Span(10, 15))), ps.isAlpha);
      LineResult(line, k, count, layout, ps, exclude, ignh) == Fail(NoLetter(k)) <==> e.None?
    ensures var e := FirstAlpha(Strip(Cut(line, Span(10, 15))), ps.isAlpha);
      LineResult(line, k, count, layout, ps, exclude, ignh).Skip? <==>
      e.Some? && (Strip(Cut(line, Span(5, 10))) in exclude || (ignh && e == Some("H")))
  {
    FieldCountSpec(layout);
    LayoutColumns(layout);
    var spans := SpansOf(layout);
    assert spans[1] == spans[..4][1] && spans[2] == spans[..4][2];
    var v := ParseFields(line, layout, ps).value;
    assert v[1].s == Strip(Cut(line, Span(5, 10))) && v[2].s == Strip(Cut(line, Span(10, 15)));
    var e := FirstAlpha(v[2].s, ps.isAlpha);
    if e.Some? && !(v[1].s in exclude || (ignh && e == Some("H"))) {
      FourFields(layout);
      assert !LineResult(line, k, count, layout, ps, exclude, ignh).Skip?;
    }
  }

  /** An atom line that does not parse ends reading when its index is the
      atom count (the box line) and is an error otherwise. */
  lemma {:induction false} UnparsedLine(line: string, k: nat, count: int, layout: Layout, ps: Parsers,
                                        exclude: seq<string>, ignh: bool)
    requires ParseFields(line, layout, ps).None?
    ensures LineResult(line, k, count, layout, ps, exclude, ignh) == if k == count then Stop else Fail(BadField(k))
  {
  }

  /** The first dot at or after column 25 and the dot after it give the
      precision. */
  lemma {:induction false} PrecisionFromDots(first: string, a: nat, b: nat)
    requires 25 <= a < b < |first| && first[a] == '.' && first[b] == '.'
    requires forall i | 25 <= i < b && i != a :: first[i] != '.'
    ensures LayoutOf(first).precision == b - a
  {
  }

  /** A line without any dot gives precision 0, so no coordinates. */
  lemma {:induction false} PrecisionNoDot(first: string)
    requires forall i | 0 <= i < |first| :: first[i] != '.'
    ensures LayoutOf(first).precision == 0
  {
    var f := Find(first, '.', 25);
    assert f == -1;
    var g := Find(first, '.', 0);
    assert g == -1;
  }

  /** Without a dot from column 25 on, the precision is one more than the
      column of the first dot of the line. */
  lemma {:induction false} PrecisionEarlyDot(first: string, a: nat)
    requires a < 25 && a < |first| && first[a] == '.'
    requires forall i | 0 <= i < |first| && i != a && (i < a || i >= 25) :: first[i] != '.'
    ensures LayoutOf(first).precision == a + 1
  {
    var f := Find(first, '.', 25);
    assert f == -1;
    var g := Find(first, '.', 0);
    assert g == a;
  }

  /** The molecule of a list of atoms numbers them 0, 1, ... in order, with
      no bonds. */
  lemma {:induction false} MoleculeOfSpec(atoms: seq<Atom>)
    ensures var g := MoleculeOf(atoms).graph;
      && WellFormed(g)
      && |g.order| == |atoms|
      && (forall i | 0 <= i < |atoms| :: g.order[i] == i && i in g.atoms && g.atoms[i] == atoms[i])
      && (forall n: NodeId :: n in g.atoms <==> n < |atoms|)
      && g.edges == {}
  {
    var g := MoleculeOf(atoms).graph;
    assert forall i | 0 <= i < |g.order| :: g.order[i] == i;
    assert Distinct(g.order);
    assert forall n | n in g.atoms :: n in g.order by {
      forall n | n in g.atoms ensures n in g.order {
        assert g.order[n] == n;
      }
    }
  }

  /** `read_gro` fails for a file without a title, count and first atom
      line, or with a count that is not an integer; otherwise it fails
      exactly when the first atom line that ends reading is a failure, and
      else returns the atoms kept before the box line (or the end). */
  lemma {:induction false} ReadGroSpec(lines: seq<string>, exclude: seq<string>, ignh: bool, ps: Parsers)
    ensures |lines| < 2 ==> ReadGro(lines, exclude, ignh, ps) == Err(Truncated)
    ensures |lines| >= 2 && ps.toInt(lines[1]).None? ==> ReadGro(lines, exclude, ignh, ps) == Err(BadCount)
    ensures |lines| == 2 && ps.toInt(lines[1]).Some? ==> ReadGro(lines, exclude, ignh, ps) == Err(Truncated)
    ensures |lines| >= 3 && ps.toInt(lines[1]).Some? ==>
      var outs := Outcomes(lines[2..], ps.toInt(lines[1]).value, LayoutOf(lines[2]), ps, exclude, ignh);
      var e := FirstEnd(outs, |outs|);
      && (ReadGro(lines, exclude, ignh, ps).Err? <==> e.Some? && outs[e.value].Fail?)
      && (ReadGro(lines, exclude, ignh, ps).Err? ==> ReadGro(lines, exclude, ignh, ps).error == outs[e.value].error)
      && (ReadGro(lines, exclude, ignh, ps).Ok? ==>
            ReadGro(lines, exclude, ignh, ps).value == MoleculeOf(Kept(outs, if e.Some? then e.value else |outs|)))
  {
    if |lines| >= 3 && ps.toInt(lines[1]).Some? {
      var outs := Outcomes(lines[2..], ps.toInt(lines[1]).value, LayoutOf(lines[2]), ps, exclude, ignh);
      LoopSpec(outs, |outs|);
    }
  }

  /** Every node read is a kept record of the file: an empty chain, a
      residue name that is not excluded, no hydrogen when hydrogens are
      ignored, a position, and a velocity exactly when the first atom line
      has six dots. */
  lemma {:induction false} ReadGroAtoms(lines: seq<string>, exclude: seq<string>, ignh: bool, ps: Parsers, i: nat)
    requires ReadGro(lines, exclude, ignh, ps).Ok?
    requires i < |ReadGro(lines, exclude, ignh, ps).value.graph.order|
    ensures |lines| >= 3 && i in ReadGro(lines, exclude, ignh, ps).value.graph.atoms
    ensures var a := ReadGro(lines, exclude, ignh, ps).value.graph.atoms[i];
      && a.chain == Some("")
      && a.resname.Some? && a.resname.value !in exclude
      && (ignh ==> a.element != Some("H"))
      && a.position.Some?
      && (a.velocity.Some? <==> Count(lines[2], '.') == 6)
  {
    ReadGroSpec(lines, exclude, ignh, ps);
    var count := ps.toInt(lines[1]).value;
    var layout := LayoutOf(lines[2]);
    var outs := Outcomes(lines[2..], count, layout, ps, exclude, ignh);
    var e := FirstEnd(outs, |outs|);
    var n := if e.Some? then e.value else |outs|;
    var kept := Kept(outs, n);
    MoleculeOfSpec(kept);
    var k := KeptSource(outs, n, i);
    KeepFacts(lines[2..][k], k, count, layout, ps, exclude, ignh, kept[i]);
  }

  /** Nothing after the box line is read: a file that ends with it reads
      the same whatever follows. */
  lemma {:induction false} StopsAtBox(lines: seq<string>, more: seq<string>, exclude: seq<string>, ignh: bool, ps: Parsers)
    requires |lines| >= 3 && ps.toInt(lines[1]).Some?
    requires ParseFields(lines[|lines| - 1], LayoutOf(lines[2]), ps).None?
    requires |lines| - 3 == ps.toInt(lines[1]).value
    ensures ReadGro(lines + more, exclude, ignh, ps) == ReadGro(lines, exclude, ignh, ps)
  {
    var all := lines + more;
    assert all[1] == lines[1] && all[2] == lines[2];
    var count := ps.toInt(lines[1]).value;
    var layout := LayoutOf(lines[2]);
    var outs := Outcomes(lines[2..], count, layout, ps, exclude, ignh);
    var outsAll := Outcomes(all[2..], count, layout, ps, exclude, ignh);
    assert outsAll == outs + outsAll[|outs|..] by {
      assert forall k | 0 <= k < |outs| :: all[2..][k] == lines[2..][k];
    }
    UnparsedLine(lines[|lines| - 1], |lines| - 3, count, layout, ps, exclude, ignh);
    assert outs[|outs| - 1] == Stop;
    PrefixIndependent(outs, outsAll[|outs|..], |outs|);
    var e := FirstEnd(outs, |outs|).value;
    FirstEndSettled(outsAll, |outs|, |outsAll|);
    PrefixIndependent(outs, outsAll[|outs|..], e);
    ReadGroSpec(lines, exclude, ignh, ps);
    ReadGroSpec(all, exclude, ignh, ps);
  }
}
