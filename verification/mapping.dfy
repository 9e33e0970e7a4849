/** The partial reader of Backward mapping files and the collection of all
    mappings of a directory. A file is a sequence of lines; the reader keeps
    the `molecule` and `atoms` sections and ignores every other one. */
module Mapping {
  import opened Outcome
  import opened Text

  /** An atom of a mapping, `(residue index, atom name)`. The reader always
      uses residue index 0. */
  datatype AtomRef = AtomRef(index: int, name: string)

  /** Origin atom to the destination atoms it is assigned to. */
  type AtomMapping = map<AtomRef, seq<AtomRef>>

  /** What `read_mapping` returns: the fragment name, the origin and
      destination force-field names, and the atom mapping. */
  datatype Fragment = Fragment(name: string, fromFF: seq<string>, toFF: seq<string>, atoms: AtomMapping)

  /** `IOError` for a header without its closing bracket, an unbound
      `context` for a content line before any header, a failed unpacking for
      an `atoms` line of fewer than two words, and an unbound `name` when no
      `molecule` line was read. Line numbers start at 1. */
  datatype MapError = BadHeader(line: nat) | NoSection(line: nat) | TooFewWords(line: nat) | NoName

  /** The reader assumes every file maps from `universal` to `martini22`. */
  const FromFFs: seq<string> := ["universal"]
  const ToFFs: seq<string> := ["martini22"]

  const MoleculeSection: string := "molecule"
  const AtomsSection: string := "atoms"

  /** The content of a line: the text before the first ';', stripped. */
  function Clean(line: string): string {
    Strip(BeforeFirst(line, ';'))
  }

  /** A line as the reading loop sees it: without content, a header that
      lacks its closing ']', a header naming a section, or content, kept
      both cleaned and as the words of the raw line. */
  datatype Line = Blank | Unclosed | Header(section: string) | Content(text: string, words: seq<string>)

  /** The loop's view of one line. A header's section is the text between
      the brackets, stripped; the words of a content line are those of the
      whole line, comment included. */
  function Classify(line: string): Line {
    var c := Clean(line);
    if c == [] then Blank
    else if c[0] == '[' then
      if c[|c| - 1] != ']' then Unclosed
      else
        assert c[0] != c[|c| - 1];
        Header(Strip(c[1..|c| - 1]))
    else Content(c, Tokens(line))
  }

  /** Every line of a file, classified. */
  function ClassifyAll(lines: seq<string>): seq<Line> {
    seq(|lines|, i requires 0 <= i < |lines| => Classify(lines[i]))
  }

  /** The `(0, name)` references of some atom names. */
  function Refs(names: seq<string>): (r: seq<AtomRef>)
    ensures |r| == |names|
    ensures forall i | 0 <= i < |names| :: r[i] == AtomRef(0, names[i])
  {
    if names == [] then []
    else
      var rest := Refs(names[1..]);
      assert forall i | 1 <= i < |names| :: names[i] == names[1..][i - 1];
      [AtomRef(0, names[0])] + rest
  }

  /** The reader between two lines: the section it is in (none before the
      first header), the last `molecule` line, and the atom mapping. */
  datatype ReadState = ReadState(section: Option<string>, name: Option<string>, atoms: AtomMapping)

  const Start: ReadState := ReadState(None, None, map[])

  /** One iteration of the reading loop, on line number `number`. */
  function Step(st: ReadState, number: nat, line: Line): Result<ReadState, MapError> {
    match line
    case Blank => Ok(st)
    case Unclosed => Err(BadHeader(number))
    case Header(section) => Ok(st.(section := Some(section)))
    case Content(text, words) =>
      if st.section.None? then Err(NoSection(number))
      else if st.section.value == MoleculeSection then Ok(st.(name := Some(text)))
      else if st.section.value == AtomsSection then
        if |words| < 2 then Err(TooFewWords(number))
        else Ok(st.(atoms := st.atoms[AtomRef(0, words[1]) := Refs(words[2..])]))
      else Ok(st)
  }

  /** The reader after the first `n` lines. */
  function Scan(ls: seq<Line>, n: nat): Result<ReadState, MapError>
    requires n <= |ls|
  {
    if n == 0 then Ok(Start)
    else
      var st :- Scan(ls, n - 1);
      Step(st, n, ls[n - 1])
  }

  /** The loop over all lines, then the return statement. */
  function ReadLines(ls: seq<Line>): Result<Fragment, MapError> {
    var st :- Scan(ls, |ls|);
    if st.name.None? then Err(NoName)
    else Ok(Fragment(st.name.value, FromFFs, ToFFs, st.atoms))
  }

  /** `read_mapping` over the lines of a file. */
  function ReadMapping(lines: seq<string>): Result<Fragment, MapError> {
    ReadLines(ClassifyAll(lines))
  }

  // ------------------------------------------------- reference definitions

  /** The section line `j` is read in: the one named by the last header
      before it, if any. */
  function SectionAt(ls: seq<Line>, j: nat): Option<string>
    requires j <= |ls|
  {
    if j == 0 then None
    else if ls[j - 1].Header? then Some(ls[j - 1].section)
    else SectionAt(ls, j - 1)
  }

  /** The error line `j` raises, if any, judged on its own and on the
      section it is read in. */
  function LineError(ls: seq<Line>, j: nat): Option<MapError>
    requires j < |ls|
  {
    var line := ls[j];
    if line.Unclosed? then Some(BadHeader(j + 1))
    else if line.Content? && SectionAt(ls, j).None? then Some(NoSection(j + 1))
    else if line.Content? && SectionAt(ls, j) == Some(AtomsSection) && |line.words| < 2 then Some(TooFewWords(j + 1))
    else None
  }

  /** The index of the first of the first `n` lines that raises, if any. */
  function FirstBad(ls: seq<Line>, n: nat): (r: Option<nat>)
    requires n <= |ls|
    ensures r.Some? ==> r.value < n && LineError(ls, r.value).Some?
    ensures r.Some? ==> forall i | 0 <= i < r.value :: LineError(ls, i).None?
    ensures r.None? <==> forall i | 0 <= i < n :: LineError(ls, i).None?
  {
    if n == 0 then None
    else if FirstBad(ls, n - 1).Some? then FirstBad(ls, n - 1)
    else if LineError(ls, n - 1).Some? then Some(n - 1)
    else None
  }

  /** The content of the last `molecule` line among the first `n`. */
  function LastName(ls: seq<Line>, n: nat): Option<string>
    requires n <= |ls|
  {
    if n == 0 then None
    else if ls[n - 1].Content? && SectionAt(ls, n - 1) == Some(MoleculeSection) then Some(ls[n - 1].text)
    else LastName(ls, n - 1)
  }

  /** The destination atoms of `key` given by the last `atoms` line among
      the first `n` whose second word is the name of `key`. */
  function LastAtoms(ls: seq<Line>, n: nat, key: AtomRef): Option<seq<AtomRef>>
    requires n <= |ls|
  {
    if n == 0 then None
    else
      var line := ls[n - 1];
      if line.Content? && SectionAt(ls, n - 1) == Some(AtomsSection) && |line.words| >= 2 && key == AtomRef(0, line.words[1])
      then Some(Refs(line.words[2..]))
      else LastAtoms(ls, n - 1, key)
  }

  // ------------------------------------------------------------ properties

  /** Blank and comment-only lines change nothing. */
  lemma {:induction false} BlankSkipped(st: ReadState, number: nat, line: string)
    requires Clean(line) == []
    ensures Step(st, number, Classify(line)) == Ok(st)
  {
  }

  /** A line that opens with '[' but does not end with ']' is an error
      citing its number; one that does end with ']' switches section. */
  lemma {:induction false} HeaderLines(st: ReadState, number: nat, line: string)
    requires Clean(line) != [] && Clean(line)[0] == '['
    ensures var c := Clean(line);
      && (c[|c| - 1] != ']' ==> Step(st, number, Classify(line)) == Err(BadHeader(number)))
      && (c[|c| - 1] == ']' ==> |c| >= 2 && Step(st, number, Classify(line)) == Ok(st.(section := Some(Strip(c[1..|c| - 1])))))
  {
    ClassifyBracket(line);
  }

  lemma ClassifyBracket(line: string)
    requires Clean(line) != [] && Clean(line)[0] == '['
    ensures var c := Clean(line);
      && (c[|c| - 1] != ']' ==> Classify(line) == Unclosed)
      && (c[|c| - 1] == ']' ==> |c| >= 2 && Classify(line) == Header(Strip(c[1..|c| - 1])))
  {
    var c := Clean(line);
    if c[|c| - 1] == ']' {
      assert c[0] != c[|c| - 1];
    }
  }

  /** A line fails exactly as `LineError` says, given the section the reader
      is in. */
  lemma {:induction false} StepError(st: ReadState, ls: seq<Line>, j: nat)
    requires j < |ls| && st.section == SectionAt(ls, j)
    ensures Step(st, j + 1, ls[j]).Err? <==> LineError(ls, j).Some?
    ensures Step(st, j + 1, ls[j]).Err? ==> Step(st, j + 1, ls[j]).error == LineError(ls, j).value
  {
  }

  /** Reading the first `n` lines fails exactly when one of them raises, with
      the error of the first that does. */
  lemma {:induction false} ScanErrors(ls: seq<Line>, n: nat)
    requires n <= |ls|
    ensures Scan(ls, n).Ok? <==> FirstBad(ls, n).None?
    ensures Scan(ls, n).Err? ==> Scan(ls, n).error == LineError(ls, FirstBad(ls, n).value).value
    ensures Scan(ls, n).Ok? ==> Scan(ls, n).value.section == SectionAt(ls, n)
  {
    if n > 0 {
      ScanErrors(ls, n - 1);
      var prev := Scan(ls, n - 1);
      if prev.Ok? {
        StepError(prev.value, ls, n - 1);
      }
    }
  }

  /** After the first `n` lines, the reader holds the last `molecule` line. */
  lemma {:induction false} ScanName(ls: seq<Line>, n: nat)
    requires n <= |ls| && Scan(ls, n).Ok?
    ensures Scan(ls, n).value.name == LastName(ls, n)
  {
    if n > 0 {
      ScanErrors(ls, n - 1);
      ScanName(ls, n - 1);
    }
  }

  /** After the first `n` lines, each atom maps as its last `atoms` line
      says, and atoms without such a line are not mapped. */
  lemma {:induction false} ScanAtoms(ls: seq<Line>, n: nat, key: AtomRef)
    requires n <= |ls| && Scan(ls, n).Ok?
    ensures key in Scan(ls, n).value.atoms <==> LastAtoms(ls, n, key).Some?
    ensures key in Scan(ls, n).value.atoms ==> Scan(ls, n).value.atoms[key] == LastAtoms(ls, n, key).value
  {
    if n > 0 {
      ScanErrors(ls, n - 1);
      ScanAtoms(ls, n - 1, key);
    }
  }

  /** `read_mapping` fails with the error of the first line that raises, or
      when no line is read in the `molecule` section; otherwise the name is
      the last such line, the force-field lists are fixed, and each atom
      maps as its last `atoms` line says. */
  lemma {:induction false} ReadLinesSpec(ls: seq<Line>, key: AtomRef)
    ensures FirstBad(ls, |ls|).Some? ==> ReadLines(ls) == Err(LineError(ls, FirstBad(ls, |ls|).value).value)
    ensures FirstBad(ls, |ls|).None? && LastName(ls, |ls|).None? ==> ReadLines(ls) == Err(NoName)
    ensures FirstBad(ls, |ls|).None? && LastName(ls, |ls|).Some? ==>
      && ReadLines(ls).Ok?
      && ReadLines(ls).value.name == LastName(ls, |ls|).value
      && ReadLines(ls).value.fromFF == ["universal"] && ReadLines(ls).value.toFF == ["martini22"]
      && (key in ReadLines(ls).value.atoms <==> LastAtoms(ls, |ls|, key).Some?)
      && (key in ReadLines(ls).value.atoms ==> ReadLines(ls).value.atoms[key] == LastAtoms(ls, |ls|, key).value)
  {
    ScanErrors(ls, |ls|);
    if Scan(ls, |ls|).Ok? {
      ScanName(ls, |ls|);
      ScanAtoms(ls, |ls|, key);
    }
  }

  // ------------------------------------------------- read_mapping_directory

  /** The mappings of a directory: origin force field, destination force
      field and fragment name to an atom mapping. */
  type Collection = map<string, map<string, map<string, AtomMapping>>>

  /** `d.get(key, {})` */
  function Inner<V>(d: map<string, map<string, V>>, key: string): map<string, V> {
    if key in d then d[key] else map[]
  }

  /** The inner loop: record `atoms` as `name` under every destination. */
  function AddTo(byTo: map<string, map<string, AtomMapping>>, toFFs: seq<string>, name: string, atoms: AtomMapping)
    : map<string, map<string, AtomMapping>>
    decreases |toFFs|
  {
    if toFFs == [] then byTo
    else AddTo(byTo[toFFs[0] := Inner(byTo, toFFs[0])[name := atoms]], toFFs[1..], name, atoms)
  }

  /** The outer loop: the inner loop under every origin. */
  function AddFrom(c: Collection, fromFFs: seq<string>, toFFs: seq<string>, name: string, atoms: AtomMapping): Collection
    decreases |fromFFs|
  {
    if fromFFs == [] then c
    else AddFrom(c[fromFFs[0] := AddTo(Inner(c, fromFFs[0]), toFFs, name, atoms)], fromFFs[1..], toFFs, name, atoms)
  }

  /** Record one fragment in a collection. */
  function AddFragment(c: Collection, f: Fragment): Collection {
    AddFrom(c, f.fromFF, f.toFF, f.name, f.atoms)
  }

  /** The mapping filed under `from`, `to`, `name`, if any. */
  function Lookup(c: Collection, from: string, to: string, name: string): Option<AtomMapping> {
    if from in c && to in c[from] && name in c[from][to] then Some(c[from][to][name]) else None
  }

  lemma {:induction false} AddToSpec(byTo: map<string, map<string, AtomMapping>>, toFFs: seq<string>, name: string, atoms: AtomMapping, to: string, n: string)
    ensures var r := AddTo(byTo, toFFs, name, atoms);
      && (to in r <==> to in byTo || to in toFFs)
      && (to in r && n in r[to] <==> (to in byTo && n in byTo[to]) || (to in toFFs && n == name))
      && (to in r && n in r[to] ==>
           r[to][n] == if to in toFFs && n == name then atoms else byTo[to][n])
    decreases |toFFs|
  {
    if toFFs != [] {
      var next := byTo[toFFs[0] := Inner(byTo, toFFs[0])[name := atoms]];
      AddToSpec(next, toFFs[1..], name, atoms, to, n);
      assert to in toFFs <==> to == toFFs[0] || to in toFFs[1..];
    }
  }

  lemma {:induction false} AddFromSpec(c: Collection, fromFFs: seq<string>, toFFs: seq<string>, name: string, atoms: AtomMapping,
                                       from: string, to: string, n: string)
    ensures var r := AddFrom(c, fromFFs, toFFs, name, atoms);
      && (from in r <==> from in c || from in fromFFs)
      && Lookup(r, from, to, n) == if from in fromFFs && to in toFFs && n == name then Some(atoms) else Lookup(c, from, to, n)
    decreases |fromFFs|
  {
    if fromFFs != [] {
      var f := fromFFs[0];
      var next := c[f := AddTo(Inner(c, f), toFFs, name, atoms)];
      AddFromSpec(next, fromFFs[1..], toFFs, name, atoms, from, to, n);
      AddToSpec(Inner(c, f), toFFs, name, atoms, to, n);
      assert from in fromFFs <==> from == f || from in fromFFs[1..];
    }
  }

  /** Recording a fragment files its mapping under each of its origin and
      destination force fields and its name, creates the levels it needs,
      and leaves every other entry as it was. */
  lemma {:induction false} AddFragmentSpec(c: Collection, f: Fragment, from: string, to: string, n: string)
    ensures from in AddFragment(c, f) <==> from in c || from in f.fromFF
    ensures Lookup(AddFragment(c, f), from, to, n) ==
      if from in f.fromFF && to in f.toFF && n == f.name then Some(f.atoms) else Lookup(c, from, to, n)
  {
    AddFromSpec(c, f.fromFF, f.toFF, f.name, f.atoms, from, to, n);
  }

  /** The fragments (or failures) of some files, read one by one. */
  function ReadAll(files: seq<seq<string>>): (r: seq<Result<Fragment, MapError>>)
    ensures |r| == |files|
    ensures forall i | 0 <= i < |files| :: r[i] == ReadMapping(files[i])
  {
    seq(|files|, i requires 0 <= i < |files| => ReadMapping(files[i]))
  }

  /** The loop of `read_mapping_directory` over the first `n` results; the
      first failure stops it. */
  function Collect(results: seq<Result<Fragment, MapError>>, n: nat): Result<Collection, MapError>
    requires n <= |results|
  {
    if n == 0 then Ok(map[])
    else
      var c :- Collect(results, n - 1);
      var f :- results[n - 1];
      Ok(AddFragment(c, f))
  }

  /** `read_mapping_directory` over the lines of its `.map` files, in the
      order they are found. */
  function ReadMappingDirectory(files: seq<seq<string>>): Result<Collection, MapError> {
    Collect(ReadAll(files), |files|)
  }

  /** The index of the first failure among the first `n` results, if any. */
  function FirstFailed(results: seq<Result<Fragment, MapError>>, n: nat): (r: Option<nat>)
    requires n <= |results|
    ensures r.Some? ==> r.value < n && results[r.value].Err?
    ensures r.Some? ==> forall i | 0 <= i < r.value :: results[i].Ok?
    ensures r.None? <==> forall i | 0 <= i < n :: results[i].Ok?
  {
    if n == 0 then None
    else if FirstFailed(results, n - 1).Some? then FirstFailed(results, n - 1)
    else if results[n - 1].Err? then Some(n - 1)
    else None
  }

  /** The mapping of the last fragment among the first `n` that is named
      `name` and maps from `from` to `to`. */
  function LastNamed(results: seq<Result<Fragment, MapError>>, n: nat, from: string, to: string, name: string): Option<AtomMapping>
    requires n <= |results|
  {
    if n == 0 then None
    else
      var f := results[n - 1];
      if f.Ok? && from in f.value.fromFF && to in f.value.toFF && f.value.name == name then Some(f.value.atoms)
      else LastNamed(results, n - 1, from, to, name)
  }

  /** The loop fails with the first failure; otherwise every entry is the
      mapping of the last fragment filed under it. */
  lemma {:induction false} CollectSpec(results: seq<Result<Fragment, MapError>>, n: nat, from: string, to: string, name: string)
    requires n <= |results|
    ensures Collect(results, n).Ok? <==> FirstFailed(results, n).None?
    ensures Collect(results, n).Err? ==> Collect(results, n) == Err(results[FirstFailed(results, n).value].error)
    ensures Collect(results, n).Ok? ==> Lookup(Collect(results, n).value, from, to, name) == LastNamed(results, n, from, to, name)
  {
    if n > 0 {
      CollectSpec(results, n - 1, from, to, name);
      var c := Collect(results, n - 1);
      if c.Ok? && results[n - 1].Ok? {
        AddFragmentSpec(c.value, results[n - 1].value, from, to, name);
      }
    }
  }

  /** Reading a directory fails exactly when one of its files fails, with
      the error of the first failing file; otherwise the last file read
      with a given name provides its mapping, filed from `universal` to
      `martini22`, and nothing else is filed. */
  lemma {:induction false} ReadMappingDirectorySpec(files: seq<seq<string>>, from: string, to: string, name: string)
    ensures ReadMappingDirectory(files).Ok? <==> forall i | 0 <= i < |files| :: ReadMapping(files[i]).Ok?
    ensures ReadMappingDirectory(files).Err? ==> exists i | 0 <= i < |files| ::
      && ReadMapping(files[i]).Err?
      && ReadMappingDirectory(files) == Err(ReadMapping(files[i]).error)
      && forall k | 0 <= k < i :: ReadMapping(files[k]).Ok?
    ensures ReadMappingDirectory(files).Ok? ==>
      var c := ReadMappingDirectory(files).value;
      && (from != "universal" || to != "martini22" ==> Lookup(c, from, to, name).None?)
      && Lookup(c, from, to, name) == LastNamed(ReadAll(files), |files|, from, to, name)
  {
    var rs := ReadAll(files);
    CollectSpec(rs, |files|, from, to, name);
    if ReadMappingDirectory(files).Err? {
      var i := FirstFailed(rs, |files|).value;
      assert ReadMapping(files[i]).Err? && ReadMappingDirectory(files) == Err(ReadMapping(files[i]).error);
    } else if from != "universal" || to != "martini22" {
      ReadAllLists(files);
      LastNamedOnly(rs, |files|, from, to, name);
    }
  }

  /** Every file read maps from `universal` to `martini22`. */
  lemma {:induction false} ReadAllLists(files: seq<seq<string>>)
    ensures forall i | 0 <= i < |files| :: ReadAll(files)[i].Ok? ==>
      ReadAll(files)[i].value.fromFF == FromFFs && ReadAll(files)[i].value.toFF == ToFFs
  {
    forall i | 0 <= i < |files| && ReadAll(files)[i].Ok?
      ensures ReadAll(files)[i].value.fromFF == FromFFs && ReadAll(files)[i].value.toFF == ToFFs
    {
      assert ReadAll(files)[i] == ReadMapping(files[i]);
    }
  }

  /** Fragments that all map from `universal` to `martini22` file nothing
      elsewhere. */
  lemma {:induction false} LastNamedOnly(results: seq<Result<Fragment, MapError>>, n: nat, from: string, to: string, name: string)
    requires n <= |results|
    requires forall i | 0 <= i < n :: results[i].Ok? ==> results[i].value.fromFF == FromFFs && results[i].value.toFF == ToFFs
    requires from != "universal" || to != "martini22"
    ensures LastNamed(results, n, from, to, name).None?
  {
    if n > 0 {
      LastNamedOnly(results, n - 1, from, to, name);
    }
  }
}
