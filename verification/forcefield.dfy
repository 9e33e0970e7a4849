/** The force-field repository: reference blocks keyed by residue name, link
    rules with their features, and the discovery of force-field directories.
    The file system is a listing of directory contents, and the text parsers
    for `.rtp` and `.ff` files are a parameter. */
module ForceFields {
  import opened Outcome
  import opened Molecules
  import opened Text

  /** A reference residue: atom names of its nodes and its bonds. */
  datatype Block = Block(names: map<NodeId, string>, edges: set<Edge>)

  /** A link rule; only the features it declares matter here. */
  datatype Link = Link(features: set<string>)

  datatype ForceField = ForceField(name: string, blocks: map<string, Block>, links: seq<Link>)

  /** The features declared by a sequence of links. */
  function FeaturesOf(links: seq<Link>): (r: set<string>)
    ensures forall f :: f in r <==> exists i :: 0 <= i < |links| && f in links[i].features
  {
    if links == [] then {}
    else
      var rest := FeaturesOf(links[1..]);
      assert forall i :: 1 <= i < |links| ==> links[i] == links[1..][i - 1];
      links[0].features + rest
  }

  /** `ForceField.features`: every feature some link declares, and no other. */
  function Features(ff: ForceField): (r: set<string>)
    ensures forall f :: f in r <==> exists i :: 0 <= i < |ff.links| && f in ff.links[i].features
    ensures ff.links == [] ==> r == {}
  {
    FeaturesOf(ff.links)
  }

  /** `ForceField.has_feature`: whether some link declares `feature`. */
  function HasFeature(ff: ForceField, feature: string): (r: bool)
    ensures r <==> exists i :: 0 <= i < |ff.links| && feature in ff.links[i].features
  {
    feature in Features(ff)
  }

  /** `ForceField.reference_graphs` is another name for the blocks. */
  function ReferenceGraphs(ff: ForceField): map<string, Block> {
    ff.blocks
  }

  /** The file extensions with a registered parser, in registration order. */
  datatype Format = Rtp | Ff

  const Formats: seq<Format> := [Rtp, Ff]

  function Suffix(f: Format): string {
    match f
    case Rtp => ".rtp"
    case Ff => ".ff"
  }

  /** The parser registered for an extension (`FORCE_FIELD_PARSERS[ext]`). */
  function ParserFor(ext: string): Option<Format> {
    if ext == ".rtp" then Some(Rtp) else if ext == ".ff" then Some(Ff) else None
  }

  /** Whether globbing a directory for `*` followed by `suffix` lists the
      entry `name`: the wildcard does not match names starting with a dot. */
  predicate GlobMatches(name: string, suffix: string) {
    !StartsWith(name, ".") && EndsWith(name, suffix)
  }

  /** Directory contents: for each directory path, the names of its entries.
      A path absent from the listing is not a directory. */
  datatype FileSystem = FileSystem(listing: map<string, seq<string>>)

  function Entries(fs: FileSystem, directory: string): seq<string> {
    if directory in fs.listing then fs.listing[directory] else []
  }

  /** The paths `glob` returns for one suffix, in listing order. */
  function Globbed(directory: string, names: seq<string>, suffix: string): (r: seq<string>)
    ensures |r| <= |names|
    ensures forall p :: p in r <==> exists n :: n in names && GlobMatches(n, suffix) && p == PathJoin(directory, n)
  {
    if names == [] then []
    else
      var rest := Globbed(directory, names[1..], suffix);
      assert forall n :: n in names <==> n == names[0] || n in names[1..];
      if GlobMatches(names[0], suffix) then [PathJoin(directory, names[0])] + rest else rest
  }

  /** `iter_force_field_files`: the `.rtp` files, then the `.ff` files. */
  function ForceFieldFiles(fs: FileSystem, directory: string): (r: seq<string>)
    ensures r == [] <==> forall n :: n in Entries(fs, directory) ==> !GlobMatches(n, ".rtp") && !GlobMatches(n, ".ff")
  {
    var names := Entries(fs, directory);
    GlobbedEmpty(directory, names);
    Globbed(directory, names, ".rtp") + Globbed(directory, names, ".ff")
  }

  lemma {:induction false} GlobbedEmpty(directory: string, names: seq<string>)
    ensures Globbed(directory, names, ".rtp") + Globbed(directory, names, ".ff") == []
            <==> forall n :: n in names ==> !GlobMatches(n, ".rtp") && !GlobMatches(n, ".ff")
  {
    var rtp := Globbed(directory, names, ".rtp");
    var ff := Globbed(directory, names, ".ff");
    var r := rtp + ff;
    if r != [] {
      var p := r[0];
      assert p in rtp || p in ff;
    }
    forall n | n in names && (GlobMatches(n, ".rtp") || GlobMatches(n, ".ff")) ensures r != [] {
      if GlobMatches(n, ".rtp") {
        assert PathJoin(directory, n) in rtp;
      } else {
        assert PathJoin(directory, n) in ff;
      }
    }
  }

  /** A parser reads one file into a force field, or fails with an I/O error. */
  type Parser = (Format, string, ForceField) -> Option<ForceField>

  datatype LoadError =
    | ReadFailure(path: string)   // IOError while reading a file or directory
    | NoParser(path: string)      // KeyError: no parser for the file's extension

  /** `ForceField.read_from`: feed every force-field file of the directory,
      in order, to the parser registered for its extension. */
  function ReadFrom(ff: ForceField, fs: FileSystem, directory: string, parse: Parser): Result<ForceField, LoadError> {
    ReadFiles(ff, ForceFieldFiles(fs, directory), parse)
  }

  function ReadFiles(ff: ForceField, paths: seq<string>, parse: Parser): Result<ForceField, LoadError>
    decreases |paths|
  {
    if paths == [] then Ok(ff)
    else
      match ParserFor(Extension(paths[0]))
      case None => Err(NoParser(paths[0]))
      case Some(format) =>
        match parse(format, paths[0], ff)
        case None => Err(ReadFailure(paths[0]))
        case Some(ff') => ReadFiles(ff', paths[1..], parse)
  }

  /** `ForceField(directory)`: an empty force field named after the directory,
      then populated from it. */
  function NewForceField(fs: FileSystem, directory: string, parse: Parser): Result<ForceField, LoadError> {
    ReadFrom(ForceField(Basename(directory), map[], []), fs, directory, parse)
  }

  /** What registering the entry `name` of `root` reads: a new force field
      for a new name, or the one already filed under it, updated in place by
      `read_from`. */
  function Loaded(ffs: map<string, ForceField>, fs: FileSystem, root: string, name: string, parse: Parser)
    : Result<ForceField, LoadError>
  {
    var path := PathJoin(root, name);
    if name !in ffs then NewForceField(fs, path, parse) else ReadFrom(ffs[name], fs, path, parse)
  }

  /** One iteration of `find_force_fields`: register or update the entry
      `name` of `root` when it holds at least one force-field file. */
  function Register(ffs: map<string, ForceField>, fs: FileSystem, root: string, name: string, parse: Parser)
    : Result<map<string, ForceField>, LoadError>
  {
    var path := PathJoin(root, name);
    if ForceFieldFiles(fs, path) == [] then Ok(ffs)
    else
      match Loaded(ffs, fs, root, name, parse)
      case Ok(ff) => Ok(ffs[name := ff])
      case Err(ReadFailure(_)) => Err(ReadFailure(path))
      case Err(e) => Err(e)
  }

  function RegisterAll(ffs: map<string, ForceField>, fs: FileSystem, root: string, names: seq<string>, parse: Parser)
    : Result<map<string, ForceField>, LoadError>
    decreases |names|
  {
    if names == [] then Ok(ffs)
    else
      var next :- Register(ffs, fs, root, names[0], parse);
      RegisterAll(next, fs, root, names[1..], parse)
  }

  /** `find_force_fields(directory, force_fields)`. Listing a missing
      directory fails; the updated dictionary is returned. */
  function FindForceFields(fs: FileSystem, root: string, ffs: map<string, ForceField>, parse: Parser)
    : Result<map<string, ForceField>, LoadError>
  {
    if root !in fs.listing then Err(ReadFailure(root))
    else RegisterAll(ffs, fs, root, fs.listing[root], parse)
  }

  /** Whether the entry `name` of `root` is a force-field directory. */
  predicate IsForceFieldDir(fs: FileSystem, root: string, name: string) {
    exists n :: n in Entries(fs, PathJoin(root, name)) && (GlobMatches(n, ".rtp") || GlobMatches(n, ".ff"))
  }

  /** One registration step: a force-field directory is added under its
      entry name as a new force field read from it, or, when the name is
      already filed, the force field there is updated by `read_from` rather
      than replaced; anything else leaves the dictionary as it was, and a
      failure names the entry's path or one of its files. */
  lemma {:induction false} RegisterSpec(ffs: map<string, ForceField>, fs: FileSystem, root: string, name: string, parse: Parser)
    ensures var step := Register(ffs, fs, root, name, parse);
      step.Ok? ==>
        && step.value.Keys == ffs.Keys + (if IsForceFieldDir(fs, root, name) then {name} else {})
        && (forall n | n in ffs && n != name :: step.value[n] == ffs[n])
        && (!IsForceFieldDir(fs, root, name) ==> step.value == ffs)
    ensures var step := Register(ffs, fs, root, name, parse);
      step.Ok? && IsForceFieldDir(fs, root, name) ==>
        && name in step.value
        && Ok(step.value[name]) == if name in ffs then ReadFrom(ffs[name], fs, PathJoin(root, name), parse)
                                   else NewForceField(fs, PathJoin(root, name), parse)
    ensures var step := Register(ffs, fs, root, name, parse);
      step.Err? ==> (step.error.path == PathJoin(root, name)
                     || step.error.path in ForceFieldFiles(fs, PathJoin(root, name)))
  {
    RegisterKeys(ffs, fs, root, name, parse);
    RegisterStores(ffs, fs, root, name, parse);
    RegisterErrorPath(ffs, fs, root, name, parse);
  }

  lemma {:induction false} RegisterStores(ffs: map<string, ForceField>, fs: FileSystem, root: string, name: string, parse: Parser)
    ensures var step := Register(ffs, fs, root, name, parse);
      step.Ok? && IsForceFieldDir(fs, root, name) ==>
        name in step.value && Ok(step.value[name]) == Loaded(ffs, fs, root, name, parse)
  {
    ForceFieldDirHasFiles(fs, root, name);
  }

  lemma {:induction false} RegisterKeys(ffs: map<string, ForceField>, fs: FileSystem, root: string, name: string, parse: Parser)
    ensures var step := Register(ffs, fs, root, name, parse);
      step.Ok? ==>
        && step.value.Keys == ffs.Keys + (if IsForceFieldDir(fs, root, name) then {name} else {})
        && (forall n | n in ffs && n != name :: step.value[n] == ffs[n])
        && (!IsForceFieldDir(fs, root, name) ==> step.value == ffs)
  {
    ForceFieldDirHasFiles(fs, root, name);
  }

  lemma {:induction false} ForceFieldDirHasFiles(fs: FileSystem, root: string, name: string)
    ensures ForceFieldFiles(fs, PathJoin(root, name)) == [] <==> !IsForceFieldDir(fs, root, name)
  {
  }

  lemma {:induction false} RegisterErrorPath(ffs: map<string, ForceField>, fs: FileSystem, root: string, name: string, parse: Parser)
    ensures var step := Register(ffs, fs, root, name, parse);
      step.Err? ==> (step.error.path == PathJoin(root, name)
                     || step.error.path in ForceFieldFiles(fs, PathJoin(root, name)))
  {
    var path := PathJoin(root, name);
    if name in ffs {
      ReadFilesFailsOnListedPath(ffs[name], ForceFieldFiles(fs, path), parse);
    } else {
      ReadFilesFailsOnListedPath(ForceField(Basename(path), map[], []), ForceFieldFiles(fs, path), parse);
    }
  }

  /** Registration over a list of entries: an entry ends up in the dictionary
      iff it was there already or is a force-field directory, and entries that
      are not force-field directories keep their value. */
  lemma {:induction false} RegisterAllKeys(ffs: map<string, ForceField>, fs: FileSystem, root: string, names: seq<string>, parse: Parser)
    requires RegisterAll(ffs, fs, root, names, parse).Ok?
    ensures var r := RegisterAll(ffs, fs, root, names, parse).value;
      && (forall n :: n in r <==> n in ffs || (n in names && IsForceFieldDir(fs, root, n)))
      && (forall n | n in ffs && !(n in names && IsForceFieldDir(fs, root, n)) :: r[n] == ffs[n])
    decreases |names|
  {
    if names != [] {
      var step := Register(ffs, fs, root, names[0], parse);
      RegisterSpec(ffs, fs, root, names[0], parse);
      RegisterAllKeys(step.value, fs, root, names[1..], parse);
      assert forall n :: n in names <==> n == names[0] || n in names[1..];
    }
  }

  /** Registration over a list of entries: a force-field directory listed
      once ends up holding what reading it gives, a new force field for a
      name not filed before and the filed one updated by `read_from`
      otherwise; what other entries do to the dictionary does not matter. */
  lemma {:induction false} RegisterAllValue(ffs: map<string, ForceField>, fs: FileSystem, root: string, names: seq<string>,
                                            parse: Parser, n: string)
    requires RegisterAll(ffs, fs, root, names, parse).Ok?
    requires multiset(names)[n] == 1 && IsForceFieldDir(fs, root, n)
    ensures n in RegisterAll(ffs, fs, root, names, parse).value
    ensures Ok(RegisterAll(ffs, fs, root, names, parse).value[n])
            == if n in ffs then ReadFrom(ffs[n], fs, PathJoin(root, n), parse) else NewForceField(fs, PathJoin(root, n), parse)
  {
    RegisterAllLoaded(ffs, fs, root, names, parse, n);
  }

  lemma {:induction false} RegisterAllLoaded(ffs: map<string, ForceField>, fs: FileSystem, root: string, names: seq<string>,
                                             parse: Parser, n: string)
    requires RegisterAll(ffs, fs, root, names, parse).Ok?
    requires multiset(names)[n] == 1 && IsForceFieldDir(fs, root, n)
    ensures n in RegisterAll(ffs, fs, root, names, parse).value
    ensures Ok(RegisterAll(ffs, fs, root, names, parse).value[n]) == Loaded(ffs, fs, root, n, parse)
    decreases |names|
  {
    var rest := names[1..];
    assert multiset(rest)[n] == if names[0] == n then 0 else 1 by {
      assert names == [names[0]] + rest;
      assert multiset(names) == multiset([names[0]]) + multiset(rest);
    }
    var r := RegisterAll(ffs, fs, root, names, parse);
    var step := Register(ffs, fs, root, names[0], parse);
    assert step.Ok? && r == RegisterAll(step.value, fs, root, rest, parse);
    var next := step.value;
    if names[0] == n {
      assert n !in rest by {
        assert n !in multiset(rest);
      }
      RegisterStores(ffs, fs, root, n, parse);
      RegisterAllOther(next, fs, root, rest, parse, n);
    } else {
      RegisterAllLoaded(next, fs, root, rest, parse, n);
      assert Loaded(next, fs, root, n, parse) == Loaded(ffs, fs, root, n, parse) by {
        RegisterOther(ffs, fs, root, names[0], parse, n);
      }
    }
  }

  /** A registration step leaves the entry `n` of any other name alone. */
  lemma {:induction false} RegisterOther(ffs: map<string, ForceField>, fs: FileSystem, root: string, name: string,
                                         parse: Parser, n: string)
    requires n != name
    ensures var step := Register(ffs, fs, root, name, parse);
      step.Ok? ==> (n in step.value <==> n in ffs) && (n in ffs ==> step.value[n] == ffs[n])
  {
  }

  /** The registration loop leaves the entry of a name it does not list alone. */
  lemma {:induction false} RegisterAllOther(ffs: map<string, ForceField>, fs: FileSystem, root: string, names: seq<string>,
                                            parse: Parser, n: string)
    requires n !in names
    ensures var r := RegisterAll(ffs, fs, root, names, parse);
      r.Ok? ==> (n in r.value <==> n in ffs) && (n in ffs ==> r.value[n] == ffs[n])
    decreases |names|
  {
    if names != [] {
      assert names[0] != n;
      RegisterOther(ffs, fs, root, names[0], parse, n);
      var step := Register(ffs, fs, root, names[0], parse);
      if step.Ok? {
        RegisterAllOther(step.value, fs, root, names[1..], parse, n);
      }
    }
  }

  /** Every failure of the registration loop names the path of an entry or of
      a file inside one. */
  lemma {:induction false} RegisterAllErrorPath(ffs: map<string, ForceField>, fs: FileSystem, root: string, names: seq<string>, parse: Parser)
    requires RegisterAll(ffs, fs, root, names, parse).Err?
    ensures var e := RegisterAll(ffs, fs, root, names, parse).error;
      exists n :: n in names && (e.path == PathJoin(root, n) || e.path in ForceFieldFiles(fs, PathJoin(root, n)))
    decreases |names|
  {
    var step := Register(ffs, fs, root, names[0], parse);
    RegisterSpec(ffs, fs, root, names[0], parse);
    assert names[0] in names;
    if step.Ok? {
      RegisterAllErrorPath(step.value, fs, root, names[1..], parse);
      var e := RegisterAll(ffs, fs, root, names, parse).error;
      var n :| n in names[1..] && (e.path == PathJoin(root, n) || e.path in ForceFieldFiles(fs, PathJoin(root, n)));
      assert n in names;
    }
  }

  /** `find_force_fields` fails on a directory it cannot list. Otherwise an
      entry ends up in the dictionary iff it was there already or is a
      force-field directory of `root`; a force-field directory holds a new
      force field read from it, or the one already filed under its name
      updated in place; every other entry keeps its value, and a failure
      names the path of an entry or of a file inside one. */
  lemma {:induction false} FindForceFieldsSpec(fs: FileSystem, root: string, ffs: map<string, ForceField>, parse: Parser)
    ensures root !in fs.listing ==> FindForceFields(fs, root, ffs, parse) == Err(ReadFailure(root))
    ensures var r := FindForceFields(fs, root, ffs, parse);
      r.Ok? ==>
        && (forall n :: n in r.value <==> n in ffs || (n in fs.listing[root] && IsForceFieldDir(fs, root, n)))
        && (forall n | n in ffs && !(n in fs.listing[root] && IsForceFieldDir(fs, root, n)) :: r.value[n] == ffs[n])
    ensures var r := FindForceFields(fs, root, ffs, parse);
      r.Ok? ==> forall n | multiset(fs.listing[root])[n] == 1 && IsForceFieldDir(fs, root, n) ::
        && n in r.value
        && Ok(r.value[n]) == if n in ffs then ReadFrom(ffs[n], fs, PathJoin(root, n), parse)
                             else NewForceField(fs, PathJoin(root, n), parse)
    ensures var r := FindForceFields(fs, root, ffs, parse);
      root in fs.listing && r.Err? ==>
        exists n :: n in fs.listing[root]
          && (r.error.path == PathJoin(root, n) || r.error.path in ForceFieldFiles(fs, PathJoin(root, n)))
  {
    if root in fs.listing {
      if RegisterAll(ffs, fs, root, fs.listing[root], parse).Ok? {
        RegisterAllKeys(ffs, fs, root, fs.listing[root], parse);
        forall n | multiset(fs.listing[root])[n] == 1 && IsForceFieldDir(fs, root, n)
          ensures var r := RegisterAll(ffs, fs, root, fs.listing[root], parse).value;
            n in r && Ok(r[n]) == if n in ffs then ReadFrom(ffs[n], fs, PathJoin(root, n), parse)
                                  else NewForceField(fs, PathJoin(root, n), parse)
        {
          RegisterAllValue(ffs, fs, root, fs.listing[root], parse, n);
        }
      } else {
        RegisterAllErrorPath(ffs, fs, root, fs.listing[root], parse);
      }
    }
  }

  lemma {:induction false} ReadFilesFailsOnListedPath(ff: ForceField, paths: seq<string>, parse: Parser)
    ensures ReadFiles(ff, paths, parse).Err? ==> ReadFiles(ff, paths, parse).error.path in paths
    decreases |paths|
  {
    if paths != [] {
      match ParserFor(Extension(paths[0]))
      case None =>
      case Some(format) =>
        match parse(format, paths[0], ff)
        case None =>
        case Some(ff') =>
          ReadFilesFailsOnListedPath(ff', paths[1..], parse);
    }
  }

  /** Parsers that fill in the force field they are given without renaming
      it, as `read_from` fills in the object it is called on. */
  ghost predicate KeepsName(parse: Parser) {
    forall f, p, ff :: parse(f, p, ff).Some? ==> parse(f, p, ff).value.name == ff.name
  }

  /** Reading files with parsers that keep the name keeps the name. */
  lemma {:induction false} ReadFilesKeepsName(ff: ForceField, paths: seq<string>, parse: Parser)
    requires KeepsName(parse)
    ensures ReadFiles(ff, paths, parse).Ok? ==> ReadFiles(ff, paths, parse).value.name == ff.name
    decreases |paths|
  {
    if paths != [] {
      match ParserFor(Extension(paths[0]))
      case None =>
      case Some(format) =>
        match parse(format, paths[0], ff)
        case None =>
        case Some(ff') =>
          ReadFilesKeepsName(ff', paths[1..], parse);
    }
  }

  /** A force field read from a directory entry starts with no blocks, so no
      reference graph, under the entry's name, and with parsers that keep
      the name it is still named after the entry once read. */
  lemma {:induction false} NewForceFieldName(fs: FileSystem, root: string, name: string, parse: Parser)
    requires name != [] && '/' !in name
    ensures Basename(PathJoin(root, name)) == name
    ensures ReferenceGraphs(ForceField(Basename(PathJoin(root, name)), map[], [])) == map[]
    ensures KeepsName(parse) && NewForceField(fs, PathJoin(root, name), parse).Ok? ==>
      NewForceField(fs, PathJoin(root, name), parse).value.name == name
  {
    BasenameOfJoin(root, name);
    var path := PathJoin(root, name);
    if KeepsName(parse) {
      ReadFilesKeepsName(ForceField(Basename(path), map[], []), ForceFieldFiles(fs, path), parse);
    }
  }

  /** A dictionary whose force fields are named after their keys. */
  predicate NamedByKey(ffs: map<string, ForceField>) {
    forall n | n in ffs :: ffs[n].name == n
  }

  /** With parsers that keep the name, registering an entry keeps a
      dictionary named after its keys. */
  lemma {:induction false} RegisterKeepsNames(ffs: map<string, ForceField>, fs: FileSystem, root: string, name: string, parse: Parser)
    requires name != [] && '/' !in name
    requires KeepsName(parse) && NamedByKey(ffs)
    ensures Register(ffs, fs, root, name, parse).Ok? ==> NamedByKey(Register(ffs, fs, root, name, parse).value)
  {
    var step := Register(ffs, fs, root, name, parse);
    if step.Ok? {
      RegisterKeys(ffs, fs, root, name, parse);
      RegisterStores(ffs, fs, root, name, parse);
      if IsForceFieldDir(fs, root, name) {
        var path := PathJoin(root, name);
        var loaded := Loaded(ffs, fs, root, name, parse);
        if name in ffs {
          ReadFilesKeepsName(ffs[name], ForceFieldFiles(fs, path), parse);
        } else {
          NewForceFieldName(fs, root, name, parse);
        }
        assert step.value[name].name == name;
      }
      forall n | n in step.value ensures step.value[n].name == n {
        if n != name {
          assert n in ffs && step.value[n] == ffs[n];
        }
      }
    }
  }

  lemma {:induction false} RegisterAllKeepsNames(ffs: map<string, ForceField>, fs: FileSystem, root: string, names: seq<string>, parse: Parser)
    requires forall n | n in names :: n != [] && '/' !in n
    requires KeepsName(parse) && NamedByKey(ffs)
    ensures RegisterAll(ffs, fs, root, names, parse).Ok? ==> NamedByKey(RegisterAll(ffs, fs, root, names, parse).value)
    decreases |names|
  {
    if names != [] {
      assert names[0] in names;
      RegisterKeepsNames(ffs, fs, root, names[0], parse);
      var step := Register(ffs, fs, root, names[0], parse);
      if step.Ok? {
        assert forall n | n in names[1..] :: n in names;
        RegisterAllKeepsNames(step.value, fs, root, names[1..], parse);
      }
    }
  }

  /** With parsers that keep the name, and entry names as a directory
      listing gives them (not empty, without `/`), `find_force_fields` keeps
      every force field of the dictionary named after its key: a new one is
      named after its directory, and an updated one keeps its name. */
  lemma {:induction false} FindForceFieldsNamed(fs: FileSystem, root: string, ffs: map<string, ForceField>, parse: Parser)
    ensures var r := FindForceFields(fs, root, ffs, parse);
      && KeepsName(parse) && NamedByKey(ffs) && r.Ok?
      && root in fs.listing && (forall n | n in fs.listing[root] :: n != [] && '/' !in n)
      ==> NamedByKey(r.value)
  {
    if KeepsName(parse) && NamedByKey(ffs) && root in fs.listing && (forall n | n in fs.listing[root] :: n != [] && '/' !in n) {
      RegisterAllKeepsNames(ffs, fs, root, fs.listing[root], parse);
    }
  }

  /** Every file `glob` returns has the extension it was globbed for, so the
      dispatch to `FORCE_FIELD_PARSERS` finds the parser of that format. */
  lemma {:induction false} GlobbedDispatch(directory: string, name: string, format: Format)
    requires '/' !in name
    requires GlobMatches(name, Suffix(format))
    ensures ParserFor(Extension(PathJoin(directory, name))) == Some(format)
  {
    var suffix := Suffix(format);
    assert suffix == ".rtp" || suffix == ".ff";
    assert '.' !in suffix[1..];
    assert name != [] && name[0] != '.';
    SuffixIsExtension(name, suffix);
    BasenameOfJoin(directory, name);
    assert Extension(PathJoin(directory, name)) == suffix;
  }

  /** A name that does not start with a dot and ends with a suffix made of
      one dot and no other has that suffix as its extension. */
  lemma {:induction false} SuffixIsExtension(name: string, suffix: string)
    requires name != [] && name[0] != '.'
    requires suffix != [] && suffix[0] == '.' && '.' !in suffix[1..]
    requires EndsWith(name, suffix)
    ensures NameExtension(name) == suffix
  {
    var d := |name| - |suffix|;
    assert name[d..] == suffix;
    assert forall i | d < i < |name| :: name[i] == suffix[1..][i - d - 1];
    LastDotAt(name, d);
    assert 0 < d;
  }

  lemma {:induction false} LastDotAt(s: string, d: nat)
    requires d < |s| && s[d] == '.'
    requires forall i :: d < i < |s| ==> s[i] != '.'
    ensures LastDot(s) == d
  {
    if s[|s| - 1] != '.' {
      LastDotAt(s[..|s| - 1], d);
    }
  }

  /** Reading only globbed files never meets an unknown extension. */
  lemma {:induction false} DispatchNeverFails(ff: ForceField, fs: FileSystem, directory: string, parse: Parser)
    requires forall n :: n in Entries(fs, directory) ==> '/' !in n
    ensures ReadFrom(ff, fs, directory, parse).Err? ==> ReadFrom(ff, fs, directory, parse).error.ReadFailure?
  {
    var names := Entries(fs, directory);
    var files := ForceFieldFiles(fs, directory);
    forall p | p in files ensures ParserFor(Extension(p)).Some? {
      if p in Globbed(directory, names, ".rtp") {
        var n :| n in names && GlobMatches(n, ".rtp") && p == PathJoin(directory, n);
        GlobbedDispatch(directory, n, Rtp);
      } else {
        assert p in Globbed(directory, names, ".ff");
        var n :| n in names && GlobMatches(n, ".ff") && p == PathJoin(directory, n);
        GlobbedDispatch(directory, n, Ff);
      }
    }
    ReadFilesDispatch(ff, files, parse);
  }

  lemma {:induction false} ReadFilesDispatch(ff: ForceField, paths: seq<string>, parse: Parser)
    requires forall p :: p in paths ==> ParserFor(Extension(p)).Some?
    ensures ReadFiles(ff, paths, parse).Err? ==> ReadFiles(ff, paths, parse).error.ReadFailure?
    decreases |paths|
  {
    if paths != [] {
      assert paths[0] in paths;
      var format := ParserFor(Extension(paths[0])).value;
      match parse(format, paths[0], ff)
      case None =>
      case Some(ff') =>
        assert forall p :: p in paths[1..] ==> p in paths;
        ReadFilesDispatch(ff', paths[1..], parse);
    }
  }
}
