/**
 * What `parse_darshan_to_csv` leaves in the output directory and what
 * `list_darshan_modules` reads back from it. The directory is a map from
 * file name to content; a `.csv` file's content is the wide table it
 * serialises, since the CSV text itself is pandas' `to_csv`.
 */
module Output {
  import opened Wrappers
  import opened PyStr
  import opened Header
  import opened Scanner
  import opened Reshape

  datatype Artifact = Text(text: string) | Table(table: WideTable)

  type Directory = map<string, Artifact>

  /** The only error the writer raises itself: `ValueError("No data found in the log content")`. */
  datatype ParseError = NoData

  const HeaderFile := "header.txt"
  const CsvSuffix := ".csv"
  const DescriptionSuffix := "_description.txt"

  function CsvName(name: string): string {
    name + CsvSuffix
  }

  function DescriptionName(name: string): string {
    name + DescriptionSuffix
  }

  /** No two artifacts share a file name, whatever the module names. */
  lemma ArtifactNamesDistinct(a: string, b: string)
    ensures CsvName(a) == CsvName(b) ==> a == b
    ensures DescriptionName(a) == DescriptionName(b) ==> a == b
    ensures CsvName(a) != DescriptionName(b)
    ensures CsvName(a) != HeaderFile && DescriptionName(a) != HeaderFile
  {
    if CsvName(a) == CsvName(b) {
      assert a == CsvName(a)[..|a|] && b == CsvName(b)[..|b|];
    }
    if DescriptionName(a) == DescriptionName(b) {
      assert a == DescriptionName(a)[..|a|] && b == DescriptionName(b)[..|b|];
    }
    assert CsvName(a)[|CsvName(a)| - 1] == 'v';
    assert DescriptionName(b)[|DescriptionName(b)| - 1] == 't';
    assert HeaderFile[|HeaderFile| - 1] == 't';
    assert |DescriptionName(a)| > |HeaderFile|;
  }

  /** Every module can be turned into a DataFrame and pivoted. */
  predicate AllTabular(modules: map<string, ModuleEntry>) {
    forall name | name in modules :: Tabular(modules[name].columns, modules[name].data)
  }

  /** What the writer puts on disk for one module: its pivoted table and its description. */
  datatype ModuleFiles = ModuleFiles(table: WideTable, description: string)

  function FilesOf(entry: ModuleEntry): ModuleFiles
    requires Tabular(entry.columns, entry.data)
  {
    ModuleFiles(Pivot(entry.columns, entry.data), entry.description)
  }

  function Outputs(modules: map<string, ModuleEntry>): (files: map<string, ModuleFiles>)
    requires AllTabular(modules)
    ensures files.Keys == modules.Keys
  {
    map name | name in modules :: FilesOf(modules[name])
  }

  /** `f` without the given suffix. */
  function Stem(f: string, suffix: string): (stem: string)
    requires EndsWith(f, suffix)
    ensures f == stem + suffix
  {
    f[..|f| - |suffix|]
  }

  /** A file name the writer produces for one of the given modules. */
  predicate IsArtifact(f: string, names: set<string>) {
    || f == HeaderFile
    || (EndsWith(f, CsvSuffix) && Stem(f, CsvSuffix) in names)
    || (EndsWith(f, DescriptionSuffix) && Stem(f, DescriptionSuffix) in names)
  }

  /** Each artifact name ends in its own suffix only, and its stem is the module name. */
  lemma ArtifactNameParts(name: string)
    ensures EndsWith(CsvName(name), CsvSuffix) && Stem(CsvName(name), CsvSuffix) == name
    ensures !EndsWith(CsvName(name), DescriptionSuffix)
    ensures EndsWith(DescriptionName(name), DescriptionSuffix) && Stem(DescriptionName(name), DescriptionSuffix) == name
    ensures !EndsWith(DescriptionName(name), CsvSuffix)
    ensures !EndsWith(HeaderFile, CsvSuffix) && !EndsWith(HeaderFile, DescriptionSuffix)
  {
    var c := CsvName(name);
    var d := DescriptionName(name);
    assert c[|c| - |CsvSuffix|..] == CsvSuffix;
    assert d[|d| - |DescriptionSuffix|..] == DescriptionSuffix;
    assert c[|c| - 1] == 'v' && d[|d| - 1] == 't';
    assert CsvSuffix[|CsvSuffix| - 1] == 'v' && DescriptionSuffix[|DescriptionSuffix| - 1] == 't';
    assert HeaderFile[|HeaderFile| - 1] == 't';
  }

  /**
   * `out` is `dir` after writing `header.txt` and, per module,
   * `<module>.csv` with its table and `<module>_description.txt` with its
   * description; every other file is left as it was.
   */
  ghost predicate Written(dir: Directory, out: Directory, header: string, files: map<string, ModuleFiles>) {
    && HeaderFile in out && out[HeaderFile] == Text(header)
    && FilesWritten(out, files)
    && OnlyArtifacts(dir, out, files.Keys)
    && OthersKept(dir, out, files.Keys)
  }

  /** Each module's table and description are in `out`. */
  ghost predicate FilesWritten(out: Directory, files: map<string, ModuleFiles>) {
    forall name | name in files ::
      && CsvName(name) in out && out[CsvName(name)] == Table(files[name].table)
      && DescriptionName(name) in out && out[DescriptionName(name)] == Text(files[name].description)
  }

  /** `out` has no file but those of `dir` and the artifacts. */
  ghost predicate OnlyArtifacts(dir: Directory, out: Directory, names: set<string>) {
    forall f | f in out :: f in dir || IsArtifact(f, names)
  }

  /** Files of `dir` that are not artifacts are unchanged in `out`. */
  ghost predicate OthersKept(dir: Directory, out: Directory, names: set<string>) {
    forall f | f in dir && !IsArtifact(f, names) :: f in out && out[f] == dir[f]
  }

  /** The directory after writing one module's two files. */
  function WriteFiles(out: Directory, name: string, m: ModuleFiles): Directory {
    out[CsvName(name) := Table(m.table)][DescriptionName(name) := Text(m.description)]
  }

  /** Writing one more module's two files keeps `Written` for the modules written so far. */
  lemma WriteModuleKeeps(dir: Directory, out: Directory, header: string, before: map<string, ModuleFiles>,
                    name: string, m: ModuleFiles)
    requires name !in before
    requires Written(dir, out, header, before)
    ensures Written(dir, WriteFiles(out, name, m), header, before[name := m])
  {
    ArtifactNamesDistinct(name, name);
    WriteModuleFiles(out, before, name, m);
    WriteModuleOthers(dir, out, before.Keys, name, m);
  }

  lemma WriteModuleFiles(out: Directory, before: map<string, ModuleFiles>, name: string, m: ModuleFiles)
    requires name !in before && FilesWritten(out, before)
    ensures FilesWritten(WriteFiles(out, name, m), before[name := m])
  {
    var after := before[name := m];
    var out' := WriteFiles(out, name, m);
    forall n | n in after
      ensures CsvName(n) in out' && out'[CsvName(n)] == Table(after[n].table)
      ensures DescriptionName(n) in out' && out'[DescriptionName(n)] == Text(after[n].description)
    {
      ArtifactNamesDistinct(n, name);
      ArtifactNamesDistinct(name, n);
    }
  }

  lemma WriteModuleOthers(dir: Directory, out: Directory, before: set<string>, name: string, m: ModuleFiles)
    requires OnlyArtifacts(dir, out, before) && OthersKept(dir, out, before)
    ensures OnlyArtifacts(dir, WriteFiles(out, name, m), before + {name})
    ensures OthersKept(dir, WriteFiles(out, name, m), before + {name})
  {
    ArtifactNameParts(name);
  }

  /**
   * `parse_darshan_to_csv`: empty content raises before anything is written;
   * otherwise the header and each module's table and description are written,
   * a file of the same name being replaced.
   */
  method ParseDarshanToCsv(logContent: string, dir: Directory) returns (out: Directory, err: Option<ParseError>)
    requires AllTabular(ExtractedModules(logContent))
    ensures err.Some? <==> logContent == ""
    ensures err.Some? ==> out == dir
    ensures err.None? ==> Written(dir, out, HeaderText(logContent), Outputs(ExtractedModules(logContent)))
  {
    if logContent == "" {
      return dir, Some(NoData);
    }
    err := None;
    var modules := ExtractModules(logContent);
    var header := ExtractHeader(logContent);
    out := WriteArtifacts(dir, header, modules);
  }

  /** The writing half of `parse_darshan_to_csv`: `header.txt`, then each module's two files. */
  method WriteArtifacts(dir: Directory, header: string, modules: map<string, ModuleEntry>) returns (out: Directory)
    requires AllTabular(modules)
    ensures Written(dir, out, header, Outputs(modules))
  {
    out := dir[HeaderFile := Text(header)];
    WriteHeader(dir, header, Outputs(modules));
    var pending := modules.Keys;
    ghost var done: set<string> := {};
    while pending != {}
      invariant pending !! done && pending + done == modules.Keys
      invariant Written(dir, out, header, Restrict(Outputs(modules), done))
      decreases pending
    {
      var name :| name in pending;
      out := WriteModule(dir, out, header, modules, done, name);
      pending := pending - {name};
      done := done + {name};
    }
    RestrictAll(Outputs(modules), done);
  }

  /** One iteration: pivot module `name` and write its table and description. */
  method WriteModule(dir: Directory, out: Directory, header: string, modules: map<string, ModuleEntry>,
                     ghost done: set<string>, name: string) returns (out': Directory)
    requires AllTabular(modules) && name in modules && name !in done
    requires Written(dir, out, header, Restrict(Outputs(modules), done))
    ensures Written(dir, out', header, Restrict(Outputs(modules), done + {name}))
  {
    ghost var files := Outputs(modules);
    var entry := modules[name];
    var table := Pivot(entry.columns, entry.data);
    var m := ModuleFiles(table, entry.description);
    assert m == files[name];
    WriteModuleKeeps(dir, out, header, Restrict(files, done), name, m);
    RestrictAdd(files, done, name);
    out' := WriteFiles(out, name, m);
  }

  function Restrict<K, V>(m: map<K, V>, keys: set<K>): map<K, V> {
    map k | k in keys && k in m :: m[k]
  }

  lemma RestrictAdd<K, V>(m: map<K, V>, keys: set<K>, k: K)
    requires k in m
    ensures Restrict(m, keys)[k := m[k]] == Restrict(m, keys + {k})
  {
  }

  lemma RestrictAll<K, V>(m: map<K, V>, keys: set<K>)
    requires keys == m.Keys
    ensures Restrict(m, keys) == m
  {
  }

  /** Writing `header.txt` alone is `Written` for no module. */
  lemma WriteHeader(dir: Directory, header: string, files: map<string, ModuleFiles>)
    ensures Written(dir, dir[HeaderFile := Text(header)], header, Restrict(files, {}))
  {
    assert Restrict(files, {}) == map[];
  }

  /** Only one directory satisfies `Written`: the order the modules are written in does not matter. */
  lemma WrittenUnique(dir: Directory, out1: Directory, out2: Directory, header: string, files: map<string, ModuleFiles>)
    requires Written(dir, out1, header, files) && Written(dir, out2, header, files)
    ensures out1 == out2
  {
    forall f | f in out1 || f in out2 ensures f in out1 && f in out2 && out2[f] == out1[f] {
      if f != HeaderFile && EndsWith(f, CsvSuffix) && Stem(f, CsvSuffix) in files {
        assert f == CsvName(Stem(f, CsvSuffix));
      } else if f != HeaderFile && EndsWith(f, DescriptionSuffix) && Stem(f, DescriptionSuffix) in files {
        assert f == DescriptionName(Stem(f, DescriptionSuffix));
      }
    }
  }

  /** Running the writer a second time on its own output changes nothing. */
  lemma WriteIdempotent(dir: Directory, out1: Directory, out2: Directory, header: string, files: map<string, ModuleFiles>)
    requires Written(dir, out1, header, files) && Written(out1, out2, header, files)
    ensures out2 == out1
  {
    WrittenUnique(out1, out1, out2, header, files);
  }

  /** The names `list_darshan_modules` returns for a directory listing, in listing order. */
  function ListedModules(listing: seq<string>): seq<string> {
    if listing == [] then []
    else
      var last := listing[|listing| - 1];
      ListedModules(listing[..|listing| - 1]) + (if EndsWith(last, CsvSuffix) then [Replace(last, CsvSuffix, "")] else [])
  }

  /** `list_darshan_modules`, the directory listing (`os.listdir`) passed in. */
  method ListDarshanModules(listing: seq<string>) returns (names: seq<string>)
    ensures names == ListedModules(listing)
  {
    names := [];
    for i := 0 to |listing|
      invariant names == ListedModules(listing[..i])
    {
      assert listing[..i + 1][..i] == listing[..i];
      if EndsWith(listing[i], CsvSuffix) {
        names := names + [Replace(listing[i], CsvSuffix, "")];
      }
    }
    assert listing[..|listing|] == listing;
  }

  /** A listed name comes from a `.csv` file with every ".csv" removed, and every `.csv` file gives one. */
  lemma {:induction false} ListedModulesExact(listing: seq<string>, n: string)
    ensures n in ListedModules(listing) <==>
      exists f | f in listing :: EndsWith(f, CsvSuffix) && Replace(f, CsvSuffix, "") == n
    decreases |listing|
  {
    if listing != [] {
      var init := listing[..|listing| - 1];
      var last := listing[|listing| - 1];
      ListedModulesExact(init, n);
      assert listing == init + [last];
      if exists f | f in listing :: EndsWith(f, CsvSuffix) && Replace(f, CsvSuffix, "") == n {
        var f :| f in listing && EndsWith(f, CsvSuffix) && Replace(f, CsvSuffix, "") == n;
        if f != last {
          assert f in init;
        }
      }
    }
  }

  /** Removing ".csv" from a `.csv` file name gives back the module name, if that name holds no ".csv". */
  lemma {:induction false} StripCsv(name: string)
    requires !Contains(name, CsvSuffix)
    ensures Replace(CsvName(name), CsvSuffix, "") == name
    decreases |name|
  {
    var f := CsvName(name);
    if name == [] {
      assert f == CsvSuffix && StartsWith(f, CsvSuffix);
      assert f[|CsvSuffix|..] == [];
    } else {
      assert !StartsWith(f, CsvSuffix) by {
        if |name| >= |CsvSuffix| {
          assert f[..|CsvSuffix|] == name[..|CsvSuffix|];
        } else {
          // ".csv" has no proper border: an occurrence starting inside `name` would put its '.' on 'c', 's' or 'v'.
          assert f[|name|] == '.';
          assert CsvSuffix[|name|] != '.';
        }
      }
      assert f[1..] == CsvName(name[1..]);
      StripCsv(name[1..]);
    }
  }

  /**
   * Round-trip enumeration: after the writer has run, listing the directory
   * gives exactly the modules written, provided it held no other `.csv` file
   * and no module name contains ".csv".
   */
  lemma ListAfterWrite(dir: Directory, out: Directory, header: string, files: map<string, ModuleFiles>,
                       listing: seq<string>)
    requires Written(dir, out, header, files)
    requires forall f | f in dir && EndsWith(f, CsvSuffix) :: Stem(f, CsvSuffix) in files
    requires forall name | name in files :: !Contains(name, CsvSuffix)
    requires forall f :: f in listing <==> f in out
    ensures forall name :: name in ListedModules(listing) <==> name in files
  {
    forall name ensures name in ListedModules(listing) <==> name in files {
      ListedModulesExact(listing, name);
      if name in files {
        StripCsv(name);
        assert CsvName(name) in listing;
        assert EndsWith(CsvName(name), CsvSuffix);
      }
      if name in ListedModules(listing) {
        var f :| f in listing && EndsWith(f, CsvSuffix) && Replace(f, CsvSuffix, "") == name;
        ArtifactNameParts(name);
        if EndsWith(f, DescriptionSuffix) {
          ArtifactNameParts(Stem(f, DescriptionSuffix));
        }
        var n := Stem(f, CsvSuffix);
        assert n in files && f == CsvName(n);
        StripCsv(n);
      }
    }
  }
}
