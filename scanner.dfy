/**
 * `extract_modules`: the single pass over the lines of a `darshan-parser`
 * dump that collects, per module, its column names, its data rows and the
 * comment text that describes it.
 *
 * `Step` and `Scan` are the specification: the scanner state as a value and
 * its change per line. `ModuleScanner` is the loop of the Python function,
 * with its local variables as fields, proved to follow `Step`.
 */
module Scanner {
  import opened Wrappers
  import opened PyStr

  /** Warning lines the dump tool prints that are dropped wherever they occur. */
  const SkipLines: seq<string> := [
      "# *WARNING*: The POSIX module contains incomplete data!",
      "#            This happens when a module runs out of",
      "#            memory to store new record data.",
      "# To avoid this error, consult the darshan-runtime",
      "# documentation and consider setting the",
      "# DARSHAN_EXCLUDE_DIRS environment variable to prevent",
      "# Darshan from instrumenting unecessary files."
  ]

  const ModuleDataMarker := "module data"
  const ColumnSpecPrefix := "#<module>"
  const CommentPrefix := "#"

  /** What is collected for one module: `{'columns': ..., 'data': ..., 'description': ...}`. */
  datatype ModuleEntry = ModuleEntry(columns: seq<string>, data: seq<seq<string>>, description: string)

  /**
   * The loop variables of `extract_modules`: the `modules` dict, the current
   * `module` name, the `in_module` flag, the `current_description` buffer and
   * the `column_names` in force.
   */
  datatype ScanState = ScanState(
    modules: map<string, ModuleEntry>,
    moduleName: Option<string>,
    inModule: bool,
    description: seq<string>,
    columns: seq<string>)

  /** Before the first line. `column_names` is unbound in Python until a column-spec line; it is never read before one, so `[]` stands for it. */
  const Initial := ScanState(map[], None, false, [], [])

  /** The current module, when there is one, has an entry: `modules[module]` never fails. */
  predicate Tracked(s: ScanState) {
    s.moduleName.Some? ==> s.moduleName.value in s.modules
  }

  /** A line removed before any other rule looks at it. */
  predicate Dropped(line: string) {
    line in SkipLines || Contains(line, ModuleDataMarker)
  }

  /** A line the scanner stores as a data row of the current block. */
  predicate IsDataRow(s: ScanState, line: string) {
    s.inModule && !Dropped(line) && !StartsWith(line, ColumnSpecPrefix) && !IsBlank(line)
  }

  /** The rows the current block's module already has. */
  function CurrentRows(s: ScanState): seq<seq<string>>
    requires Tracked(s)
  {
    if s.moduleName.None? then [] else s.modules[s.moduleName.value].data
  }

  /**
   * The column names of a `#<module>` line: the text inside each `<...>`,
   * in order, with every space turned into '_'.
   */
  function ColumnNames(line: string): (names: seq<string>)
    ensures |names| == |FindBracketed(line)|
    ensures forall i | 0 <= i < |names| :: ' ' !in names[i]
  {
    var groups := FindBracketed(line);
    var names := seq(|groups|, i requires 0 <= i < |groups| => Replace(groups[i], " ", "_"));
    assert forall i | 0 <= i < |names| :: ' ' !in names[i] by {
      forall i | 0 <= i < |names| ensures ' ' !in names[i] {
        ReplaceRemovesChar(groups[i], ' ', "_");
      }
    }
    names
  }

  /** The handling of one line, rule by rule in the order the source tries them. */
  function Step(s: ScanState, line: string): (r: ScanState)
    requires Tracked(s)
    ensures Tracked(r)
    // A warning line changes nothing; a banner line only empties the description buffer.
    ensures line in SkipLines ==> r == s
    ensures line !in SkipLines && Contains(line, ModuleDataMarker) ==> r == s.(description := [])
    // A column-spec line sets the columns, opens a block and is stored nowhere.
    ensures !Dropped(line) && StartsWith(line, ColumnSpecPrefix) ==>
      r == s.(columns := ColumnNames(line), inModule := true)
    // Outside a block a comment line is added to the description, and any other line changes nothing.
    ensures !Dropped(line) && !StartsWith(line, ColumnSpecPrefix) && StartsWith(line, CommentPrefix) && !s.inModule ==>
      r == s.(description := s.description + [line])
    ensures !Dropped(line) && !StartsWith(line, ColumnSpecPrefix) && !StartsWith(line, CommentPrefix) && !s.inModule ==>
      r == s
    // A blank line inside a block closes it.
    ensures s.inModule && !Dropped(line) && !StartsWith(line, ColumnSpecPrefix) && IsBlank(line) ==>
      r == s.(inModule := false, moduleName := None)
    // A data row is never blank, so it has tokens.
    ensures IsDataRow(s, line) ==> Split(line) != []
    // The whole new state for a data row: a later row of a block is appended to the block's module entry,
    // and the first row names the module and creates (or replaces) its entry.
    ensures IsDataRow(s, line) && s.moduleName.Some? ==>
      r == s.(modules := s.modules[s.moduleName.value :=
                s.modules[s.moduleName.value].(data := s.modules[s.moduleName.value].data + [Split(line)])])
    ensures IsDataRow(s, line) && s.moduleName.None? ==>
      r == s.(moduleName := Some(Split(line)[0]),
              modules := s.modules[Split(line)[0] := ModuleEntry(s.columns, [Split(line)], Join(s.description, "\n"))])
    // Entries of other modules never change and are never removed.
    ensures forall n | n in s.modules && Some(n) != r.moduleName :: n in r.modules && r.modules[n] == s.modules[n]
    ensures s.modules.Keys <= r.modules.Keys
  {
    if line in SkipLines then s
    else if Contains(line, ModuleDataMarker) then s.(description := [])
    else if StartsWith(line, ColumnSpecPrefix) then s.(columns := ColumnNames(line), inModule := true)
    else if StartsWith(line, CommentPrefix) && !s.inModule then s.(description := s.description + [line])
    else if s.inModule then
      if IsBlank(line) then s.(inModule := false, moduleName := None)
      else
        var fields := Split(line);
        if s.moduleName.None? then
          var name := fields[0];
          s.(moduleName := Some(name),
             modules := s.modules[name := ModuleEntry(s.columns, [fields], Join(s.description, "\n"))])
        else
          var name := s.moduleName.value;
          s.(modules := s.modules[name := s.modules[name].(data := s.modules[name].data + [fields])])
    else s
  }

  /** The state after the given lines, one `Step` per line from the start. */
  function Scan(lines: seq<string>): (s: ScanState)
    ensures Tracked(s)
    decreases |lines|
  {
    if lines == [] then Initial else Step(Scan(lines[..|lines| - 1]), lines[|lines| - 1])
  }

  /** The dictionary `extract_modules(log_data)` returns. */
  function ExtractedModules(logData: string): map<string, ModuleEntry> {
    Scan(SplitLines(logData)).modules
  }

  /** The loop of `extract_modules`, its local variables kept as fields. */
  class ModuleScanner {
    var modules: map<string, ModuleEntry>
    var moduleName: Option<string>
    var inModule: bool
    var currentDescription: seq<string>
    var columnNames: seq<string>

    function State(): ScanState
      reads this
    {
      ScanState(modules, moduleName, inModule, currentDescription, columnNames)
    }

    ghost predicate Valid()
      reads this
    {
      Tracked(State())
    }

    constructor ()
      ensures Valid() && State() == Initial
    {
      modules := map[];
      moduleName := None;
      inModule := false;
      currentDescription := [];
      columnNames := [];
    }

    /** One iteration of the loop. */
    method Feed(line: string)
      requires Valid()
      modifies this
      ensures Valid() && State() == Step(old(State()), line)
    {
      if line in SkipLines {
        return;
      }
      if Contains(line, ModuleDataMarker) {
        currentDescription := [];
      } else if StartsWith(line, ColumnSpecPrefix) {
        columnNames := ColumnNames(line);
        inModule := true;
      } else if StartsWith(line, CommentPrefix) && !inModule {
        currentDescription := currentDescription + [line];
      } else if inModule {
        if IsBlank(line) {
          inModule := false;
          moduleName := None;
        } else {
          var fields := Split(line);
          if moduleName.None? {
            moduleName := Some(fields[0]);
            modules := modules[fields[0] := ModuleEntry(columnNames, [], Join(currentDescription, "\n"))];
          }
          var name := moduleName.value;
          modules := modules[name := modules[name].(data := modules[name].data + [fields])];
          assert modules[name] == Step(old(State()), line).modules[name];
        }
      }
    }
  }

  method ExtractModules(logData: string) returns (modules: map<string, ModuleEntry>)
    ensures modules == ExtractedModules(logData)
  {
    var scanner := new ModuleScanner();
    var lines := SplitLines(logData);
    var i := 0;
    while i < |lines|
      invariant i <= |lines|
      invariant scanner.Valid() && scanner.State() == Scan(lines[..i])
    {
      scanner.Feed(lines[i]);
      assert lines[..i + 1][..i] == lines[..i];
      i := i + 1;
    }
    assert lines[..|lines|] == lines;
    modules := scanner.modules;
  }

  /** Each collected module: named by the first token of its first row, with at least one row, no empty row and no space in a column name. */
  predicate WellFormedEntry(name: string, e: ModuleEntry) {
    && |e.data| >= 1
    && (forall i | 0 <= i < |e.data| :: e.data[i] != [])
    && e.data[0][0] == name
    && (forall j | 0 <= j < |e.columns| :: ' ' !in e.columns[j])
  }

  ghost predicate Inv(s: ScanState) {
    && Tracked(s)
    && (s.moduleName.Some? ==> s.inModule)
    && (forall j | 0 <= j < |s.columns| :: ' ' !in s.columns[j])
    && (forall n | n in s.modules :: WellFormedEntry(n, s.modules[n]))
  }

  lemma StepInv(s: ScanState, line: string)
    requires Inv(s)
    ensures Inv(Step(s, line))
  {
    var r := Step(s, line);
    if IsDataRow(s, line) {
      var name := r.moduleName.value;
      if s.moduleName.Some? {
        assert WellFormedEntry(name, s.modules[name]);
      }
    }
  }

  /** Whatever the input, every collected module satisfies `WellFormedEntry`. */
  lemma {:induction false} ScanInv(lines: seq<string>)
    ensures Inv(Scan(lines))
    decreases |lines|
  {
    if lines != [] {
      ScanInv(lines[..|lines| - 1]);
      StepInv(Scan(lines[..|lines| - 1]), lines[|lines| - 1]);
    }
  }

  /** Every module `extract_modules` returns has at least one row, and no column name holds a space. */
  lemma ExtractedModulesWellFormed(logData: string, name: string)
    requires name in ExtractedModules(logData)
    ensures WellFormedEntry(name, ExtractedModules(logData)[name])
  {
    ScanInv(SplitLines(logData));
  }

  /** Description lines taken from the input: comments, none of them dropped. */
  ghost predicate CommentsFrom(d: seq<string>, lines: seq<string>) {
    forall i | 0 <= i < |d| :: d[i] in lines && !Dropped(d[i]) && StartsWith(d[i], CommentPrefix)
  }

  /** A row read from some input line that was not dropped. */
  ghost predicate RowFrom(row: seq<string>, lines: seq<string>) {
    exists l | l in lines :: !Dropped(l) && row == Split(l)
  }

  /** Where everything in a state came from: lines of the input that were not dropped. */
  ghost predicate FromLines(s: ScanState, lines: seq<string>) {
    && CommentsFrom(s.description, lines)
    && (forall n | n in s.modules ::
          && (forall i | 0 <= i < |s.modules[n].data| :: RowFrom(s.modules[n].data[i], lines))
          && exists d :: CommentsFrom(d, lines) && s.modules[n].description == Join(d, "\n"))
  }

  lemma FromMoreLines(s: ScanState, lines: seq<string>, line: string)
    requires FromLines(s, lines)
    ensures FromLines(s, lines + [line])
  {
    var more := lines + [line];
    forall n | n in s.modules
      ensures forall i | 0 <= i < |s.modules[n].data| :: RowFrom(s.modules[n].data[i], more)
      ensures exists d :: CommentsFrom(d, more) && s.modules[n].description == Join(d, "\n")
    {
      forall i | 0 <= i < |s.modules[n].data| ensures RowFrom(s.modules[n].data[i], more) {
        var l :| l in lines && !Dropped(l) && s.modules[n].data[i] == Split(l);
        assert l in more;
      }
      var d :| CommentsFrom(d, lines) && s.modules[n].description == Join(d, "\n");
      assert CommentsFrom(d, more);
    }
  }

  lemma StepFrom(s: ScanState, lines: seq<string>, line: string)
    requires Tracked(s) && FromLines(s, lines) && line in lines
    ensures FromLines(Step(s, line), lines)
  {
    var r := Step(s, line);
    if IsDataRow(s, line) {
      var name := r.moduleName.value;
      assert RowFrom(Split(line), lines);
      if s.moduleName.None? {
        assert CommentsFrom(s.description, lines);
        assert r.modules[name].description == Join(s.description, "\n");
      }
    }
  }

  /**
   * Nothing but the lines of the input that are neither warning lines nor
   * "module data" banners ever reaches a row or a description: each row is
   * the tokens of such a line and each description is such comment lines
   * joined with "\n".
   */
  lemma {:induction false} ScanFromLines(lines: seq<string>)
    ensures FromLines(Scan(lines), lines)
    decreases |lines|
  {
    if lines != [] {
      var prefix := lines[..|lines| - 1];
      var last := lines[|lines| - 1];
      ScanFromLines(prefix);
      FromMoreLines(Scan(prefix), prefix, last);
      assert prefix + [last] == lines;
      StepFrom(Scan(prefix), lines, last);
    }
  }

  /** A column-spec line as `darshan-parser` prints it: the names in brackets, separated by tabs. */
  function ColumnSpecLine(names: seq<string>): string {
    "#" + Bracketed(names)
  }

  function Bracketed(names: seq<string>): string {
    if names == [] then ""
    else "<" + names[0] + ">" + (if |names| == 1 then "" else "\t" + Bracketed(names[1..]))
  }

  lemma {:induction false} FindBracketedRoundTrip(names: seq<string>)
    requires forall i | 0 <= i < |names| :: '>' !in names[i] && '\n' !in names[i]
    ensures FindBracketed(Bracketed(names)) == names
    decreases |names|
  {
    if names != [] {
      var tail := if |names| == 1 then "" else "\t" + Bracketed(names[1..]);
      assert Bracketed(names) == "" + "<" + names[0] + ">" + tail;
      BracketedNext("", names[0], tail);
      if |names| > 1 {
        FindBracketedRoundTrip(names[1..]);
        assert tail[1..] == Bracketed(names[1..]);
      }
    }
  }

  /**
   * Reading the column-spec line of a list of names gives back those names,
   * spaces turned into '_'; a spec whose first name is `module` is recognised
   * as a column-spec line.
   */
  lemma ColumnNamesRoundTrip(names: seq<string>)
    requires forall i | 0 <= i < |names| :: '>' !in names[i] && '\n' !in names[i]
    ensures |ColumnNames(ColumnSpecLine(names))| == |names|
    ensures forall i | 0 <= i < |names| :: ColumnNames(ColumnSpecLine(names))[i] == Replace(names[i], " ", "_")
    ensures names != [] && names[0] == "module" ==> StartsWith(ColumnSpecLine(names), ColumnSpecPrefix)
  {
    var line := ColumnSpecLine(names);
    FindBracketedRoundTrip(names);
    assert line[0] == '#' && line[1..] == Bracketed(names);
    assert FindBracketed(line) == names;
    if names != [] && names[0] == "module" {
      assert line[..|ColumnSpecPrefix|] == "#<module>";
    }
  }
}
