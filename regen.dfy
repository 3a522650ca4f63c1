/** `regen` and `regen_all`: for one release, the module names found in its build script,
    its `Lib/` directory, its C sources and its init tables, plus the version-gated aliases;
    for all releases, the tables of the 2.x names, the 3.x names and both together.
    The cache directory's contents, the parser and the files written are parameters and
    results: nothing here touches a file system. */
module Regen {
  import opened Wrappers
  import opened PyStr
  import opened Filter
  import opened Gather
  import opened Legacy
  import opened Versions
  import opened NameRules
  import opened Visitor
  import opened Parsing

  /** What the cache directory of one release holds when `regen` reads it. */
  datatype SourceTree = SourceTree(
    /** the directory existed before, so nothing was downloaded or migrated */
    cached: bool,
    /** the build script: `setup.py` for 3.x; for 2.x the output of `lib2to3` when the tree
        is fresh, otherwise the `fixed/setup.py` written by an earlier run */
    script: string,
    /** the listing of `Lib/` */
    lib: seq<Entry>,
    /** the `*.c` files of `Python/`, `Modules/` and `PC/`, in that order */
    sources: seq<CSource>,
    /** `PC/config.c` and `PC/os2vacpp/config.c` */
    configs: seq<ConfigFile>)

  /** The parser: grammar version and script text to syntax tree or syntax error. */
  type Parser = (string, string) -> Result<Node, string>

  /** A generated table written to disk: file name and the set of names it lists. */
  datatype Write = Write(fileName: string, names: set<string>)

  /** The text handed to the parser: a freshly migrated 2.x script is first cleaned of its
      unparseable lines (and written back in that form). */
  function ScriptText(version: string, tree: SourceTree): string {
    if !tree.cached && StartsWith(version, "2") then FixLegacySetup(tree.script) else tree.script
  }

  /** `try_parse(setup_path)`, its failure raised as an exception. */
  function ParsedScript(version: string, tree: SourceTree, grammars: seq<string>, parser: Parser): Result<Node, Exc> {
    match NewestParse(grammars, parser, ScriptText(version, tree))
    case Success(m) => Success(m)
    case Failure(f) => Failure(ParseError(f))
  }

  /** The list `names` as `regen` leaves it, or the exception it raises first: the visitor's
      names, then those of `Lib/`, of the C files, of the init tables, and the aliases. */
  function RegenNames(version: string, tree: SourceTree, grammars: seq<string>, parser: Parser): Result<seq<string>, Exc> {
    var m :- ParsedScript(version, tree, grammars, parser);
    var names :- Extend(Collected(m), LibNames(tree.lib));
    var names :- Extend(names, NativeNames(tree.sources));
    var names :- Extend(names, InittabNames(tree.configs));
    var t :- VersionTuple(version);
    Success(names + Aliases(t))
  }

  function SetOf(names: seq<string>): set<string> {
    set n | n in names
  }

  /** What `regen(version)` returns. */
  function RegenResult(version: string, tree: SourceTree, grammars: seq<string>, parser: Parser): Result<set<string>, Exc> {
    var names :- RegenNames(version, tree, grammars, parser);
    Success(SetOf(names))
  }

  /** The inner loop over a platform directory. */
  method AppendChildren(names: seq<string>, cs: seq<Entry>) returns (out: seq<string>)
    ensures out == names + ChildNames(cs)
  {
    out := names;
    var j := 0;
    while j < |cs|
      invariant j <= |cs|
      invariant out == names + ChildNames(cs[..j])
    {
      var path := cs[j];
      assert cs[..j + 1][..j] == cs[..j];
      if path.kind.Dir? && !StartsWith(path.name, "lib-") {
        out := out + [path.name];
      } else if EndsWith(path.name, ".py") {
        out := out + [Stem(path.name)];
      }
      j := j + 1;
    }
    assert cs[..j] == cs;
  }

  /** The body of the loop over `Lib/`, for the entry `p`. */
  method AppendEntry(names: seq<string>, p: Entry) returns (r: Result<seq<string>, Exc>)
    ensures r == Extend(names, EntryNames(p))
  {
    if IsPlatformDir(p.name) {
      if p.kind.File? {
        assert EntryNames(p) == Failure(NotADirectoryError(p.name));
        return Failure(NotADirectoryError(p.name));
      }
      var out := AppendChildren(names, p.kind.children);
      assert EntryNames(p) == Success(ChildNames(p.kind.children));
      r := Success(out);
    } else {
      var name := Split(Stem(p.name), '.')[0];
      assert TopName(p) == if name in NotModules then None else Some(name);
      if name !in NotModules {
        assert EntryNames(p) == Success([name]);
        r := Success(names + [name]);
      } else {
        assert EntryNames(p) == Success([]) && names + [] == names;
        r := Success(names);
      }
    }
  }

  /** The version-gated aliases appended for the version tuple `t`. */
  method AppendAliases(names: seq<string>, t: seq<int>) returns (out: seq<string>)
    ensures out == names + Aliases(t)
  {
    out := names;
    if AtLeast(t, [3, 3]) {
      out := out + ["_frozen_importlib"];
    }
    if AtLeast(t, [3, 5]) {
      out := out + ["_frozen_importlib_external"];
    }
  }

  /** The loop over the listing of `Lib/`. */
  method AppendLib(names: seq<string>, entries: seq<Entry>) returns (r: Result<seq<string>, Exc>)
    ensures r == Extend(names, LibNames(entries))
  {
    var out := names;
    var i := 0;
    while i < |entries|
      invariant i <= |entries|
      invariant LibNames(entries[..i]).Success?
      invariant out == names + LibNames(entries[..i]).value
    {
      var step := AppendEntry(out, entries[i]);
      if step.Failure? {
        ConcatMapRaisesAt(entries, i, EntryNames);
        return step;
      }
      ConcatMapStep(entries, i, EntryNames, names, out);
      out := step.value;
      i := i + 1;
    }
    assert entries[..i] == entries;
    r := Success(out);
  }

  /** The body of the loop over the C files, for the file `p`. */
  method AppendSource(names: seq<string>, p: CSource) returns (r: Result<seq<string>, Exc>)
    ensures r == Extend(names, SourceNames(p))
  {
    assert names + [] == names;
    if p.capture.None? {
      return Success(names);
    }
    var s := Strip(p.capture.value);
    if StartsWith(s, ".m_name") {
      var parts := Split(s, '=');
      if |parts| < 2 {
        assert AfterEquals(s).Failure?;
        return Failure(IndexError("s.split(\"=\")[1]"));
      }
      assert AfterEquals(s) == Success(Strip(parts[1]));
      s := Strip(parts[1]);
    }
    var name := Record(p.fileName, s);
    assert ResolveNative(p.fileName, p.capture.value) == Success(name);
    if name.Some? {
      r := Success(names + [name.value]);
    } else {
      r := Success(names);
    }
  }

  /** The loop over the C files. */
  method AppendNative(names: seq<string>, sources: seq<CSource>) returns (r: Result<seq<string>, Exc>)
    ensures r == Extend(names, NativeNames(sources))
  {
    var out := names;
    var i := 0;
    while i < |sources|
      invariant i <= |sources|
      invariant NativeNames(sources[..i]).Success?
      invariant out == names + NativeNames(sources[..i]).value
    {
      var step := AppendSource(out, sources[i]);
      if step.Failure? {
        ConcatMapRaisesAt(sources, i, SourceNames);
        return step;
      }
      ConcatMapStep(sources, i, SourceNames, names, out);
      out := step.value;
      i := i + 1;
    }
    assert sources[..i] == sources;
    r := Success(out);
  }

  /** The inner loop over the entries of one init table. */
  method AppendTable(names: seq<string>, captured: seq<string>) returns (out: seq<string>)
    ensures out == names + Drop(captured, IsMain)
  {
    out := names;
    var j := 0;
    while j < |captured|
      invariant j <= |captured|
      invariant out == names + Drop(captured[..j], IsMain)
    {
      var name := captured[j];
      DropAppend(captured[..j], [name], IsMain);
      assert captured[..j + 1] == captured[..j] + [name];
      assert [name][1..] == [];
      if name != "__main__" {
        out := out + [name];
      }
      j := j + 1;
    }
    assert captured[..j] == captured;
  }

  /** The body of the loop over the two `config.c` files, for the file `path`. */
  method AppendConfig(names: seq<string>, path: ConfigFile) returns (r: Result<seq<string>, Exc>)
    ensures r == Extend(names, ConfigNames(path))
  {
    if path.Missing? {
      assert names + [] == names;
      return Success(names);
    }
    if FindSub(path.text, InittabMarker).None? {
      return Failure(IndexError("split(marker)[1]"));
    }
    var out := AppendTable(names, path.captured);
    r := Success(out);
  }

  /** The loop over the two `config.c` files. */
  method AppendInittab(names: seq<string>, configs: seq<ConfigFile>) returns (r: Result<seq<string>, Exc>)
    ensures r == Extend(names, InittabNames(configs))
  {
    var out := names;
    var i := 0;
    while i < |configs|
      invariant i <= |configs|
      invariant InittabNames(configs[..i]).Success?
      invariant out == names + InittabNames(configs[..i]).value
    {
      var step := AppendConfig(out, configs[i]);
      if step.Failure? {
        ConcatMapRaisesAt(configs, i, ConfigNames);
        return step;
      }
      ConcatMapStep(configs, i, ConfigNames, names, out);
      out := step.value;
      i := i + 1;
    }
    assert configs[..i] == configs;
    r := Success(out);
  }

  /** `regen(version)`: the names of one release, and the table it writes for them. */
  method RegenRelease(version: string, tree: SourceTree, grammars: seq<string>, parser: Parser)
    returns (r: Result<set<string>, Exc>, writes: seq<Write>)
    ensures r == RegenResult(version, tree, grammars, parser)
    ensures writes == if r.Success? then [Write(OutputFileName(version), r.value)] else []
  {
    writes := [];
    var parsed;
    ghost var tried;
    parsed, tried := TryParse(grammars, parser, ScriptText(version, tree));
    if parsed.Failure? {
      return Failure(ParseError(parsed.error)), writes;
    }
    var names := ExtensionNames(parsed.value);
    var lib := AppendLib(names, tree.lib);
    if lib.Failure? {
      return Failure(lib.error), writes;
    }
    var native := AppendNative(lib.value, tree.sources);
    if native.Failure? {
      return Failure(native.error), writes;
    }
    var inittab := AppendInittab(native.value, tree.configs);
    if inittab.Failure? {
      return Failure(inittab.error), writes;
    }
    names := inittab.value;
    var versionTuple := VersionTuple(version);
    if versionTuple.Failure? {
      return Failure(versionTuple.error), writes;
    }
    names := AppendAliases(names, versionTuple.value);
    writes := [Write(OutputFileName(version), SetOf(names))];
    r := Success(SetOf(names));
  }

  /** `regen` raises the exception of the first stage that raises, in the order parse,
      `Lib/`, C files, init tables, version tuple; otherwise the list holds the names of
      every stage, in that order. */
  lemma RegenNamesStages(version: string, tree: SourceTree, grammars: seq<string>, parser: Parser)
    ensures var r := RegenNames(version, tree, grammars, parser);
      var parsed := ParsedScript(version, tree, grammars, parser);
      var lib := LibNames(tree.lib);
      var native := NativeNames(tree.sources);
      var inittab := InittabNames(tree.configs);
      var tuple := VersionTuple(version);
      (parsed.Failure? ==> r == Failure(parsed.error)) &&
      (parsed.Success? && lib.Failure? ==> r == Failure(lib.error)) &&
      (parsed.Success? && lib.Success? && native.Failure? ==> r == Failure(native.error)) &&
      (parsed.Success? && lib.Success? && native.Success? && inittab.Failure? ==> r == Failure(inittab.error)) &&
      (parsed.Success? && lib.Success? && native.Success? && inittab.Success? && tuple.Failure? ==>
        r == Failure(tuple.error)) &&
      (parsed.Success? && lib.Success? && native.Success? && inittab.Success? && tuple.Success? ==>
        r == Success(Collected(parsed.value) + lib.value + native.value + inittab.value + Aliases(tuple.value)))
  {
  }

  /** A name is in the set `regen` returns exactly when one of the stages found it. */
  lemma RegenResultMembership(version: string, tree: SourceTree, grammars: seq<string>, parser: Parser, n: string)
    requires RegenResult(version, tree, grammars, parser).Success?
    ensures ParsedScript(version, tree, grammars, parser).Success? && LibNames(tree.lib).Success? &&
      NativeNames(tree.sources).Success? && InittabNames(tree.configs).Success? && VersionTuple(version).Success?
    ensures n in RegenResult(version, tree, grammars, parser).value <==>
      n in Collected(ParsedScript(version, tree, grammars, parser).value) ||
      n in LibNames(tree.lib).value || n in NativeNames(tree.sources).value ||
      n in InittabNames(tree.configs).value || n in Aliases(VersionTuple(version).value)
  {
    RegenNamesStages(version, tree, grammars, parser);
  }

  /** Every release from 3.3 on lists `_frozen_importlib`, and from 3.5 on also
      `_frozen_importlib_external`. */
  lemma RegenAliases(version: string, tree: SourceTree, grammars: seq<string>, parser: Parser)
    requires RegenResult(version, tree, grammars, parser).Success?
    ensures VersionTuple(version).Success?
    ensures AtLeast(VersionTuple(version).value, [3, 3]) ==>
      "_frozen_importlib" in RegenResult(version, tree, grammars, parser).value
    ensures AtLeast(VersionTuple(version).value, [3, 5]) ==>
      "_frozen_importlib_external" in RegenResult(version, tree, grammars, parser).value
  {
    RegenResultMembership(version, tree, grammars, parser, "_frozen_importlib");
    RegenResultMembership(version, tree, grammars, parser, "_frozen_importlib_external");
  }

  /** A fresh 2.x script of which no line is listed as unparseable is parsed as `read_text()`
      reads it, with its line ends translated to `\n`; a script without `\r` is parsed as
      extracted. */
  lemma ScriptTextUnchanged(version: string, tree: SourceTree)
    requires var ls := SplitLinesKeepEnds(UniversalNewlines(tree.script));
      forall k | 0 <= k < |ls| :: !Omitted(ls[k])
    ensures !tree.cached && StartsWith(version, "2") ==> ScriptText(version, tree) == UniversalNewlines(tree.script)
    ensures '\r' !in tree.script ==> ScriptText(version, tree) == tree.script
  {
    FixLegacySetupUnchanged(tree.script);
  }

  // ---------------------------------------------------------------------------------------
  // regen_all

  /** The message of the `ValueError` for a version that is neither 2.x nor 3.x. */
  function BraveNewFuture(): string { "What is this brave new future you live in" }

  /** The state of `regen_all` after some releases: the two accumulated sets, the tables
      written so far, and the exception that stopped it, if any. */
  datatype Run = Run(all2: set<string>, all3: set<string>, writes: seq<Write>, error: Option<Exc>)

  /** `regen` for every release, with the cache directory of `version` holding
      `trees(version)`. */
  function Releaser(trees: string -> SourceTree, grammars: seq<string>, parser: Parser): string -> Result<set<string>, Exc> {
    v => RegenResult(v, trees(v), grammars, parser)
  }

  /** `regen_all`'s loop over `versions`, `regen(v)` being what `regen` returns for `v`:
      each release's names go into `all2` or `all3` by the first character of its version;
      any other version raises after its table has been written. */
  function RunOver(versions: seq<string>, regen: string -> Result<set<string>, Exc>): Run
    decreases |versions|
  {
    if |versions| == 0 then Run({}, {}, [], None)
    else
      var run := RunOver(versions[..|versions| - 1], regen);
      var v := versions[|versions| - 1];
      if run.error.Some? then run
      else
        match regen(v)
        case Failure(e) => run.(error := Some(e))
        case Success(names) =>
          var run := run.(writes := run.writes + [Write(OutputFileName(v), names)]);
          if StartsWith(v, "2") then run.(all2 := run.all2 + names)
          else if StartsWith(v, "3") then run.(all3 := run.all3 + names)
          else run.(error := Some(ValueError(BraveNewFuture())))
  }

  /** The three combined tables, written after every release has been handled. */
  function Combined(all2: set<string>, all3: set<string>): seq<Write> {
    [Write("py2.py", all2), Write("py3.py", all3), Write("py.py", all2 + all3)]
  }

  /** Everything `regen_all` does over the releases `versions`. */
  function RegenAllRun(versions: seq<string>, regen: string -> Result<set<string>, Exc>): Run {
    var run := RunOver(versions, regen);
    if run.error.Some? then run else run.(writes := run.writes + Combined(run.all2, run.all3))
  }

  /** Once a release has raised, later releases are not handled. */
  lemma {:induction false} RunOverStops(xs: seq<string>, ys: seq<string>, regen: string -> Result<set<string>, Exc>)
    requires RunOver(xs, regen).error.Some?
    ensures RunOver(xs + ys, regen) == RunOver(xs, regen)
    decreases |ys|
  {
    if |ys| == 0 {
      assert xs + ys == xs;
    } else {
      var init := ys[..|ys| - 1];
      RunOverStops(xs, init, regen);
      assert (xs + ys)[..|xs + ys| - 1] == xs + init;
    }
  }

  /** A release that raises ends `regen_all`. */
  lemma RunOverStopsAt(versions: seq<string>, i: nat, regen: string -> Result<set<string>, Exc>)
    requires i < |versions| && RunOver(versions[..i + 1], regen).error.Some?
    ensures RunOver(versions, regen) == RunOver(versions[..i + 1], regen)
  {
    JoinAt(versions, i + 1);
    RunOverStops(versions[..i + 1], versions[i + 1..], regen);
  }

  /** A sequence is its prefix followed by the rest. */
  lemma JoinAt(s: seq<string>, i: nat)
    requires i <= |s|
    ensures s[..i] + s[i..] == s
  {
  }

  /** `regen_all`: the tables written, in order, and the exception that ended it, if any. */
  method RegenAll(versions: seq<string>, trees: string -> SourceTree, grammars: seq<string>, parser: Parser)
    returns (writes: seq<Write>, error: Option<Exc>)
    ensures writes == RegenAllRun(versions, Releaser(trees, grammars, parser)).writes
    ensures error == RegenAllRun(versions, Releaser(trees, grammars, parser)).error
  {
    ghost var regen := Releaser(trees, grammars, parser);
    var all2: set<string> := {};
    var all3: set<string> := {};
    writes := [];
    var i := 0;
    while i < |versions|
      invariant i <= |versions|
      invariant RunOver(versions[..i], regen) == Run(all2, all3, writes, None)
    {
      var v := versions[i];
      assert versions[..i + 1][..i] == versions[..i];
      var names, written := RegenRelease(v, trees(v), grammars, parser);
      writes := writes + written;
      if names.Failure? {
        RunOverStopsAt(versions, i, regen);
        return writes, Some(names.error);
      }
      if StartsWith(v, "2") {
        all2 := all2 + names.value;
      } else if StartsWith(v, "3") {
        all3 := all3 + names.value;
      } else {
        RunOverStopsAt(versions, i, regen);
        return writes, Some(ValueError(BraveNewFuture()));
      }
      i := i + 1;
    }
    assert versions[..i] == versions;
    writes := writes + Combined(all2, all3);
    error := None;
  }

  /** A handled release is a 2.x one or a 3.x one, never both. */
  lemma MajorsDisjoint(v: string)
    ensures StartsWith(v, "2") ==> !StartsWith(v, "3")
  {
    if StartsWith(v, "2") {
      assert v[0] == "2"[0];
    }
  }

  /** `regen_all` finishes exactly when every release is handled without an exception and
      every version starts with 2 or 3. */
  lemma {:induction false} RunOverFinishes(versions: seq<string>, regen: string -> Result<set<string>, Exc>)
    ensures RunOver(versions, regen).error.None? <==>
      forall k | 0 <= k < |versions| ::
        regen(versions[k]).Success? &&
        (StartsWith(versions[k], "2") || StartsWith(versions[k], "3"))
    decreases |versions|
  {
    if |versions| > 0 {
      var last := |versions| - 1;
      var init := versions[..last];
      RunOverFinishes(init, regen);
      assert forall k | 0 <= k < last :: init[k] == versions[k];
    }
  }

  /** One release starting with neither 2 nor 3, after releases that were all handled. */
  lemma RunOverBraveNewFuture(pre: seq<string>, regen: string -> Result<set<string>, Exc>)
    requires |pre| > 0
    requires RunOver(pre[..|pre| - 1], regen).error.None? && regen(pre[|pre| - 1]).Success?
    requires !StartsWith(pre[|pre| - 1], "2") && !StartsWith(pre[|pre| - 1], "3")
    ensures RunOver(pre, regen).error == Some(ValueError(BraveNewFuture()))
    ensures RunOver(pre, regen).writes ==
      RunOver(pre[..|pre| - 1], regen).writes + [Write(OutputFileName(pre[|pre| - 1]), regen(pre[|pre| - 1]).value)]
  {
  }

  /** The first release whose version starts with neither 2 nor 3, when every earlier one
      was handled, ends `regen_all` with `ValueError("What is this brave new future you live
      in")`, after its own table has been written. */
  lemma BraveNewFutureRaised(versions: seq<string>, regen: string -> Result<set<string>, Exc>, i: nat)
    requires i < |versions|
    requires forall k | 0 <= k < i ::
      regen(versions[k]).Success? && (StartsWith(versions[k], "2") || StartsWith(versions[k], "3"))
    requires regen(versions[i]).Success?
    requires !StartsWith(versions[i], "2") && !StartsWith(versions[i], "3")
    ensures RunOver(versions, regen).error == Some(ValueError(BraveNewFuture()))
    ensures RunOver(versions, regen).writes ==
      RunOver(versions[..i], regen).writes + [Write(OutputFileName(versions[i]), regen(versions[i]).value)]
  {
    var init, v := versions[..i], versions[i];
    assert RunOver(init, regen).error.None? by {
      assert forall k | 0 <= k < |init| :: init[k] == versions[k];
      RunOverFinishes(init, regen);
    }
    var pre := versions[..i + 1];
    assert pre[..|pre| - 1] == init && pre[|pre| - 1] == v;
    RunOverBraveNewFuture(pre, regen);
    RunOverStopsAt(versions, i, regen);
  }

  /** When `regen_all` finishes, `all2` is the union of the 2.x releases' sets, `all3` that of
      the 3.x releases', and one table has been written per release, in order. */
  lemma {:induction false} RunOverTables(versions: seq<string>, regen: string -> Result<set<string>, Exc>, n: string)
    requires RunOver(versions, regen).error.None?
    ensures var run := RunOver(versions, regen);
      (n in run.all2 <==> exists k | 0 <= k < |versions| ::
        StartsWith(versions[k], "2") && regen(versions[k]).Success? && n in regen(versions[k]).value) &&
      (n in run.all3 <==> exists k | 0 <= k < |versions| ::
        StartsWith(versions[k], "3") && regen(versions[k]).Success? && n in regen(versions[k]).value)
    decreases |versions|
  {
    if |versions| > 0 {
      var last := |versions| - 1;
      var init := versions[..last];
      RunOverTables(init, regen, n);
      assert forall k | 0 <= k < last :: init[k] == versions[k];
      MajorsDisjoint(versions[last]);
    }
  }

  /** One table per release, named after its version and listing its set. */
  lemma {:induction false} RunOverWrites(versions: seq<string>, regen: string -> Result<set<string>, Exc>)
    requires RunOver(versions, regen).error.None?
    ensures var run := RunOver(versions, regen);
      |run.writes| == |versions| &&
      forall k | 0 <= k < |versions| ::
        regen(versions[k]).Success? &&
        run.writes[k] == Write(OutputFileName(versions[k]), regen(versions[k]).value)
    decreases |versions|
  {
    if |versions| > 0 {
      var last := |versions| - 1;
      var init := versions[..last];
      RunOverWrites(init, regen);
      assert forall k | 0 <= k < last :: init[k] == versions[k];
    }
  }

  /** When `regen_all` finishes, its last three tables are `py2.py`, `py3.py` and `py.py`, and
      a name is in `py.py` exactly when some release lists it. */
  lemma RegenAllCombined(versions: seq<string>, regen: string -> Result<set<string>, Exc>, n: string)
    requires RegenAllRun(versions, regen).error.None?
    ensures var run := RunOver(versions, regen);
      var writes := RegenAllRun(versions, regen).writes;
      |writes| == |versions| + 3 &&
      writes[|versions|..] == Combined(run.all2, run.all3) &&
      (n in writes[|versions| + 2].names <==>
        exists k | 0 <= k < |versions| :: regen(versions[k]).Success? && n in regen(versions[k]).value)
  {
    RunOverWrites(versions, regen);
    RunOverTables(versions, regen, n);
    RunOverFinishes(versions, regen);
    var run := RunOver(versions, regen);
    assert (run.writes + Combined(run.all2, run.all3))[|versions|..] == Combined(run.all2, run.all3);
  }

  /** The version strings of a release table, in order. */
  function VersionsOf(releases: seq<(string, string)>): seq<string> {
    seq(|releases|, k requires 0 <= k < |releases| => releases[k].0)
  }

  /** Over the shipped release table the `ValueError` of `regen_all` cannot happen: it
      finishes exactly when every release is handled without an exception. */
  lemma RegenAllOfReleases(regen: string -> Result<set<string>, Exc>)
    ensures RunOver(VersionsOf(Releases), regen).error.None? <==>
      forall k | 0 <= k < |Releases| :: regen(Releases[k].0).Success?
  {
    var vs := VersionsOf(Releases);
    assert |vs| == |Releases| && forall k | 0 <= k < |vs| :: vs[k] == Releases[k].0;
    ReleasesAreTwoOrThree();
    RunOverFinishes(vs, regen);
  }
}
