/** The rules `regen` applies to turn what it finds in a source tree into module names:
    the name captured from a C extension's module definition, the entries of `Lib/`, and the
    entries of the Windows init tables. */
module NameRules {
  import opened Wrappers
  import opened PyStr
  import opened Filter
  import opened Gather

  // ---------------------------------------------------------------------------------------
  // Native sources

  /** A recorded name as the list of names appended: one or none. */
  function Listed(name: Option<string>): seq<string> {
    match name
    case Some(n) => [n]
    case None => []
  }

  /** Files whose module definition names the module indirectly; they record their stem. */
  const StemFiles: seq<string> := ["_warnings.c", "_sre.c", "pyexpat.c", "_bsddb.c"]

  /** Files that record their name up to `module`. */
  const ModuleSuffixFiles: seq<string> := ["socketmodule.c", "posixmodule.c"]

  /** `s.split("=")[1].strip()`: the text between the first and the second `=`, stripped;
      `IndexError` when there is no `=`. */
  function AfterEquals(s: string): Result<string, Exc> {
    var parts := Split(s, '=');
    if |parts| < 2 then Failure(IndexError("s.split(\"=\")[1]")) else Success(Strip(parts[1]))
  }

  /** The `if`/`elif` chain on the cleaned capture `s` of file `fileName`: the name recorded,
      or `None` when the file is skipped as unknown. */
  function Record(fileName: string, s: string): Option<string> {
    if StartsWith(s, "\"") && EndsWith(s, "\"") then Some(StripSet(s, {'"'}))
    else if fileName in StemFiles then Some(Stem(fileName))
    else if fileName in ModuleSuffixFiles then Some(BeforeSub(fileName, "module"))
    else None
  }

  /** The name recorded for the C file `fileName` whose module definition captured
      `capture` (comments already removed). */
  function ResolveNative(fileName: string, capture: string): Result<Option<string>, Exc> {
    var s := Strip(capture);
    var s :- if StartsWith(s, ".m_name") then AfterEquals(s) else Success(s);
    Success(Record(fileName, s))
  }

  /** A quote is not whitespace. */
  lemma QuoteNotSpace()
    ensures '"' !in Whitespace && '.' !in Whitespace
  {
  }

  /** A capture that is a string literal records the literal's text. */
  lemma ResolveQuoted(fileName: string, name: string)
    requires name == [] || (name[0] != '"' && name[|name| - 1] != '"')
    ensures ResolveNative(fileName, "\"" + name + "\"") == Success(Some(name))
  {
    var c := "\"" + name + "\"";
    QuoteNotSpace();
    assert c[0] == '"' && c[|c| - 1] == '"';
    StripSetNoEdge(c, Whitespace);
    StripSetEnclosed('"', name, {'"'});
  }

  /** A designated `.m_name` initializer records what follows its `=`, treated as a capture
      of its own. */
  lemma ResolveMName(fileName: string, pre: string, post: string)
    requires '=' !in pre && '=' !in post
    requires |post| > 0 && post[|post| - 1] !in Whitespace
    ensures ResolveNative(fileName, ".m_name" + pre + "=" + post) ==
      Success(Record(fileName, Strip(post)))
  {
    var head := ".m_name" + pre;
    var c := head + "=" + post;
    QuoteNotSpace();
    assert c[0] == '.' && c[|c| - 1] == post[|post| - 1];
    StripSetNoEdge(c, Whitespace);
    assert StartsWith(c, ".m_name");
    assert c == head + ['='] + post;
    SplitPrefix(head, post, '=');
    SplitNoSep(post, '=');
  }

  /** A `.m_name` initializer without `=` raises `IndexError`. */
  lemma ResolveMNameMissingEquals(fileName: string, capture: string)
    requires StartsWith(Strip(capture), ".m_name") && '=' !in Strip(capture)
    ensures ResolveNative(fileName, capture).Failure?
    ensures ResolveNative(fileName, capture).error.IndexError?
  {
    SplitNoSep(Strip(capture), '=');
  }

  /** The quoted case records the unquoted text. */
  lemma RecordQuoted(fileName: string, name: string)
    requires name == [] || (name[0] != '"' && name[|name| - 1] != '"')
    ensures Record(fileName, "\"" + name + "\"") == Some(name)
  {
    StripSetEnclosed('"', name, {'"'});
  }

  /** An unquoted capture records the stem for the four listed files. */
  lemma RecordStemFile(fileName: string, s: string)
    requires !(StartsWith(s, "\"") && EndsWith(s, "\""))
    ensures fileName == "_warnings.c" ==> Record(fileName, s) == Some("_warnings")
    ensures fileName == "_sre.c" ==> Record(fileName, s) == Some("_sre")
    ensures fileName == "pyexpat.c" ==> Record(fileName, s) == Some("pyexpat")
    ensures fileName == "_bsddb.c" ==> Record(fileName, s) == Some("_bsddb")
  {
    if fileName == "_warnings.c" {
      StemOfSuffixed("_warnings", "c");
      assert "_warnings" + "." + "c" == "_warnings.c";
    } else if fileName == "_sre.c" {
      StemOfSuffixed("_sre", "c");
      assert "_sre" + "." + "c" == "_sre.c";
    } else if fileName == "pyexpat.c" {
      StemOfSuffixed("pyexpat", "c");
      assert "pyexpat" + "." + "c" == "pyexpat.c";
    } else if fileName == "_bsddb.c" {
      StemOfSuffixed("_bsddb", "c");
      assert "_bsddb" + "." + "c" == "_bsddb.c";
    }
  }

  /** An unquoted capture of `socketmodule.c` records "socket". */
  lemma RecordSocketModule(s: string)
    requires !(StartsWith(s, "\"") && EndsWith(s, "\""))
    ensures Record("socketmodule.c", s) == Some("socket")
  {
    ModuleSuffix("socket");
    assert "socket" + "module.c" == "socketmodule.c";
  }

  /** An unquoted capture of `posixmodule.c` records "posix". */
  lemma RecordPosixModule(s: string)
    requires !(StartsWith(s, "\"") && EndsWith(s, "\""))
    ensures Record("posixmodule.c", s) == Some("posix")
  {
    ModuleSuffix("posix");
    assert "posix" + "module.c" == "posixmodule.c";
  }

  /** An unquoted capture of any other file records nothing: the file is skipped. */
  lemma RecordOtherFile(fileName: string, s: string)
    requires !(StartsWith(s, "\"") && EndsWith(s, "\""))
    requires fileName !in StemFiles && fileName !in ModuleSuffixFiles
    ensures Record(fileName, s) == None
  {
  }

  /** The text before `module` in `<base>module.c`, for a `base` without an `m`. */
  lemma ModuleSuffix(base: string)
    requires 'm' !in base
    ensures BeforeSub(base + "module.c", "module") == base
  {
    var s := base + "module.c";
    assert s[|base|..|base| + 6] == "module";
    forall k | 0 <= k < |base| ensures !StartsWith(s[k..], "module") {
      assert s[k..][0] == base[k] != 'm';
    }
    FindSubAt(s, "module", |base|);
    assert s[..|base|] == base;
  }

  /** The names recorded for the C files, in order: `capture` is `None` for a file in which
      neither module-definition pattern matched. */
  datatype CSource = CSource(fileName: string, capture: Option<string>)

  /** What one C file contributes to `names`. */
  function SourceNames(src: CSource): Result<seq<string>, Exc> {
    match src.capture
    case None => Success([])
    case Some(c) =>
      var name :- ResolveNative(src.fileName, c);
      Success(Listed(name))
  }

  /** The names taken from the C files, in order. */
  function NativeNames(sources: seq<CSource>): Result<seq<string>, Exc> {
    ConcatMap(sources, SourceNames)
  }

  /** Reading the C files fails exactly when some `.m_name` capture has no `=`, and a name
      is taken exactly when some file records it. */
  lemma NativeNamesCorrect(sources: seq<CSource>, n: string)
    ensures NativeNames(sources).Failure? <==>
      exists k | 0 <= k < |sources| :: SourceNames(sources[k]).Failure?
    ensures NativeNames(sources).Success? ==>
      (n in NativeNames(sources).value <==>
        exists k | 0 <= k < |sources| :: n in SourceNames(sources[k]).value)
  {
    ConcatMapFailure(sources, SourceNames);
    if NativeNames(sources).Success? {
      ConcatMapMembership(sources, SourceNames, n);
    }
  }

  /** A C file raises only for an `.m_name` capture without `=`. */
  lemma SourceNamesFailure(src: CSource)
    ensures SourceNames(src).Failure? ==>
      src.capture.Some? && StartsWith(Strip(src.capture.value), ".m_name") &&
      |Split(Strip(src.capture.value), '=')| < 2
  {
  }

  // ---------------------------------------------------------------------------------------
  // Lib/ entries

  /** An entry of a directory listing: a file, or a directory with the entries it holds. */
  datatype Entry = Entry(name: string, kind: Kind)
  datatype Kind = File | Dir(children: seq<Entry>)

  /** Top-level names under `Lib/` that are not modules. */
  const NotModules: seq<string> := ["__pycache__", "site-packages", "test"]

  /** `p.name.startswith(("plat-", "lib-"))`: a platform directory or the Tk support one. */
  predicate IsPlatformDir(name: string) {
    StartsWith(name, "plat-") || StartsWith(name, "lib-")
  }

  /** What one entry of a platform directory contributes: a subdirectory its name unless
      that starts with `lib-`, otherwise a `.py` file (or directory) its stem. */
  function ChildName(c: Entry): Option<string> {
    if c.kind.Dir? && !StartsWith(c.name, "lib-") then Some(c.name)
    else if EndsWith(c.name, ".py") then Some(Stem(c.name))
    else None
  }

  /** The names a platform directory contributes, in listing order. */
  function ChildNames(cs: seq<Entry>): seq<string>
    decreases |cs|
  {
    if |cs| == 0 then [] else ChildNames(cs[..|cs| - 1]) + Listed(ChildName(cs[|cs| - 1]))
  }

  /** Any other top-level entry: `p.with_suffix("").name.split(".")[0]`, unless excluded. */
  function TopName(p: Entry): (r: Option<string>)
    ensures r.Some? ==> '.' !in r.value && r.value !in NotModules
  {
    var n := Split(Stem(p.name), '.')[0];
    if n in NotModules then None else Some(n)
  }

  /** What one entry of `Lib/` contributes; iterating a platform "directory" that is a file
      raises `NotADirectoryError`. */
  function EntryNames(p: Entry): Result<seq<string>, Exc> {
    if IsPlatformDir(p.name) then
      match p.kind
      case File => Failure(NotADirectoryError(p.name))
      case Dir(cs) => Success(ChildNames(cs))
    else
      Success(Listed(TopName(p)))
  }

  /** The names taken from the listing of `Lib/`, in listing order. */
  function LibNames(entries: seq<Entry>): Result<seq<string>, Exc> {
    ConcatMap(entries, EntryNames)
  }

  /** Which entries of a platform directory contribute, and what. */
  lemma ChildNameCases(c: Entry)
    ensures ChildName(c).Some? <==>
      (c.kind.Dir? && !StartsWith(c.name, "lib-")) || EndsWith(c.name, ".py")
    ensures c.kind.Dir? && !StartsWith(c.name, "lib-") ==> ChildName(c) == Some(c.name)
    ensures !(c.kind.Dir? && !StartsWith(c.name, "lib-")) && EndsWith(c.name, ".py") ==>
      ChildName(c) == Some(Stem(c.name))
  {
  }

  /** A `lib-` subdirectory is never recorded under its own name; it contributes only when
      its name ends in `.py`, and then through the `.py` branch. */
  lemma LibSubdirectory(c: Entry)
    requires c.kind.Dir? && StartsWith(c.name, "lib-")
    ensures ChildName(c).Some? ==> EndsWith(c.name, ".py") && ChildName(c) == Some(Stem(c.name))
  {
  }

  /** A subdirectory named `lib-<base>.py` contributes `lib-<base>`, which starts with `lib-`. */
  lemma LibSubdirectoryNamedPy(base: string, cs: seq<Entry>)
    requires '.' !in base
    ensures ChildName(Entry("lib-" + base + ".py", Dir(cs))) == Some("lib-" + base)
  {
    var name := "lib-" + base + ".py";
    assert name == ("lib-" + base) + "." + "py";
    assert StartsWith(name, "lib-");
    assert name[|name| - 3..] == ".py";
    StemOfSuffixed("lib-" + base, "py");
  }

  /** A name recorded from a platform directory comes from one of its entries. */
  lemma {:induction false} ChildNamesMembership(cs: seq<Entry>, n: string)
    ensures n in ChildNames(cs) <==> exists k | 0 <= k < |cs| :: ChildName(cs[k]) == Some(n)
    decreases |cs|
  {
    if |cs| > 0 {
      var last := |cs| - 1;
      var init := cs[..last];
      ChildNamesMembership(init, n);
      assert forall k | 0 <= k < last :: init[k] == cs[k];
      if exists k | 0 <= k < |cs| :: ChildName(cs[k]) == Some(n) {
        var k :| 0 <= k < |cs| && ChildName(cs[k]) == Some(n);
        if k < last {
          assert ChildName(init[k]) == Some(n);
        }
      }
    }
  }

  /** A module file `<base>.py` at the top of `Lib/` records `base`. */
  lemma TopNameOfModule(base: string, kind: Kind)
    requires |base| > 0 && '.' !in base && base !in NotModules
    ensures TopName(Entry(base + ".py", kind)) == Some(base)
  {
    StemOfSuffixed(base, "py");
    assert base + ".py" == base + "." + "py";
    SplitNoSep(base, '.');
  }

  /** A dotted file such as `__phello__.foo.py` records the part before the first dot. */
  lemma TopNameOfDotted(first: string, rest: string, kind: Kind)
    requires |first| > 0 && '.' !in first && first !in NotModules && '.' !in rest
    ensures TopName(Entry(first + "." + rest + ".py", kind)) == Some(first)
  {
    StemOfSuffixed(first + "." + rest, "py");
    assert first + "." + rest + ".py" == (first + "." + rest) + "." + "py";
    assert first + "." + rest == first + ['.'] + rest;
    SplitPrefix(first, rest, '.');
  }

  /** Reading `Lib/` fails exactly when a platform-named entry is a plain file, and then with
      the first such entry's `NotADirectoryError`. */
  lemma LibNamesFailure(entries: seq<Entry>)
    ensures LibNames(entries).Failure? <==>
      exists k | 0 <= k < |entries| :: IsPlatformDir(entries[k].name) && entries[k].kind.File?
    ensures LibNames(entries).Failure? ==>
      exists j | 0 <= j < |entries| ::
        LibNames(entries).error == NotADirectoryError(entries[j].name) &&
        IsPlatformDir(entries[j].name) && entries[j].kind.File? &&
        forall k | 0 <= k < j :: !(IsPlatformDir(entries[k].name) && entries[k].kind.File?)
  {
    ConcatMapFailure(entries, EntryNames);
  }

  /** Every name taken from `Lib/` is contributed by one of its entries, and every name an
      entry contributes is taken. */
  lemma LibNamesMembership(entries: seq<Entry>, n: string)
    requires LibNames(entries).Success?
    ensures forall k | 0 <= k < |entries| :: EntryNames(entries[k]).Success?
    ensures n in LibNames(entries).value <==>
      exists k | 0 <= k < |entries| :: n in EntryNames(entries[k]).value
  {
    ConcatMapMembership(entries, EntryNames, n);
  }

  /** A name a top-level entry contributes has no dot and is none of the excluded names; a
      name a platform directory contributes comes from one of its entries. */
  lemma EntryNamesShape(p: Entry, n: string)
    requires EntryNames(p).Success? && n in EntryNames(p).value
    ensures !IsPlatformDir(p.name) ==> '.' !in n && n !in NotModules
    ensures IsPlatformDir(p.name) ==>
      p.kind.Dir? && exists k | 0 <= k < |p.kind.children| :: ChildName(p.kind.children[k]) == Some(n)
  {
    if IsPlatformDir(p.name) {
      ChildNamesMembership(p.kind.children, n);
    }
  }

  // ---------------------------------------------------------------------------------------
  // Init tables

  /** The text after which the init table of a `config.c` starts. */
  const InittabMarker: string := "_PyImport_Inittab[] = {"

  /** One of the two `config.c` files: absent, or its text together with the names the
      init-table pattern captures after the marker, in order. */
  datatype ConfigFile = Missing | Present(text: string, captured: seq<string>)

  predicate IsMain(name: string) { name == "__main__" }

  /** The names one `config.c` contributes; `split(marker)[1]` raises `IndexError` when the
      marker does not occur. */
  function ConfigNames(c: ConfigFile): Result<seq<string>, Exc> {
    match c
    case Missing => Success([])
    case Present(text, captured) =>
      if FindSub(text, InittabMarker).None? then Failure(IndexError("split(marker)[1]"))
      else Success(Drop(captured, IsMain))
  }

  /** A present init table contributes its captured names except `__main__`, in order; a
      `config.c` without the marker raises `IndexError`; a missing file contributes nothing. */
  lemma ConfigNamesCorrect(c: ConfigFile)
    ensures c.Missing? ==> ConfigNames(c) == Success([])
    ensures c.Present? && FindSub(c.text, InittabMarker).None? ==>
      ConfigNames(c).Failure? && ConfigNames(c).error.IndexError?
    ensures c.Present? && FindSub(c.text, InittabMarker).Some? ==>
      ConfigNames(c).Success? &&
      IsSubsequence(ConfigNames(c).value, c.captured) &&
      forall n :: n in ConfigNames(c).value <==> n in c.captured && n != "__main__"
  {
    if c.Present? && FindSub(c.text, InittabMarker).Some? {
      DropKeepsOrder(c.captured, IsMain);
      forall n ensures n in ConfigNames(c).value <==> n in c.captured && n != "__main__" {
        DropMembership(c.captured, IsMain, n);
      }
    }
  }

  /** The names the init tables contribute, file by file. */
  function InittabNames(configs: seq<ConfigFile>): Result<seq<string>, Exc> {
    ConcatMap(configs, ConfigNames)
  }

  /** Reading the init tables fails exactly when a present `config.c` lacks the marker; when
      it succeeds, the names are those captured in some present file, `__main__` excepted. */
  lemma InittabNamesCorrect(configs: seq<ConfigFile>, n: string)
    ensures InittabNames(configs).Failure? <==>
      exists k | 0 <= k < |configs| ::
        configs[k].Present? && FindSub(configs[k].text, InittabMarker).None?
    ensures InittabNames(configs).Success? ==>
      (n in InittabNames(configs).value <==>
        n != "__main__" && exists k | 0 <= k < |configs| :: configs[k].Present? && n in configs[k].captured)
  {
    ConcatMapFailure(configs, ConfigNames);
    forall k | 0 <= k < |configs| {
      ConfigNamesCorrect(configs[k]);
    }
    if InittabNames(configs).Success? {
      ConcatMapMembership(configs, ConfigNames, n);
    }
  }
}
