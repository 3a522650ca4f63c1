# stdlibs fetch: a verified model of the name-table generator

`stdlibs/fetch.py` builds the tables of standard-library module names that the `stdlibs`
package ships. For every CPython release in `RELEASES` it does the following:

- reads the release's unpacked source tree;
- parses its `setup.py` with libcst, trying the newest grammar first, after a 2.x script has
  been migrated by `lib2to3` and cleaned of the lines the parser rejects;
- collects the extension names that `setup.py` declares;
- adds the modules found under `Lib/`, the module definitions found in the C sources, the
  entries of the Windows init tables, and two version-gated aliases;
- writes a `pyXY.py` table.

`regen_all` then writes `py2.py`, `py3.py` and `py.py`, holding the union of the 2.x
releases, the union of the 3.x releases, and both together.

This project models that core in Dafny and proves what each step promises. The download,
the subprocesses, the file system and the regular-expression engines are parameters: the
model receives the listing of `Lib/`, the captured text of each C file, the captures of each
init table, and the parser as a function.

Modules, in dependency order:

| Module | What it models |
|---|---|
| `Wrappers` | `Option` and `Result`, and the exceptions the script can raise. |
| `PyStr` | The `str` operations the script relies on: `strip`, `isspace`, `split`, `find`, `replace`, `pathlib` stems, and Python's string order. |
| `Filter` | List comprehensions with a rejecting predicate. |
| `Gather` | The "append each item's names, stop at the first exception" shape shared by `regen`'s loops. |
| `Legacy` | `PY2_LINES_TO_OMIT`, `splitlines(True)` and the cleaning of a migrated script. |
| `Header` | The module-level loop that reads the copyright header. |
| `Table` | `sorted`, the rendered table lines, the `GENERATED_TMPL` text, and reading each of them back. |
| `Versions` | `RELEASES`, `int()`, version tuples and their comparison, the aliases, and the output and cache file names. |
| `NameRules` | How a C module definition, a `Lib/` entry or an init-table entry becomes a name. |
| `Visitor` | `ExtensionVisitor`: a class whose field `extensionNames` its visit methods append to. |
| `Parsing` | `try_parse`'s loop over the grammar versions. |
| `Regen` | `regen` as a method that appends to `names` loop by loop, and `regen_all` as a method that grows `all2`/`all3` and the list of tables written. |

Each imperative method is proved against a specification function:

- `CopyrightHeader` against `HeaderOf`;
- `TryParse` against `NewestParse` and `Attempts`;
- the visitor's methods against `Collected`;
- `RegenRelease` against `RegenResult`;
- `RegenAll` against `RegenAllRun`.

The lemmas state the properties of those functions.

Where the code and its description differ, the model follows the code:

- A subdirectory of a `plat-`/`lib-` directory whose name starts with `lib-` is skipped by
  the first branch only. If its name ends in `.py`, the `elif` branch still records its
  stem. `NameRules.LibSubdirectory` and `NameRules.LibSubdirectoryNamedPy` state this.
- An `.m_name` capture without `=` raises `IndexError`. It is modelled as that failure,
  not as a skipped file.
- A `Lib/` entry whose name starts with `plat-` or `lib-` but which is a plain file makes
  `iterdir()` raise `NotADirectoryError`. It is modelled as that failure.
- `try_parse` raises the error of the newest grammar, which is the first one tried.

## Model

| member | source | states |
|---|---|---|
| PyStr.LeadCount | stdlibs/fetch.py:163 | The count of leading characters in the set: all of them are in it, and the next one is not. |
| PyStr.TrailCount | stdlibs/fetch.py:163 | The same for the trailing characters. |
| PyStr.StripSet | stdlibs/fetch.py:163 | `strip` never lengthens the text; further specified by `StripSetSlice`. |
| PyStr.StripSetSlice | stdlibs/fetch.py:163-168 | `strip` keeps the slice that starts right after the leading run of stripped characters. Every character before and after the slice is a stripped one, and the slice neither starts nor ends with one. It is empty exactly when every character is stripped, and it is the whole text when neither end is strippable. |
| PyStr.StripSetCut | stdlibs/fetch.py:163 | The slice starts after the leading run of stripped characters, and only stripped characters follow it. |
| PyStr.StripSetEnds | stdlibs/fetch.py:163 | A non-empty result neither starts nor ends with a stripped character. |
| PyStr.StripSetEnclosed | stdlibs/fetch.py:168 | `'"x"'.strip('"')` is `x` when `x` neither starts nor ends with a quote. |
| PyStr.StripSetNoEdge | stdlibs/fetch.py:165 | A text with no strippable edge is its own strip. |
| PyStr.AllInIffStripEmpty | stdlibs/fetch.py:52 | Stripping a set leaves nothing exactly when every character is in the set. |
| PyStr.AllSpaceIffStripEmpty | stdlibs/fetch.py:52 | `not line.strip()` holds exactly for lines made only of whitespace. |
| PyStr.IndexOf | stdlibs/fetch.py:51 | The first index of a character, or none exactly when the character is absent. |
| PyStr.LastIndexOf | stdlibs/fetch.py:142 | The last index of a character, or none exactly when the character is absent. |
| PyStr.Split | stdlibs/fetch.py:146 | `split` gives at least one piece, and no piece holds the separator. |
| PyStr.JoinOfSplit | stdlibs/fetch.py:146 | Joining the pieces of a split with the separator gives back the text. |
| PyStr.SplitOfJoin | stdlibs/fetch.py:191 | Splitting undoes joining pieces free of the separator. |
| PyStr.SplitNoSep | stdlibs/fetch.py:146 | A text without the separator is a single piece. |
| PyStr.SplitWithSep | stdlibs/fetch.py:165 | A text with the separator has at least two pieces, so `[1]` exists. |
| PyStr.SplitLast | stdlibs/fetch.py:95 | The last piece is what follows the last separator. |
| PyStr.SplitPrefix | stdlibs/fetch.py:165 | Splitting `p + sep + t`, where `p` has no separator, gives `p` followed by the pieces of `t`. |
| PyStr.FindSub | stdlibs/fetch.py:184 | An occurrence that `find` reports fits inside the text. |
| PyStr.FindSubCorrect | stdlibs/fetch.py:184 | `find` reports the first occurrence, and reports none only when there is none. |
| PyStr.FindSubAt | stdlibs/fetch.py:172 | An occurrence at `i`, with no occurrence of `sub` starting earlier, is the one `find` reports. |
| PyStr.BeforeSub | stdlibs/fetch.py:172 | `split(sub)[0]` is a prefix of the text. |
| PyStr.BeforeSubCorrect | stdlibs/fetch.py:172 | The text before `sub` holds no occurrence of it, and it is followed by one unless it is the whole text. |
| PyStr.StemOfSuffixed | stdlibs/fetch.py:142 | The stem of `base.ext` is `base`. |
| PyStr.LastDot | stdlibs/fetch.py:142 | The suffix dot of `base.ext` is the one before `ext`. |
| PyStr.StemWithoutDot | stdlibs/fetch.py:145 | A name without a dot is its own stem. |
| PyStr.RemoveChar | stdlibs/fetch.py:197 | `replace(c, "")` leaves no `c`, never grows, and leaves a text without `c` alone. |
| PyStr.RemoveCharAppend | stdlibs/fetch.py:197 | Removing a character distributes over concatenation. |
| PyStr.ConcatAppend | stdlibs/fetch.py:124 | `"".join` distributes over concatenation. |
| PyStr.LessIrreflexive | stdlibs/fetch.py:71 | Python's string order is irreflexive. |
| PyStr.LessTransitive | stdlibs/fetch.py:71 | It is transitive. |
| PyStr.LessTotal | stdlibs/fetch.py:71 | It is total on distinct strings. |
| PyStr.LessAsymmetric | stdlibs/fetch.py:71 | It is asymmetric. |
| Filter.DropKeepsOrder | stdlibs/fetch.py:123 | A comprehension's result is a subsequence of its input: elements unchanged and in their order. |
| Filter.DropMembership | stdlibs/fetch.py:123 | An element survives exactly when it is in the input and not rejected. |
| Filter.DropAppend | stdlibs/fetch.py:123 | Filtering distributes over concatenation. |
| Filter.DropIdempotent | stdlibs/fetch.py:123 | Filtering twice is filtering once. |
| Filter.DropShorter | stdlibs/fetch.py:123 | Filtering never lengthens the list. |
| Filter.DropIsIdentityIff | stdlibs/fetch.py:123 | The filter changes nothing exactly when it rejects no element. |
| Gather.ConcatMapSnoc | stdlibs/fetch.py:134-188 | One more item appends its names, or raises its exception. |
| Gather.ConcatMapStops | stdlibs/fetch.py:134-188 | After an item has raised, later items change nothing. |
| Gather.ConcatMapFailure | stdlibs/fetch.py:134-188 | A walk raises exactly when some item raises, and the exception is that of the first such item. |
| Gather.ConcatMapMembership | stdlibs/fetch.py:134-188 | When a walk succeeds, a name is in its result exactly when some item contributed it. |
| Gather.ConcatMapRaises | stdlibs/fetch.py:134-188 | An item that raises ends the walk with its exception. |
| Gather.ConcatMapRaisesAt | stdlibs/fetch.py:134-188 | The same, for an item given by its index. |
| Legacy.DropLegacyLinesCorrect | stdlibs/fetch.py:123 | The cleaned lines are the input lines whose stripped text is not in `PY2_LINES_TO_OMIT`, unchanged and in order; cleaning twice is cleaning once. |
| Legacy.FirstLineLen | stdlibs/fetch.py:122 | The first line of a non-empty text is non-empty and fits in it. It ends at the first line boundary, with `\r\n` kept together, or at the end of the text. |
| Legacy.SplitLinesKeepEnds | stdlibs/fetch.py:122 | No contract; specified by `SplitLinesConcat`, `SplitLinesShape` and `FirstLineOf`. |
| Legacy.SplitLinesConcat | stdlibs/fetch.py:122-124 | `"".join(s.splitlines(True)) == s`. |
| Legacy.LinesShapedCons | stdlibs/fetch.py:122 | A line closed by a boundary that does not split a `\r\n`, put in front of well-cut lines, gives well-cut lines. |
| Legacy.SplitLinesShape | stdlibs/fetch.py:122 | Each piece of `splitlines(True)` is a line: no boundary except at its end, with `\r\n` kept together. Each piece but the last ends at a boundary, and no `\r` ends a piece when the next piece starts with `\n`. |
| Legacy.FirstLineOf | stdlibs/fetch.py:122 | A boundary-free line closed by `\n` is the first piece, followed by the pieces of the rest. |
| Legacy.DropLegacyLines | stdlibs/fetch.py:123 | No contract; specified by `DropLegacyLinesCorrect`. |
| Legacy.UniversalNewlines | stdlibs/fetch.py:122 | The text `read_text()` returns holds no `\r` and is no longer than the file. |
| Legacy.UniversalNewlinesAppend | stdlibs/fetch.py:122 | A prefix without `\r` reads as itself. |
| Legacy.UniversalNewlinesPlain | stdlibs/fetch.py:122 | A text without `\r` reads as itself. |
| Legacy.UniversalNewlinesIdempotent | stdlibs/fetch.py:122 | Reading already-translated text changes nothing. |
| Legacy.UniversalNewlinesLineEnds | stdlibs/fetch.py:122 | After a `\r`-free prefix, `\r\n` reads as one `\n`, and so does a `\r` not followed by `\n`. |
| Legacy.FixLegacySetup | stdlibs/fetch.py:122-124 | No contract; specified by `FixLegacySetupUnchanged` and `FixLegacySetupLine`. |
| Legacy.FixLegacySetupLine | stdlibs/fetch.py:122-124 | For a leading line with no line boundary inside it, closed by `\n`: the line is dropped from the written script when listed, and kept in place otherwise. |
| Legacy.FixLegacySetupUnchanged | stdlibs/fetch.py:122-124 | A migrated script with no listed line is written back as `read_text()` reads it, with its line ends translated to `\n`. A script without `\r` is written back unchanged. |
| Header.ReadLine | stdlibs/fetch.py:51 | `readline()` returns a prefix, ending at the first newline or at end of file, and is empty only at end of file. |
| Header.HeaderLen | stdlibs/fetch.py:48-54 | The header never runs past the file. |
| Header.HeaderOf | stdlibs/fetch.py:48-54 | No contract; specified by `HeaderOfStep`, `HeaderStopsAtBlank`, `HeaderIsLeadingLines` and `LeadingLinesNonBlank`. |
| Header.CopyrightHeader | stdlibs/fetch.py:48-54 | The loop's result equals the specification `HeaderOf`. |
| Header.HeaderOfStep | stdlibs/fetch.py:50-54 | A non-blank first line is followed by the header of the rest of the file. |
| Header.HeaderStopsAtBlank | stdlibs/fetch.py:52-53 | The line after the header is blank, or the file ends there. |
| Header.HeaderIsLeadingLines | stdlibs/fetch.py:48-54 | The header is the concatenation of the file's lines before its first blank line. |
| Header.LeadingLinesNonBlank | stdlibs/fetch.py:52-54 | No line of the header is blank. |
| Table.LeastExists | stdlibs/fetch.py:71 | A non-empty set of strings has a least element. |
| Table.LeastUnique | stdlibs/fetch.py:71 | The least element is unique. |
| Table.Min | stdlibs/fetch.py:71 | `Min` is the least element. |
| Table.SortedNamesCorrect | stdlibs/fetch.py:71 | `sorted(data)` lists every element exactly once, in strictly ascending order. |
| Table.SortedNames | stdlibs/fetch.py:71 | No contract; specified by `SortedNamesCorrect` and `AscendingUnique`. |
| Table.RenderLines | stdlibs/fetch.py:71 | No contract; specified by `RenderLinesRoundTrip` and `RenderLinesCount`. |
| Table.AscendingDistinct | stdlibs/fetch.py:71 | An ascending list has no repeats. |
| Table.AscendingUnique | stdlibs/fetch.py:71 | Two ascending lists with the same elements are equal, so the sorted order is the only one. |
| Table.LineSplits | stdlibs/fetch.py:71 | A table line starts with its indent and opening quote, followed by the name. |
| Table.ParseLine | stdlibs/fetch.py:71 | One quote-free line reads back as its name. |
| Table.ParseLinesOf | stdlibs/fetch.py:71 | The lines of a list of quote-free names read back as that list. |
| Table.RenderLinesRoundTrip | stdlibs/fetch.py:70-72 | The rendered lines read back as the set's elements, each once, in strictly ascending order. |
| Table.GeneratedRoundTrip | stdlibs/fetch.py:56-72 | The file `write_tmpl` writes below the header reads back as the set's names, each once, in ascending order. |
| Table.CountNewlinesAppend | stdlibs/fetch.py:71 | Newline counts add up over concatenation. |
| Table.LinesOfCount | stdlibs/fetch.py:71 | A rendered list of newline-free names has one line per name. |
| Table.RenderLinesCount | stdlibs/fetch.py:70-72 | The rendered table has exactly one line per distinct name. |
| Versions.ReleasesAreTwoOrThree | stdlibs/fetch.py:15-32 | Every shipped release's version starts with `2` or `3`. |
| Versions.ParseSigned | stdlibs/fetch.py:191 | `int()` succeeds only on a text that holds a digit. |
| Versions.Decimal | stdlibs/fetch.py:191 | A numeral is a non-empty run of digits. |
| Versions.ValueOfDecimal | stdlibs/fetch.py:191 | A numeral denotes its number. |
| Versions.StripDecimal | stdlibs/fetch.py:191 | A numeral, signed or not, is its own strip. |
| Versions.ParseSignedDecimal | stdlibs/fetch.py:191 | A signed or unsigned numeral parses to its number. |
| Versions.ParseIntDecimal | stdlibs/fetch.py:191 | `int()` reads a numeral back as its number, with or without a minus sign. |
| Versions.ParseInt | stdlibs/fetch.py:191 | No contract; specified by `ParseSigned` and `ParseIntDecimal`. |
| Versions.MapAll | stdlibs/fetch.py:191 | The conversion succeeds exactly when every part converts. The tuple then has one element per part, holding that part's value. |
| Versions.MapAllFailure | stdlibs/fetch.py:191 | A failed conversion raises the exception of the first part that fails. |
| Versions.VersionTuple | stdlibs/fetch.py:191 | No contract; specified by `MapAll`, `VersionTupleOfParts` and `VersionTupleTwoParts`. |
| Versions.AtLeastTwoParts | stdlibs/fetch.py:192-194 | On `major.minor` tuples, `>=` is the release order. |
| Versions.Aliases | stdlibs/fetch.py:191-195 | `_frozen_importlib` is appended exactly when the tuple is at least (3, 3), and `_frozen_importlib_external` exactly when it is at least (3, 5). |
| Versions.VersionTupleOfParts | stdlibs/fetch.py:191 | Two dot-free parts that `int()` accepts give a two-element tuple. |
| Versions.VersionTupleTwoParts | stdlibs/fetch.py:191 | `"M.m"` parses to `(M, m)`. |
| Versions.AliasesOfRelease | stdlibs/fetch.py:191-195 | For release `M.m`, the aliases appear exactly from 3.3 and from 3.5 on, so `3.10` has both and `2.7` neither. |
| Versions.RemoveDot | stdlibs/fetch.py:197 | Removing the dot of `M.m` runs the numbers together. |
| Versions.OutputFileName | stdlibs/fetch.py:197 | No contract; specified by `OutputFileNameOfRelease`. |
| Versions.OutputFileNameOfRelease | stdlibs/fetch.py:197 | The table for `M.m` is `pyMm.py`. |
| Versions.CacheDirName | stdlibs/fetch.py:95 | The cache directory name holds no `/`. |
| Versions.CacheDirNameOf | stdlibs/fetch.py:95 | The cache directory of `dir/base.ext` is `base`, whatever dots `base` holds. |
| NameRules.QuoteNotSpace | stdlibs/fetch.py:163-168 | A quote and a dot are not whitespace. |
| NameRules.ResolveQuoted | stdlibs/fetch.py:163-168 | A string-literal capture records its text. |
| NameRules.ResolveMName | stdlibs/fetch.py:164-168 | An `.m_name` initializer is resolved like the text after its `=`. |
| NameRules.ResolveMNameMissingEquals | stdlibs/fetch.py:164-165 | An `.m_name` initializer without `=` raises `IndexError`. |
| NameRules.ResolveNative | stdlibs/fetch.py:163-174 | No contract; specified by `ResolveQuoted`, `ResolveMName` and `ResolveMNameMissingEquals`. |
| NameRules.Record | stdlibs/fetch.py:167-174 | No contract; specified by the five `Record` lemmas below. |
| NameRules.RecordQuoted | stdlibs/fetch.py:167-168 | A quoted capture records the unquoted text. |
| NameRules.RecordStemFile | stdlibs/fetch.py:169-170 | An unquoted capture of one of the four listed files records the file's stem. |
| NameRules.RecordSocketModule | stdlibs/fetch.py:171-172 | An unquoted capture of `socketmodule.c` records `socket`. |
| NameRules.RecordPosixModule | stdlibs/fetch.py:171-172 | An unquoted capture of `posixmodule.c` records `posix`. |
| NameRules.RecordOtherFile | stdlibs/fetch.py:173-174 | An unquoted capture of any other file records nothing. |
| NameRules.ModuleSuffix | stdlibs/fetch.py:172 | `(base + "module.c").split("module")[0]` is `base` when `base` has no `m`. |
| NameRules.NativeNamesCorrect | stdlibs/fetch.py:155-174 | Reading the C files fails exactly when some `.m_name` capture lacks `=`; otherwise a name is recorded exactly when some file records it. |
| NameRules.SourceNamesFailure | stdlibs/fetch.py:161-165 | A single C file raises only for an `.m_name` capture without `=`. |
| NameRules.TopName | stdlibs/fetch.py:145-148 | A name taken from a top-level entry has no dot and is not `__pycache__`, `site-packages` or `test`. |
| NameRules.ChildName | stdlibs/fetch.py:137-143 | No contract; specified by `ChildNameCases`, `LibSubdirectory` and `LibSubdirectoryNamedPy`. |
| NameRules.EntryNames | stdlibs/fetch.py:134-148 | No contract; specified by `EntryNamesShape`, `TopName` and `LibNamesFailure`. |
| NameRules.LibNames | stdlibs/fetch.py:134-148 | No contract; specified by `LibNamesFailure` and `LibNamesMembership`. |
| NameRules.ChildNameCases | stdlibs/fetch.py:137-143 | An entry of a platform directory contributes either its name (a directory not starting with `lib-`) or the stem of its `.py` name, and nothing else. |
| NameRules.LibSubdirectory | stdlibs/fetch.py:139-143 | A `lib-` subdirectory is never recorded under its own name; it contributes only its stem, and only when its name ends in `.py`. |
| NameRules.LibSubdirectoryNamedPy | stdlibs/fetch.py:139-143 | A subdirectory named `lib-<base>.py` does contribute `lib-<base>`. |
| NameRules.ChildNamesMembership | stdlibs/fetch.py:137-143 | A platform directory's names are exactly those its entries contribute. |
| NameRules.TopNameOfModule | stdlibs/fetch.py:145-148 | A top-level module file `<base>.py` records `base`. |
| NameRules.TopNameOfDotted | stdlibs/fetch.py:146 | A dotted file such as `__phello__.foo.py` records the part before its first dot. |
| NameRules.LibNamesFailure | stdlibs/fetch.py:134-137 | Reading `Lib/` fails exactly when a platform-named entry is a plain file, with `NotADirectoryError`. |
| NameRules.LibNamesMembership | stdlibs/fetch.py:134-148 | A name comes from `Lib/` exactly when some entry contributes it. |
| NameRules.EntryNamesShape | stdlibs/fetch.py:134-148 | A top-level entry's name has no dot and is not excluded; a platform directory's names come from its entries. |
| NameRules.ConfigNamesCorrect | stdlibs/fetch.py:181-188 | A missing `config.c` contributes nothing; one without the marker raises `IndexError`; otherwise it contributes its captures except `__main__`. |
| NameRules.ConfigNames | stdlibs/fetch.py:181-188 | No contract; specified by `ConfigNamesCorrect`. |
| NameRules.InittabNames | stdlibs/fetch.py:177-188 | No contract; specified by `InittabNamesCorrect`. |
| NameRules.InittabNamesCorrect | stdlibs/fetch.py:177-188 | The init tables fail exactly when a present file lacks the marker; otherwise a name comes from them exactly when a present file captured it and it is not `__main__`. |
| Visitor.ExtensionVisitor.constructor | stdlibs/fetch.py:203-204 | A new visitor has recorded nothing. |
| Visitor.ExtensionVisitor.VisitCall | stdlibs/fetch.py:206-220 | `visit_Call` appends the call's names and changes nothing else. |
| Visitor.ExtensionVisitor.VisitAssign | stdlibs/fetch.py:222-234 | `visit_Assign` appends the assignment's names and changes nothing else. |
| Visitor.ExtensionVisitor.Visit | stdlibs/fetch.py:206-234 | Walking a node appends exactly `Collected(n)`, so the list only grows. |
| Visitor.ExtensionVisitor.VisitAll | stdlibs/fetch.py:130 | Walking a list of nodes appends their names in order. |
| Visitor.ExtensionNames | stdlibs/fetch.py:129-133 | A fresh visitor's list after the walk is `Collected(tree)`. |
| Visitor.CallNamesIff | stdlibs/fetch.py:206-220 | A call contributes at most one name, and does so exactly when the callee is `Extension` or `addMacExtension` and the first argument is a string literal; the name is that literal's value. |
| Visitor.StringElementsAppend | stdlibs/fetch.py:232-234 | One more list element appends its value exactly when it is a string literal. |
| Visitor.StringElementsCorrect | stdlibs/fetch.py:232-234 | A `CARBON_EXTS` list contributes exactly the values of its string elements. |
| Visitor.StringElementsOfStrings | stdlibs/fetch.py:232-234 | A list of only string literals contributes all of them, in order. |
| Visitor.AssignNamesIff | stdlibs/fetch.py:222-234 | Only a single `CARBON_EXTS = [...]` target contributes, and it contributes its list's string elements. |
| Visitor.CollectedAreLiterals | stdlibs/fetch.py:206-234 | Every recorded name is the value of some string literal of the tree. |
| Visitor.CollectedAllAreLiterals | stdlibs/fetch.py:206-234 | The same for a list of nodes. |
| Visitor.Collected | stdlibs/fetch.py:206-234 | No contract; specified by `CollectedIff`, `OwnNamesFirst` and the visitor's methods. |
| Visitor.OwnNamesFirst | stdlibs/fetch.py:206-234 | A call records its own name before anything in its callee and arguments. An assignment records its own names before anything in its targets and value. |
| Visitor.OwnNamesIff | stdlibs/fetch.py:206-234 | A node records `v` itself exactly when it is an `Extension`/`addMacExtension` call whose first argument is the literal `v`, or a single-target `CARBON_EXTS` list holding the literal `v`. |
| Visitor.CollectedIff | stdlibs/fetch.py:206-234 | `v` is collected from a tree exactly when some node of the tree records `v` itself. |
| Visitor.CollectedAllIff | stdlibs/fetch.py:206-234 | The same for a list of nodes. |
| Visitor.NestedCalls | stdlibs/fetch.py:206-220 | An instance of `OwnNamesFirst`: an `Extension` call whose argument list holds a second `Extension` call records `[outer, inner]`. |
| Visitor.CarbonList | stdlibs/fetch.py:232-234 | Non-literal list elements are skipped; literal ones are kept in order. |
| Visitor.CarbonChained | stdlibs/fetch.py:226 | A chained assignment has two targets and records nothing. |
| Parsing.TryParse | stdlibs/fetch.py:238-263 | The loop returns `NewestParse`, and the versions handed to the parser are `Attempts`. |
| Parsing.NewestParse | stdlibs/fetch.py:238-263 | No contract; specified by `NewestStep`, `NewestParseSuccess` and `NewestParseFailure`. |
| Parsing.Attempts | stdlibs/fetch.py:238-263 | No contract; specified by `AttemptsNewestFirst` and `AttemptsStopAtSuccess`. |
| Parsing.NewestStep | stdlibs/fetch.py:250-259 | One turn of the grammar loop, stated on the specification. |
| Parsing.NewestParseSuccess | stdlibs/fetch.py:250-255 | Parsing succeeds exactly when some grammar accepts, and the module is the newest such grammar's. |
| Parsing.NewestParseFailure | stdlibs/fetch.py:256-263 | When every grammar fails, the newest grammar's error is raised; the generic failure occurs exactly when there are no grammars. |
| Parsing.AttemptsNewestFirst | stdlibs/fetch.py:250 | Grammars are tried newest first, each at most once. |
| Parsing.AttemptsStopAtSuccess | stdlibs/fetch.py:252-255 | Every grammar tried before the last one failed, nothing is tried after a success, and all are tried when all fail. |
| Regen.AppendChildren | stdlibs/fetch.py:137-143 | The loop over a platform directory appends `ChildNames`. |
| Regen.AppendEntry | stdlibs/fetch.py:135-148 | One `Lib/` entry appends `EntryNames`, or raises its error. |
| Regen.AppendLib | stdlibs/fetch.py:134-148 | The `Lib/` loop appends `LibNames`, or raises the first error. |
| Regen.AppendSource | stdlibs/fetch.py:161-174 | One C file appends what it records, or raises. |
| Regen.AppendNative | stdlibs/fetch.py:150-174 | The C-file loop appends `NativeNames`, or raises the first error. |
| Regen.AppendTable | stdlibs/fetch.py:183-188 | The init-table loop appends every capture except `__main__`. |
| Regen.AppendConfig | stdlibs/fetch.py:181-188 | One `config.c` appends `ConfigNames`, or raises. |
| Regen.AppendInittab | stdlibs/fetch.py:177-188 | The loop over both `config.c` files appends `InittabNames`, or raises. |
| Regen.AppendAliases | stdlibs/fetch.py:192-195 | The alias step appends `Aliases(t)`. |
| Regen.RegenRelease | stdlibs/fetch.py:94-199 | `regen` returns `RegenResult`, and writes its table for the release exactly when it succeeds. |
| Regen.RegenResult | stdlibs/fetch.py:94-199 | No contract; specified by `RegenNamesStages`, `RegenResultMembership` and `RegenAliases`. |
| Regen.RegenNamesStages | stdlibs/fetch.py:128-195 | `regen` raises the first failing stage's exception, in source order; otherwise its list is the stages' names in order. |
| Regen.RegenResultMembership | stdlibs/fetch.py:133-199 | A name is in `regen`'s set exactly when one of the stages found it. |
| Regen.RegenAliases | stdlibs/fetch.py:190-199 | Releases from 3.3 on list `_frozen_importlib`, and from 3.5 on also `_frozen_importlib_external`. |
| Regen.ScriptTextUnchanged | stdlibs/fetch.py:104-126 | A fresh 2.x script with no listed line is parsed with its line ends translated to `\n`. A script without `\r` is parsed as given. |
| Regen.RunOver | stdlibs/fetch.py:75-85 | No contract; specified by the `RunOver` lemmas below and `BraveNewFutureRaised`. |
| Regen.Combined | stdlibs/fetch.py:87-89 | No contract; specified by `RegenAllCombined`. |
| Regen.RegenAllRun | stdlibs/fetch.py:75-89 | No contract; specified by `RegenAll`, `RegenAllCombined` and `RegenAllOfReleases`. |
| Regen.RunOverStops | stdlibs/fetch.py:78-85 | Once a release has raised, later releases are not handled. |
| Regen.RunOverStopsAt | stdlibs/fetch.py:78-85 | A release that raises ends `regen_all`. |
| Regen.RegenAll | stdlibs/fetch.py:75-89 | The tables the loop writes, in order, and the exception that ends it equal those of `RegenAllRun`. |
| Regen.MajorsDisjoint | stdlibs/fetch.py:80-83 | No version starts with both `2` and `3`. |
| Regen.RunOverFinishes | stdlibs/fetch.py:78-85 | `regen_all` finishes exactly when every release succeeds and starts with `2` or `3`. |
| Regen.RunOverTables | stdlibs/fetch.py:76-83 | When it finishes, `all2` is the union of the 2.x sets and `all3` that of the 3.x sets. |
| Regen.RunOverWrites | stdlibs/fetch.py:78-79 | One table per release, named after the version and listing its set. |
| Regen.RunOverBraveNewFuture | stdlibs/fetch.py:84-85 | After handled releases, a release that succeeds but starts with neither `2` nor `3` gets its table written. Then `ValueError("What is this brave new future you live in")` is raised. |
| Regen.BraveNewFutureRaised | stdlibs/fetch.py:78-85 | At the first version starting with neither `2` nor `3`, when every earlier release was handled, `regen_all` ends with that `ValueError`. The tables written are those of the earlier releases plus its own. |
| Regen.RegenAllCombined | stdlibs/fetch.py:87-89 | The last three tables are `py2.py`, `py3.py` and `py.py`, and `py.py` lists exactly the names of some release. |
| Regen.RegenAllOfReleases | stdlibs/fetch.py:78-85 | Over the shipped releases, `regen_all` finishes exactly when every `regen` call succeeds: the `ValueError` cannot happen. |

## Left out

- The `wget`, `tar` and `lib2to3` subprocesses, `mkdir` and the existence test of the
  cache directory are external effects. The model takes the result as a `SourceTree`
  input; its flag `cached` says whether the directory already existed.
- The file reads and writes are not modelled. Each table write is returned as a `Write` value
  (file name and set). `fixed/setup.py` is not re-read: its cleaned text is handed to the
  parser directly.
- The order of `glob` and `iterdir` is taken as given by the input listings. The `*.c`
  files of `Python/`, `Modules/` and `PC/` are one list, in that directory order.
- The regular expressions `MODULE_DEF_RE`, `PY2_INITMODULE_RE`, `INITTAB_RE` and
  `MULTILINE_COMMENT_RE` are an external engine. Inputs stand in for them: the
  comment-free capture of each C file (or none) and the captures of each init table.
- The libcst parser, its grammar versions and `PartialParserConfig` are a foreign
  library. The parser is a function from grammar version and text to a tree or a syntax
  error.
- `evaluated_value` (Python string escapes) is given as each literal's value.
- Keyword and starred arguments are not distinguished from positional ones in calls.
- `AssignTarget` wrappers are flattened to their targets.
- The UTF-8 to latin-1 decoding fallback for C files takes bytes and encodings out of
  scope. Texts are sequences of characters.
- The `print` diagnostics produce no result.
- A cache left corrupt by an interrupted `lib2to3` run is a file-system failure mode.
- `GENERATED_TMPL.format` is modelled as plain concatenation. A brace in the copyright
  header would be interpreted by `format`; `Table.Generated` does not model that.
- `int()` accepts only ASCII digits here; Python also accepts other Unicode decimal digits.
- `readline()` is modelled with `\n` as the only line end, as in a file opened in text
  mode with universal newlines. `splitlines` uses its full set of line boundaries.
- `read_text()` of the migrated script is modelled by `UniversalNewlines`. `write_text()`
  is taken to write `\n` as `\n`, as on POSIX. On Windows it would write `\r\n`, which
  `try_parse` reads back as bytes.
- `RELEASES[version]` raising `KeyError` is not modelled: `regen_all` only passes keys of
  `RELEASES`. The URL and the cache directory enter the model through `CacheDirName` and
  the input tree.

