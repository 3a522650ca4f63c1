/** Version strings: the release table, Python's `int()` on the dotted parts, the tuple
    comparison that gates the import-machinery aliases, and the names derived from a
    version or a download URL. */
module Versions {
  import opened Wrappers
  import opened PyStr

  /** `RELEASES`, in its insertion order: version and source-tarball URL. */
  const Releases: seq<(string, string)> := [
    ("2.3", "https://www.python.org/ftp/python/2.3.7/Python-2.3.7.tgz"),
    ("2.4", "https://www.python.org/ftp/python/2.4.6/Python-2.4.6.tgz"),
    ("2.5", "https://www.python.org/ftp/python/2.5.6/Python-2.5.6.tgz"),
    ("2.6", "https://www.python.org/ftp/python/2.6.9/Python-2.6.9.tgz"),
    ("2.7", "https://www.python.org/ftp/python/2.7.18/Python-2.7.18.tgz"),
    ("3.0", "https://www.python.org/ftp/python/3.0.1/Python-3.0.1.tgz"),
    ("3.1", "https://www.python.org/ftp/python/3.1.5/Python-3.1.5.tgz"),
    ("3.2", "https://www.python.org/ftp/python/3.2.6/Python-3.2.6.tgz"),
    ("3.3", "https://www.python.org/ftp/python/3.3.7/Python-3.3.7.tgz"),
    ("3.4", "https://www.python.org/ftp/python/3.4.10/Python-3.4.10.tgz"),
    ("3.5", "https://www.python.org/ftp/python/3.5.10/Python-3.5.10.tgz"),
    ("3.6", "https://www.python.org/ftp/python/3.6.13/Python-3.6.13.tgz"),
    ("3.7", "https://www.python.org/ftp/python/3.7.10/Python-3.7.10.tgz"),
    ("3.8", "https://www.python.org/ftp/python/3.8.8/Python-3.8.8.tgz"),
    ("3.9", "https://www.python.org/ftp/python/3.9.2/Python-3.9.2.tgz"),
    ("3.10", "https://www.python.org/ftp/python/3.10.0/Python-3.10.0a6.tgz")
  ]

  /** Every shipped release is a 2.x or a 3.x one, so `regen_all` never reaches its
      `ValueError` with this table. */
  lemma ReleasesAreTwoOrThree()
    ensures forall k | 0 <= k < |Releases| ::
      StartsWith(Releases[k].0, "2") || StartsWith(Releases[k].0, "3")
  {
  }

  predicate IsDigit(c: char) { '0' <= c <= '9' }

  /** A digit is never whitespace, so `strip()` leaves it in place. */
  lemma DigitNotSpace(c: char)
    requires IsDigit(c)
    ensures c !in Whitespace
  {
  }

  /** The digits `int()` accepts in base 10: ASCII decimal digits, where an underscore may
      stand only between two digits. */
  predicate DigitGroups(s: string) {
    |s| > 0 && IsDigit(s[0]) && IsDigit(s[|s| - 1]) &&
    forall k | 0 <= k < |s| ::
      IsDigit(s[k]) || (s[k] == '_' && 0 < k < |s| - 1 && IsDigit(s[k - 1]) && IsDigit(s[k + 1]))
  }

  /** The number a run of digits and underscores denotes, underscores ignored. */
  function Value(s: string): nat
    requires forall k | 0 <= k < |s| :: IsDigit(s[k]) || s[k] == '_'
  {
    if |s| == 0 then 0
    else
      var c := s[|s| - 1];
      if c == '_' then Value(s[..|s| - 1])
      else
        assert IsDigit(c);
        10 * Value(s[..|s| - 1]) + (c as int - '0' as int)
  }

  /** `int(x)`: surrounding whitespace, an optional sign, then digit groups; anything else
      raises `ValueError`. */
  function ParseInt(x: string): Result<int, Exc> {
    ParseSigned(Strip(x))
  }

  /** `int()` on text already stripped of whitespace. */
  function ParseSigned(t: string): (r: Result<int, Exc>)
    ensures r.Success? ==> exists k | 0 <= k < |t| :: IsDigit(t[k])
  {
    var signed := |t| > 0 && (t[0] == '-' || t[0] == '+');
    var digits := if signed then t[1..] else t;
    if DigitGroups(digits) then
      var n: int := Value(digits);
      assert t[if signed then 1 else 0] == digits[0];
      Success(if signed && t[0] == '-' then -n else n)
    else
      Failure(ValueError("invalid literal for int() with base 10"))
  }

  /** The decimal numeral of `n`, without leading zeros. */
  function Decimal(n: nat): (s: string)
    ensures |s| > 0
    ensures forall k | 0 <= k < |s| :: IsDigit(s[k])
  {
    var d := ['0' + (n % 10) as char];
    if n < 10 then d else Decimal(n / 10) + d
  }

  /** A numeral denotes its number. */
  lemma {:induction false} ValueOfDecimal(n: nat)
    ensures Value(Decimal(n)) == n
  {
    if n >= 10 {
      var s := Decimal(n);
      ValueOfDecimal(n / 10);
      assert s[..|s| - 1] == Decimal(n / 10);
    }
  }

  /** A numeral, or a minus sign and a numeral, is its own strip. */
  lemma StripDecimal(n: nat)
    ensures Strip(Decimal(n)) == Decimal(n)
    ensures Strip("-" + Decimal(n)) == "-" + Decimal(n)
  {
    var s := Decimal(n);
    DigitNotSpace(s[0]);
    DigitNotSpace(s[|s| - 1]);
    StripSetNoEdge(s, Whitespace);
    var m := "-" + s;
    assert m[0] == '-' && m[|m| - 1] == s[|s| - 1];
    StripSetNoEdge(m, Whitespace);
  }

  /** A numeral, signed or not, denotes its number once whitespace is gone. */
  lemma ParseSignedDecimal(n: nat)
    ensures ParseSigned(Decimal(n)) == Success(n)
    ensures ParseSigned("-" + Decimal(n)) == Success(-(n as int))
  {
    var s := Decimal(n);
    ValueOfDecimal(n);
    assert DigitGroups(s);
    assert ("-" + s)[0] == '-' && ("-" + s)[1..] == s;
  }

  /** `int()` reads a numeral back as its number, with or without a minus sign. */
  lemma ParseIntDecimal(n: nat)
    ensures ParseInt(Decimal(n)) == Success(n)
    ensures ParseInt("-" + Decimal(n)) == Success(-(n as int))
  {
    StripDecimal(n);
    ParseSignedDecimal(n);
  }

  /** `tuple(f(x) for x in parts)`: evaluated left to right, the first exception raised. */
  function MapAll(parts: seq<string>, f: string -> Result<int, Exc>): (r: Result<seq<int>, Exc>)
    ensures r.Success? <==> forall k | 0 <= k < |parts| :: f(parts[k]).Success?
    ensures r.Success? ==> |r.value| == |parts| && forall k | 0 <= k < |parts| :: r.value[k] == f(parts[k]).value
  {
    if |parts| == 0 then Success([])
    else
      var head :- f(parts[0]);
      var tail :- MapAll(parts[1..], f);
      Success([head] + tail)
  }

  /** A failing tuple raises the error of its first failing part. */
  lemma {:induction false} MapAllFailure(parts: seq<string>, f: string -> Result<int, Exc>)
    requires MapAll(parts, f).Failure?
    ensures exists j | 0 <= j < |parts| ::
      f(parts[j]) == Failure(MapAll(parts, f).error) && forall k | 0 <= k < j :: f(parts[k]).Success?
  {
    if f(parts[0]).Failure? {
      assert f(parts[0]) == Failure(MapAll(parts, f).error);
    } else {
      var rest := parts[1..];
      MapAllFailure(rest, f);
      var j :| 0 <= j < |rest| &&
        f(rest[j]) == Failure(MapAll(rest, f).error) && forall k | 0 <= k < j :: f(rest[k]).Success?;
      assert parts[j + 1] == rest[j];
      assert forall k | 1 <= k < j + 1 :: parts[k] == rest[k - 1];
    }
  }

  /** `tuple(int(x) for x in version.split("."))` */
  function VersionTuple(version: string): Result<seq<int>, Exc> {
    MapAll(Split(version, '.'), ParseInt)
  }

  /** Python's `<` on tuples of integers: the first differing position decides, and a proper
      prefix is smaller. */
  predicate TupleLess(a: seq<int>, b: seq<int>) {
    if |a| == 0 then |b| > 0
    else if |b| == 0 then false
    else if a[0] != b[0] then a[0] < b[0]
    else TupleLess(a[1..], b[1..])
  }

  /** Python's `>=` on tuples of integers. */
  predicate AtLeast(a: seq<int>, b: seq<int>) { !TupleLess(a, b) }

  /** For a `major.minor` tuple the comparison is the expected one on release numbers. */
  lemma AtLeastTwoParts(major: int, minor: int, m: int, n: int)
    ensures AtLeast([major, minor], [m, n]) <==> major > m || (major == m && minor >= n)
  {
    assert [major, minor][1..] == [minor] && [m, n][1..] == [n];
    assert [minor][1..] == [] && [n][1..] == [];
    assert TupleLess([minor], [n]) <==> minor < n;
  }

  /** The names the aliases step appends for the version tuple `t`, in order:
      `_frozen_importlib` from 3.3 on, `_frozen_importlib_external` from 3.5 on. */
  function Aliases(t: seq<int>): (r: seq<string>)
    ensures "_frozen_importlib" in r <==> AtLeast(t, [3, 3])
    ensures "_frozen_importlib_external" in r <==> AtLeast(t, [3, 5])
  {
    (if AtLeast(t, [3, 3]) then ["_frozen_importlib"] else []) +
    (if AtLeast(t, [3, 5]) then ["_frozen_importlib_external"] else [])
  }

  lemma MapAllCons(a: string, rest: seq<string>, f: string -> Result<int, Exc>, x: int, ys: seq<int>)
    requires f(a) == Success(x) && MapAll(rest, f) == Success(ys)
    ensures MapAll([a] + rest, f) == Success([x] + ys)
  {
    var p := [a] + rest;
    assert p[0] == a && p[1..] == rest;
  }

  lemma MapAllTwo(a: string, b: string, f: string -> Result<int, Exc>, x: int, y: int)
    requires f(a) == Success(x) && f(b) == Success(y)
    ensures MapAll([a, b], f) == Success([x, y])
  {
    MapAllCons(b, [], f, y, []);
    assert [b] + [] == [b] && [y] + [] == [y];
    MapAllCons(a, [b], f, x, [y]);
    assert [a] + [b] == [a, b] && [x] + [y] == [x, y];
  }

  lemma SplitTwo(a: string, b: string, sep: char)
    requires sep !in a && sep !in b
    ensures Split(a + [sep] + b, sep) == [a, b]
  {
    SplitPrefix(a, b, sep);
    SplitNoSep(b, sep);
  }

  /** Two dot-free parts that `int()` accepts make a two-element version tuple. */
  lemma VersionTupleOfParts(a: string, b: string, x: int, y: int)
    requires '.' !in a && '.' !in b
    requires ParseInt(a) == Success(x) && ParseInt(b) == Success(y)
    ensures VersionTuple(a + "." + b) == Success([x, y])
  {
    SplitTwo(a, b, '.');
    MapAllTwo(a, b, ParseInt, x, y);
  }

  /** A `major.minor` version string parses to its two numbers. */
  lemma VersionTupleTwoParts(major: nat, minor: nat)
    ensures VersionTuple(Decimal(major) + "." + Decimal(minor)) == Success([major, minor])
  {
    ParseIntDecimal(major);
    ParseIntDecimal(minor);
    VersionTupleOfParts(Decimal(major), Decimal(minor), major, minor);
  }

  /** For a release `major.minor`, `_frozen_importlib` is aliased exactly from 3.3 on and
      `_frozen_importlib_external` exactly from 3.5 on.  The minor numbers compare as
      integers, so 3.10 gets both aliases although "3.10" sorts before "3.3" as a string,
      and 2.7 gets neither. */
  lemma AliasesOfRelease(major: nat, minor: nat)
    ensures var t := VersionTuple(Decimal(major) + "." + Decimal(minor));
      t.Success? &&
      ("_frozen_importlib" in Aliases(t.value) <==> major > 3 || (major == 3 && minor >= 3)) &&
      ("_frozen_importlib_external" in Aliases(t.value) <==> major > 3 || (major == 3 && minor >= 5))
  {
    VersionTupleTwoParts(major, minor);
    AtLeastTwoParts(major, minor, 3, 3);
    AtLeastTwoParts(major, minor, 3, 5);
  }

  /** `f"py{version.replace('.', '')}.py"`: the table file written for one release. */
  function OutputFileName(version: string): string {
    "py" + RemoveChar(version, '.') + ".py"
  }

  lemma RemoveDot(major: string, minor: string)
    requires '.' !in major && '.' !in minor
    ensures RemoveChar(major + "." + minor, '.') == major + minor
  {
    RemoveCharAppend(major, ".", '.');
    RemoveCharAppend(major + ".", minor, '.');
  }

  /** The file for release `major.minor` is named after both numbers run together. */
  lemma OutputFileNameOfRelease(major: string, minor: string)
    requires '.' !in major && '.' !in minor
    ensures OutputFileName(major + "." + minor) == "py" + major + minor + ".py"
  {
    RemoveDot(major, minor);
  }

  /** `url.split("/")[-1].rsplit(".", 1)[0]`: the directory the tarball unpacks to under
      `.cache`. */
  function CacheDirName(url: string): (name: string)
    ensures '/' !in name
  {
    var parts := Split(url, '/');
    var file := parts[|parts| - 1];
    match LastIndexOf(file, '.')
    case None => file
    case Some(i) => file[..i]
  }

  /** The cache directory of `dir/base.ext` is `base`, whatever dots `base` holds. */
  lemma CacheDirNameOf(dir: string, base: string, ext: string)
    requires '/' !in base && '/' !in ext && '.' !in ext
    ensures CacheDirName(dir + "/" + base + "." + ext) == base
  {
    var file := base + "." + ext;
    assert dir + "/" + base + "." + ext == dir + ['/'] + file;
    SplitLast(dir, file, '/');
    LastDot(base, ext);
    assert file[..|base|] == base;
  }
}
