/** The Python `str` and `pathlib` operations the generator relies on, on `seq<char>`. */
module PyStr {
  import opened Wrappers

  /** `str.isspace()` for one character: tab to carriage return, the separators U+001C to
      U+001F, the space, U+0085, the no-break space, and the Unicode spaces and line and
      paragraph separators. */
  predicate IsSpace(c: char) {
    ('\t' <= c <= '\r') || ('\U{1C}' <= c <= ' ') || c == '\U{85}' || c == '\U{A0}' ||
    c == '\U{1680}' || ('\U{2000}' <= c <= '\U{200A}') || c == '\U{2028}' || c == '\U{2029}' ||
    c == '\U{202F}' || c == '\U{205F}' || c == '\U{3000}'
  }

  /** The characters `str.strip()` with no argument removes: those for which `isspace()`
      holds, all of which lie between the tab and U+3000. */
  const Whitespace: set<char> := set c: char | '\t' <= c <= '\U{3000}' && IsSpace(c)

  predicate StartsWith(s: string, prefix: string) { prefix <= s }

  predicate EndsWith(s: string, suffix: string) {
    |suffix| <= |s| && s[|s| - |suffix|..] == suffix
  }

  /** How many leading characters of `s` belong to `cs`. */
  function LeadCount(s: string, cs: set<char>): (n: nat)
    ensures n <= |s|
    ensures forall k | 0 <= k < n :: s[k] in cs
    ensures n < |s| ==> s[n] !in cs
  {
    if |s| == 0 || s[0] !in cs then 0 else 1 + LeadCount(s[1..], cs)
  }

  /** How many trailing characters of `s` belong to `cs`. */
  function TrailCount(s: string, cs: set<char>): (n: nat)
    ensures n <= |s|
    ensures forall k | |s| - n <= k < |s| :: s[k] in cs
    ensures n < |s| ==> s[|s| - 1 - n] !in cs
  {
    if |s| == 0 || s[|s| - 1] !in cs then 0 else 1 + TrailCount(s[..|s| - 1], cs)
  }

  /** `s.strip(cs)`: drop the longest prefix and the longest suffix made of `cs`. */
  function StripSet(s: string, cs: set<char>): (r: string)
    ensures |r| <= |s|
  {
    var a := LeadCount(s, cs);
    var t := s[a..];
    t[..|t| - TrailCount(t, cs)]
  }

  /** What `strip` keeps: a slice of `s` that neither starts nor ends with a character of
      `cs`, with only characters of `cs` before and after it; empty exactly when `s`
      consists of such characters, and all of `s` when `s` neither starts nor ends with one. */
  lemma StripSetSlice(s: string, cs: set<char>)
    ensures var r := StripSet(s, cs);
      (r == [] || (r[0] !in cs && r[|r| - 1] !in cs)) &&
      (r == [] <==> forall k | 0 <= k < |s| :: s[k] in cs) &&
      (|s| == 0 || (s[0] !in cs && s[|s| - 1] !in cs) ==> r == s) &&
      LeadCount(s, cs) + |r| <= |s| && r == s[LeadCount(s, cs)..LeadCount(s, cs) + |r|] &&
      (forall k | 0 <= k < LeadCount(s, cs) :: s[k] in cs) &&
      (forall k | LeadCount(s, cs) + |r| <= k < |s| :: s[k] in cs)
  {
    StripSetCut(s, cs);
    StripSetEnds(s, cs);
  }

  /** Where `strip` cuts: after the leading run of `cs` and before a trailing run of `cs`. */
  lemma StripSetCut(s: string, cs: set<char>)
    ensures var r, a := StripSet(s, cs), LeadCount(s, cs);
      a + |r| <= |s| && r == s[a..a + |r|] && forall k | a + |r| <= k < |s| :: s[k] in cs
  {
    var a := LeadCount(s, cs);
    var t := s[a..];
    var b := TrailCount(t, cs);
    var r := StripSet(s, cs);
    assert r == t[..|t| - b];
    assert r == s[a..a + |r|] by {
      assert t[..|t| - b] == s[a..a + (|t| - b)];
    }
    forall k | a + |r| <= k < |s| ensures s[k] in cs {
      assert s[k] == t[k - a];
    }
  }

  /** `strip` cuts at characters outside `cs`. */
  lemma StripSetEnds(s: string, cs: set<char>)
    ensures var r := StripSet(s, cs); r == [] || (r[0] !in cs && r[|r| - 1] !in cs)
  {
    var a := LeadCount(s, cs);
    var t := s[a..];
    var b := TrailCount(t, cs);
    var r := StripSet(s, cs);
    assert r == t[..|t| - b];
    if r != [] {
      assert r[0] == s[a];
      assert r[|r| - 1] == t[|t| - b - 1];
    }
  }

  /** Stripping a set from a text enclosed in one of its characters recovers the enclosed
      text, provided that text neither starts nor ends with a character of the set. */
  lemma StripSetEnclosed(c: char, inner: string, cs: set<char>)
    requires c in cs
    requires inner == [] || (inner[0] !in cs && inner[|inner| - 1] !in cs)
    ensures StripSet([c] + inner + [c], cs) == inner
  {
    var s := [c] + inner + [c];
    assert s[1..] == inner + [c];
    if inner == [] {
      assert s == [c, c];
      assert LeadCount(s, cs) == 2;
    } else {
      assert LeadCount(s[1..], cs) == 0;
      assert LeadCount(s, cs) == 1;
      var t := s[1..];
      assert t[..|t| - 1] == inner;
      assert TrailCount(t, cs) == 1;
    }
  }

  /** A text that neither starts nor ends with a character of `cs` is its own strip. */
  lemma StripSetNoEdge(s: string, cs: set<char>)
    requires s == [] || (s[0] !in cs && s[|s| - 1] !in cs)
    ensures StripSet(s, cs) == s
  {
    StripSetSlice(s, cs);
  }

  /** `s.strip()`. */
  function Strip(s: string): string { StripSet(s, Whitespace) }

  /** Every character of `s` belongs to `cs`. */
  predicate AllIn(s: string, cs: set<char>) {
    |s| == 0 || (s[0] in cs && AllIn(s[1..], cs))
  }

  lemma {:induction false} AllInIffStripEmpty(s: string, cs: set<char>)
    ensures AllIn(s, cs) <==> StripSet(s, cs) == ""
  {
    StripSetSlice(s, cs);
    if |s| > 0 {
      AllInIffStripEmpty(s[1..], cs);
      StripSetSlice(s[1..], cs);
      assert forall k | 1 <= k < |s| :: s[k] == s[1..][k - 1];
    }
  }

  /** Every character of `s` is Python whitespace. */
  predicate AllSpace(s: string) { AllIn(s, Whitespace) }

  /** `not s.strip()` holds exactly for the strings made only of whitespace. */
  lemma AllSpaceIffStripEmpty(s: string)
    ensures AllSpace(s) <==> Strip(s) == ""
  {
    AllInIffStripEmpty(s, Whitespace);
  }

  /** `s.find(c)` for one character, as an option. */
  function IndexOf(s: string, c: char): (r: Option<nat>)
    ensures r.None? <==> c !in s
    ensures r.Some? ==> r.value < |s| && s[r.value] == c && c !in s[..r.value]
  {
    if |s| == 0 then None
    else if s[0] == c then Some(0)
    else match IndexOf(s[1..], c)
      case None => None
      case Some(i) =>
        assert s[..i + 1] == [s[0]] + s[1..][..i];
        Some(i + 1)
  }

  /** `s.rfind(c)` for one character, as an option. */
  function LastIndexOf(s: string, c: char): (r: Option<nat>)
    ensures r.None? <==> c !in s
    ensures r.Some? ==> r.value < |s| && s[r.value] == c && c !in s[r.value + 1..]
  {
    if |s| == 0 then None
    else if s[|s| - 1] == c then Some(|s| - 1)
    else
      var r := LastIndexOf(s[..|s| - 1], c);
      assert r.Some? ==> s[r.value + 1..] == s[..|s| - 1][r.value + 1..] + [s[|s| - 1]];
      assert r.None? ==> s == s[..|s| - 1] + [s[|s| - 1]];
      r
  }

  /** `sep.join(parts)` for a one-character separator. */
  function Join(parts: seq<string>, sep: char): string {
    if |parts| == 0 then ""
    else if |parts| == 1 then parts[0]
    else parts[0] + [sep] + Join(parts[1..], sep)
  }

  /** `s.split(sep)` for a one-character separator: the pieces between separators. */
  function Split(s: string, sep: char): (parts: seq<string>)
    ensures |parts| >= 1
    ensures forall k | 0 <= k < |parts| :: sep !in parts[k]
  {
    if |s| == 0 then [""]
    else
      var rest := Split(s[1..], sep);
      if s[0] == sep then [""] + rest
      else [[s[0]] + rest[0]] + rest[1..]
  }

  /** Putting a character in front of the first piece puts it in front of the join. */
  lemma JoinCons(c: char, parts: seq<string>, sep: char)
    requires |parts| >= 1
    ensures Join([[c] + parts[0]] + parts[1..], sep) == [c] + Join(parts, sep)
  {
    var q := [[c] + parts[0]] + parts[1..];
    assert q[1..] == parts[1..];
  }

  /** Joining the pieces with the separator gives back the text. */
  lemma {:induction false} JoinOfSplit(s: string, sep: char)
    ensures Join(Split(s, sep), sep) == s
  {
    if |s| > 0 {
      var rest := Split(s[1..], sep);
      JoinOfSplit(s[1..], sep);
      if s[0] == sep {
        assert ([""] + rest)[1..] == rest;
        assert s == [sep] + s[1..];
      } else {
        JoinCons(s[0], rest, sep);
        assert s == [s[0]] + s[1..];
      }
    }
  }

  /** A text without the separator is one piece. */
  lemma {:induction false} SplitNoSep(s: string, sep: char)
    requires sep !in s
    ensures Split(s, sep) == [s]
  {
    if |s| > 0 {
      SplitNoSep(s[1..], sep);
      assert s == [s[0]] + s[1..];
    }
  }

  /** A text holding the separator has at least two pieces. */
  lemma {:induction false} SplitWithSep(s: string, sep: char)
    requires sep in s
    ensures |Split(s, sep)| >= 2
  {
    if s[0] != sep {
      SplitWithSep(s[1..], sep);
    }
  }

  /** The last piece of a split is what follows the last separator. */
  lemma {:induction false} SplitLast(a: string, b: string, sep: char)
    requires sep !in b
    ensures var parts := Split(a + [sep] + b, sep); parts[|parts| - 1] == b
  {
    var s := a + [sep] + b;
    if |a| == 0 {
      assert s[0] == sep && s[1..] == b;
      SplitNoSep(b, sep);
    } else {
      assert s[1..] == a[1..] + [sep] + b;
      SplitLast(a[1..], b, sep);
      assert sep in s[1..] by { assert s[1..][|a| - 1] == sep; }
      SplitWithSep(s[1..], sep);
    }
  }

  /** Splitting undoes joining when no piece holds the separator. */
  lemma {:induction false} SplitOfJoin(parts: seq<string>, sep: char)
    requires |parts| >= 1
    requires forall k | 0 <= k < |parts| :: sep !in parts[k]
    ensures Split(Join(parts, sep), sep) == parts
  {
    if |parts| == 1 {
      SplitNoSep(parts[0], sep);
    } else {
      SplitOfJoin(parts[1..], sep);
      SplitPrefix(parts[0], Join(parts[1..], sep), sep);
      assert parts == [parts[0]] + parts[1..];
    }
  }

  /** Splitting `p + sep + t` with `sep` not in `p` gives `p` followed by the pieces of `t`. */
  lemma {:induction false} SplitPrefix(p: string, t: string, sep: char)
    requires sep !in p
    ensures Split(p + [sep] + t, sep) == [p] + Split(t, sep)
  {
    var s := p + [sep] + t;
    if |p| == 0 {
      assert s[0] == sep && s[1..] == t;
    } else {
      assert s[0] == p[0] && s[1..] == p[1..] + [sep] + t;
      SplitPrefix(p[1..], t, sep);
      assert [p[0]] + p[1..] == p;
    }
  }

  /** `s.find(sub)` for a non-empty `sub`, as an option. */
  function FindSub(s: string, sub: string): (r: Option<nat>)
    requires |sub| > 0
    ensures r.Some? ==> r.value + |sub| <= |s|
  {
    if StartsWith(s, sub) then Some(0)
    else if |s| == 0 then None
    else
      match FindSub(s[1..], sub)
      case None => None
      case Some(i) => Some(i + 1)
  }

  /** `find` reports the first occurrence, and reports none only when there is none. */
  lemma {:induction false} FindSubCorrect(s: string, sub: string)
    requires |sub| > 0
    ensures var r := FindSub(s, sub);
      (r.Some? ==> StartsWith(s[r.value..], sub) &&
                   forall k | 0 <= k < r.value :: !StartsWith(s[k..], sub)) &&
      (r.None? ==> forall k | 0 <= k <= |s| :: !StartsWith(s[k..], sub))
  {
    if !StartsWith(s, sub) && |s| > 0 {
      FindSubCorrect(s[1..], sub);
      assert forall k | 1 <= k <= |s| :: s[k..] == s[1..][k - 1..];
    }
  }

  /** An occurrence at `i` is the one `find` reports when `sub` does not occur earlier. */
  lemma FindSubAt(s: string, sub: string, i: nat)
    requires |sub| > 0 && i + |sub| <= |s| && s[i..i + |sub|] == sub
    requires forall k | 0 <= k < i :: !StartsWith(s[k..], sub)
    ensures FindSub(s, sub) == Some(i)
  {
    assert s[i..][..|sub|] == s[i..i + |sub|];
    FindSubCorrect(s, sub);
  }

  /** `s.split(sub)[0]`: the text before the first occurrence of `sub`. */
  function BeforeSub(s: string, sub: string): (r: string)
    requires |sub| > 0
    ensures r <= s
  {
    match FindSub(s, sub)
    case None => s
    case Some(i) => s[..i]
  }

  /** The text before `sub` holds no occurrence of `sub` and is followed by one unless it is
      the whole text. */
  lemma BeforeSubCorrect(s: string, sub: string)
    requires |sub| > 0
    ensures var r := BeforeSub(s, sub);
      (forall k | 0 <= k < |r| :: !StartsWith(s[k..], sub)) &&
      (r == s || StartsWith(s[|r|..], sub))
  {
    FindSubCorrect(s, sub);
  }

  /** `pathlib.PurePath(name).stem`: the name without its last suffix, where a suffix is a
      dot that is neither the first nor the last character, and what follows it. */
  function Stem(name: string): string {
    match LastIndexOf(name, '.')
    case Some(i) => if 0 < i < |name| - 1 then name[..i] else name
    case None => name
  }

  /** The stem of `base.ext` is `base` when both are non-empty and `ext` has no dot. */
  lemma StemOfSuffixed(base: string, ext: string)
    requires |base| > 0 && |ext| > 0 && '.' !in ext
    ensures Stem(base + "." + ext) == base
  {
    LastDot(base, ext);
    assert (base + "." + ext)[..|base|] == base;
  }

  /** The last dot of `base.ext` is the one before `ext` when `ext` has none. */
  lemma LastDot(base: string, ext: string)
    requires '.' !in ext
    ensures LastIndexOf(base + "." + ext, '.') == Some(|base|)
  {
    var name := base + "." + ext;
    assert name[|base|] == '.';
    assert name[|base| + 1..] == ext;
  }

  /** A name with no dot is its own stem. */
  lemma StemWithoutDot(name: string)
    requires '.' !in name
    ensures Stem(name) == name
  {
  }

  /** `s.replace(c, "")` for one character. */
  function RemoveChar(s: string, c: char): (r: string)
    ensures c !in r
    ensures |r| <= |s|
    ensures c !in s ==> r == s
  {
    if |s| == 0 then ""
    else (if s[0] == c then "" else [s[0]]) + RemoveChar(s[1..], c)
  }

  /** Removing a character works piece by piece. */
  lemma {:induction false} RemoveCharAppend(a: string, b: string, c: char)
    ensures RemoveChar(a + b, c) == RemoveChar(a, c) + RemoveChar(b, c)
  {
    if |a| == 0 {
      assert a + b == b;
    } else {
      assert (a + b)[0] == a[0] && (a + b)[1..] == a[1..] + b;
      RemoveCharAppend(a[1..], b, c);
    }
  }

  /** `"".join(parts)`. */
  function Concat(parts: seq<string>): string {
    if |parts| == 0 then "" else parts[0] + Concat(parts[1..])
  }

  lemma {:induction false} ConcatAppend(a: seq<string>, b: seq<string>)
    ensures Concat(a + b) == Concat(a) + Concat(b)
  {
    if |a| == 0 {
      assert a + b == b;
    } else {
      assert (a + b)[1..] == a[1..] + b;
      ConcatAppend(a[1..], b);
    }
  }

  /** Python's ordering of `str` values: code point by code point, a proper prefix first. */
  predicate Less(a: string, b: string) {
    if |a| == 0 then |b| > 0
    else if |b| == 0 then false
    else if a[0] != b[0] then a[0] < b[0]
    else Less(a[1..], b[1..])
  }

  lemma {:induction false} LessIrreflexive(a: string)
    ensures !Less(a, a)
  {
    if |a| > 0 { LessIrreflexive(a[1..]); }
  }

  lemma {:induction false} LessTransitive(a: string, b: string, c: string)
    requires Less(a, b) && Less(b, c)
    ensures Less(a, c)
  {
    if |a| > 0 && |b| > 0 && |c| > 0 && a[0] == b[0] && b[0] == c[0] {
      LessTransitive(a[1..], b[1..], c[1..]);
    }
  }

  lemma {:induction false} LessTotal(a: string, b: string)
    requires a != b
    ensures Less(a, b) || Less(b, a)
  {
    if |a| > 0 && |b| > 0 && a[0] == b[0] {
      assert a == [a[0]] + a[1..] && b == [b[0]] + b[1..];
      LessTotal(a[1..], b[1..]);
    }
  }

  lemma {:induction false} LessAsymmetric(a: string, b: string)
    requires Less(a, b)
    ensures !Less(b, a)
  {
    if |a| > 0 && |b| > 0 && a[0] == b[0] {
      LessAsymmetric(a[1..], b[1..]);
    }
  }
}
