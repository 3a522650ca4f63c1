/** Clean-up of the 2.x build script after `lib2to3` has rewritten it: the script is split
    into lines, every line whose stripped text is one of four known-unparseable constructs is
    dropped, and the remaining lines are joined back together. */
module Legacy {
  import opened PyStr
  import opened Filter

  /** `PY2_LINES_TO_OMIT`: the lines `lib2to3` leaves in a form the parser rejects. */
  const Py2LinesToOmit: seq<string> := [
    "join(F, fw + '.framework', H)",
    "for fw in 'Tcl', 'Tk'",
    "for fw in ('Tcl', 'Tk')",
    "for H in 'Headers', 'Versions/Current/PrivateHeaders'"
  ]

  /** `line.strip() in PY2_LINES_TO_OMIT` */
  predicate Omitted(line: string) {
    Strip(line) in Py2LinesToOmit
  }

  /** The filter `regen` applies to the lines of the migrated script. */
  function DropLegacyLines(lines: seq<string>): seq<string> {
    Drop(lines, Omitted)
  }

  /** The legacy filter keeps exactly the lines whose stripped text is not listed, unchanged,
      in order, and applying it twice is the same as once. */
  lemma DropLegacyLinesCorrect(lines: seq<string>)
    ensures IsSubsequence(DropLegacyLines(lines), lines)
    ensures forall line :: line in DropLegacyLines(lines) <==> line in lines && !Omitted(line)
    ensures DropLegacyLines(DropLegacyLines(lines)) == DropLegacyLines(lines)
  {
    DropKeepsOrder(lines, Omitted);
    forall line ensures line in DropLegacyLines(lines) <==> line in lines && !Omitted(line) {
      DropMembership(lines, Omitted, line);
    }
    DropIdempotent(lines, Omitted);
  }

  /** The characters `str.splitlines()` treats as line boundaries (with "\r\n" as one). */
  const LineBreaks: set<char> := {
    '\n', '\r', '\U{B}', '\U{C}', '\U{1C}', '\U{1D}', '\U{1E}', '\U{85}', '\U{2028}', '\U{2029}'
  }

  /** Length of the first line of `s`, its line boundary included. */
  function FirstLineLen(s: string): (n: nat)
    requires |s| > 0
    ensures 0 < n <= |s|
    ensures n == |s| || s[n - 1] in LineBreaks
    ensures forall k | 0 <= k < n - 1 :: s[k] !in LineBreaks || (k == n - 2 && s[k] == '\r' && s[k + 1] == '\n')
    ensures s[n - 1] == '\r' ==> n == |s| || s[n] != '\n'
  {
    if s[0] == '\r' then (if |s| > 1 && s[1] == '\n' then 2 else 1)
    else if s[0] in LineBreaks || |s| == 1 then 1
    else 1 + FirstLineLen(s[1..])
  }

  /** `s.splitlines(True)`: the lines of `s`, each with its line boundary kept. */
  function SplitLinesKeepEnds(s: string): seq<string>
    decreases |s|
  {
    if |s| == 0 then [] else
      var n := FirstLineLen(s);
      [s[..n]] + SplitLinesKeepEnds(s[n..])
  }

  /** Joining the lines gives back the text: no character is lost or added. */
  lemma {:induction false} SplitLinesConcat(s: string)
    ensures Concat(SplitLinesKeepEnds(s)) == s
    decreases |s|
  {
    if |s| > 0 {
      var n := FirstLineLen(s);
      SplitLinesConcat(s[n..]);
      assert s == s[..n] + s[n..];
    }
  }

  /** A line as `splitlines(True)` cuts it: non-empty, with no line boundary before its last
      character other than the `\r` of a closing `\r\n`. */
  predicate IsLine(l: string) {
    |l| > 0 &&
    forall k | 0 <= k < |l| - 1 :: l[k] !in LineBreaks || (k == |l| - 2 && l[k] == '\r' && l[k + 1] == '\n')
  }

  /** Pieces cut as `splitlines(True)` cuts them: every piece is a line, every piece but the
      last ends at a line boundary, and a piece ending in `\r` is never followed by one
      starting with `\n`. */
  predicate LinesShaped(ls: seq<string>) {
    (forall k | 0 <= k < |ls| :: IsLine(ls[k])) &&
    (forall k | 0 <= k < |ls| - 1 :: ls[k][|ls[k]| - 1] in LineBreaks) &&
    (forall k | 0 <= k < |ls| - 1 :: ls[k][|ls[k]| - 1] == '\r' ==> ls[k + 1][0] != '\n')
  }

  /** A line put in front of shaped pieces keeps them shaped when it closes at a boundary
      that does not split a `\r\n`. */
  lemma LinesShapedCons(h: string, t: seq<string>)
    requires IsLine(h) && LinesShaped(t)
    requires |t| > 0 ==> h[|h| - 1] in LineBreaks
    requires |t| > 0 && h[|h| - 1] == '\r' ==> t[0][0] != '\n'
    ensures LinesShaped([h] + t)
  {
    var ls := [h] + t;
    forall k | 1 <= k < |ls| ensures ls[k] == t[k - 1] { }
  }

  /** `splitlines(True)` cuts `s` into shaped pieces. */
  lemma {:induction false} SplitLinesShape(s: string)
    ensures LinesShaped(SplitLinesKeepEnds(s))
    decreases |s|
  {
    if |s| > 0 {
      var n := FirstLineLen(s);
      var rest := s[n..];
      SplitLinesShape(rest);
      var t := SplitLinesKeepEnds(rest);
      assert IsLine(s[..n]);
      if |t| > 0 {
        assert t[0] == rest[..FirstLineLen(rest)];
        assert t[0][0] == s[n];
      }
      LinesShapedCons(s[..n], t);
    }
  }

  /** The text `read_text()` returns for a file holding `s`: with universal newlines, each
      `\r\n` and each lone `\r` reads as `\n`. */
  function UniversalNewlines(s: string): (r: string)
    ensures '\r' !in r
    ensures |r| <= |s|
    decreases |s|
  {
    if |s| == 0 then []
    else if s[0] == '\r' then "\n" + UniversalNewlines(if |s| > 1 && s[1] == '\n' then s[2..] else s[1..])
    else [s[0]] + UniversalNewlines(s[1..])
  }

  /** A prefix without `\r` reads as itself. */
  lemma {:induction false} UniversalNewlinesAppend(p: string, s: string)
    requires '\r' !in p
    ensures UniversalNewlines(p + s) == p + UniversalNewlines(s)
    decreases |p|
  {
    if |p| > 0 {
      UniversalNewlinesAppend(p[1..], s);
      assert (p + s)[0] == p[0] != '\r';
      assert (p + s)[1..] == p[1..] + s;
      assert p + UniversalNewlines(s) == [p[0]] + (p[1..] + UniversalNewlines(s));
    } else {
      assert p + s == s;
    }
  }

  /** A text without `\r` reads as itself, so reading twice is reading once. */
  lemma UniversalNewlinesPlain(s: string)
    requires '\r' !in s
    ensures UniversalNewlines(s) == s
  {
    UniversalNewlinesAppend(s, []);
    assert s + [] == s;
  }

  /** Reading a text whose line ends are all `\n` changes nothing: translation is idempotent. */
  lemma UniversalNewlinesIdempotent(s: string)
    ensures UniversalNewlines(UniversalNewlines(s)) == UniversalNewlines(s)
  {
    UniversalNewlinesPlain(UniversalNewlines(s));
  }

  /** After a `\r`-free prefix, a `\r\n` reads as one `\n`, and so does a `\r` not followed
      by `\n`. */
  lemma UniversalNewlinesLineEnds(p: string, s: string)
    requires '\r' !in p
    ensures UniversalNewlines(p + "\r\n" + s) == p + "\n" + UniversalNewlines(s)
    ensures (|s| == 0 || s[0] != '\n') ==> UniversalNewlines(p + "\r" + s) == p + "\n" + UniversalNewlines(s)
  {
    UniversalNewlinesAppend(p, "\r\n" + s);
    assert ("\r\n" + s)[2..] == s;
    assert p + "\r\n" + s == p + ("\r\n" + s);
    UniversalNewlinesAppend(p, "\r" + s);
    assert ("\r" + s)[1..] == s;
    assert p + "\r" + s == p + ("\r" + s);
  }

  /** What `regen` writes back to `fixed/setup.py`: the migrated script as `read_text()` reads
      it, without its listed lines. */
  function FixLegacySetup(migrated: string): string {
    Concat(DropLegacyLines(SplitLinesKeepEnds(UniversalNewlines(migrated))))
  }

  /** A migrated script none of whose lines is listed is written back with its line ends
      translated to `\n`, and so unchanged when it holds no `\r`. */
  lemma FixLegacySetupUnchanged(migrated: string)
    requires var ls := SplitLinesKeepEnds(UniversalNewlines(migrated));
      forall k | 0 <= k < |ls| :: !Omitted(ls[k])
    ensures FixLegacySetup(migrated) == UniversalNewlines(migrated)
    ensures '\r' !in migrated ==> FixLegacySetup(migrated) == migrated
  {
    var text := UniversalNewlines(migrated);
    DropIsIdentityIff(SplitLinesKeepEnds(text), Omitted);
    SplitLinesConcat(text);
    if '\r' !in migrated {
      UniversalNewlinesPlain(migrated);
    }
  }

  /** A line without boundaries, closed by `\n`, is the first piece `splitlines(True)` cuts. */
  lemma FirstLineOf(line: string, rest: string)
    requires forall k | 0 <= k < |line| :: line[k] !in LineBreaks
    ensures SplitLinesKeepEnds(line + "\n" + rest) == [line + "\n"] + SplitLinesKeepEnds(rest)
  {
    var s := line + "\n" + rest;
    var n := FirstLineLen(s);
    assert s[|line|] == '\n';
    assert n == |line| + 1;
    assert s[..n] == line + "\n";
    assert s[n..] == rest;
  }

  /** The cleaning of a leading line without boundaries, closed by `\n`: the line is dropped
      when listed and kept in place otherwise. */
  lemma FixLegacySetupLine(line: string, rest: string)
    requires forall k | 0 <= k < |line| :: line[k] !in LineBreaks
    ensures Omitted(line + "\n") ==> FixLegacySetup(line + "\n" + rest) == FixLegacySetup(rest)
    ensures !Omitted(line + "\n") ==> FixLegacySetup(line + "\n" + rest) == line + "\n" + FixLegacySetup(rest)
  {
    assert '\r' !in line + "\n";
    UniversalNewlinesAppend(line + "\n", rest);
    assert line + "\n" + rest == (line + "\n") + rest;
    var text := UniversalNewlines(rest);
    FirstLineOf(line, text);
    var ls := SplitLinesKeepEnds(text);
    DropAppend([line + "\n"], ls, Omitted);
    ConcatAppend(Drop([line + "\n"], Omitted), Drop(ls, Omitted));
    assert Concat([line + "\n"]) == line + "\n";
  }
}
