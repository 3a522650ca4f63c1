/** The copyright header the generator copies from the top of its own source file: every line
    read before the first line that is empty or only whitespace. */
module Header {
  import opened Wrappers
  import opened PyStr

  /** `f.readline()` with the rest of the file in `text`: everything up to and including the
      first newline, or the rest of the text when there is none ("" at end of file).
      `text` is the file after Python's universal-newline translation. */
  function ReadLine(text: string): (line: string)
    ensures line <= text
    ensures |text| > 0 ==> |line| > 0
    ensures |line| > 0 ==> '\n' !in line[..|line| - 1]
    ensures line == text || (|line| > 0 && line[|line| - 1] == '\n')
  {
    match IndexOf(text, '\n')
    case None => text
    case Some(i) => text[..i + 1]
  }

  /** The test that ends the loop, `not line.strip()`: the line is only whitespace
      (see `PyStr.AllSpaceIffStripEmpty`). */
  predicate Blank(line: string) { AllSpace(line) }

  /** How many characters of `text` the loop appends before it meets a blank line. */
  function HeaderLen(text: string): (n: nat)
    ensures n <= |text|
    decreases |text|
  {
    var line := ReadLine(text);
    if Blank(line) then 0 else |line| + HeaderLen(text[|line|..])
  }

  /** The header the loop builds from `text`. */
  function HeaderOf(text: string): string {
    text[..HeaderLen(text)]
  }

  /** The lines successive `readline()` calls return before end of file. */
  function ReadLines(text: string): seq<string>
    decreases |text|
  {
    if |text| == 0 then [] else
      var line := ReadLine(text);
      [line] + ReadLines(text[|line|..])
  }

  /** The lines before the first blank one. */
  function TakeNonBlank(lines: seq<string>): seq<string> {
    if |lines| == 0 || Blank(lines[0]) then [] else [lines[0]] + TakeNonBlank(lines[1..])
  }

  /** Reading one more line from position `pos`: the text read so far grows by that line, and
      the header ends here when the line is blank and continues after it otherwise. */
  lemma ReadOn(text: string, pos: nat, line: string)
    requires pos <= |text| && line == ReadLine(text[pos..])
    ensures pos + |line| <= |text|
    ensures text[..pos] + line == text[..pos + |line|]
    ensures text[pos..][|line|..] == text[pos + |line|..]
  {
  }

  /** After a line that is not blank, the header continues with the header of the rest. */
  lemma NextLine(text: string, pos: nat, line: string)
    requires pos <= |text| && line == ReadLine(text[pos..]) && !Blank(line)
    ensures HeaderLen(text[pos..]) == |line| + HeaderLen(text[pos + |line|..])
  {
    ReadOn(text, pos, line);
  }

  /** The module-level loop: read lines and append them until one is blank; end of file
      reads as the blank line "".  `pos` is how far the file object has read. */
  method CopyrightHeader(text: string) returns (header: string)
    ensures header == HeaderOf(text)
  {
    header := "";
    var pos := 0;
    while true
      invariant pos <= |text|
      invariant header == text[..pos]
      invariant HeaderLen(text) == pos + HeaderLen(text[pos..])
      decreases |text| - pos
    {
      var line := ReadLine(text[pos..]);
      if Blank(line) {
        break;
      }
      ReadOn(text, pos, line);
      NextLine(text, pos, line);
      assert HeaderLen(text) == (pos + |line|) + HeaderLen(text[pos + |line|..]);
      header := header + line;
      pos := pos + |line|;
    }
  }

  /** One step of the loop, on the specification: a non-blank first line is followed by the
      header of the rest of the file. */
  lemma HeaderOfStep(text: string)
    requires !Blank(ReadLine(text))
    ensures var line := ReadLine(text);
      HeaderLen(text) == |line| + HeaderLen(text[|line|..]) &&
      HeaderOf(text) == line + HeaderOf(text[|line|..]) &&
      text[HeaderLen(text)..] == text[|line|..][HeaderLen(text[|line|..])..]
  {
    var line := ReadLine(text);
    HeaderLenStep(text);
    PrefixSlices(text, line, HeaderLen(text[|line|..]));
  }

  /** A non-blank first line counts towards the header. */
  lemma HeaderLenStep(text: string)
    requires !Blank(ReadLine(text))
    ensures HeaderLen(text) == |ReadLine(text)| + HeaderLen(text[|ReadLine(text)|..])
  {
  }

  /** Slicing after a prefix `line` of `s`. */
  lemma PrefixSlices(s: string, line: string, n: nat)
    requires line <= s && |line| + n <= |s|
    ensures s[..|line| + n] == line + s[|line|..][..n]
    ensures s[|line| + n..] == s[|line|..][n..]
  {
    assert s[..|line|] == line;
  }

  /** The line that follows the header is blank, or the file ends there: the loop stops at
      the first blank line and not later. */
  lemma {:induction false} HeaderStopsAtBlank(text: string)
    ensures Blank(ReadLine(text[|HeaderOf(text)|..]))
    decreases |text|
  {
    var line := ReadLine(text);
    if !Blank(line) {
      HeaderOfStep(text);
      HeaderStopsAtBlank(text[|line|..]);
    }
  }

  /** The header is exactly the lines of the file that come before the first blank line. */
  lemma {:induction false} HeaderIsLeadingLines(text: string)
    ensures HeaderOf(text) == Concat(TakeNonBlank(ReadLines(text)))
    decreases |text|
  {
    var line := ReadLine(text);
    if |text| == 0 {
    } else if !Blank(line) {
      var rest := text[|line|..];
      HeaderOfStep(text);
      HeaderIsLeadingLines(rest);
      assert ReadLines(text) == [line] + ReadLines(rest);
      assert TakeNonBlank(ReadLines(text)) == [line] + TakeNonBlank(ReadLines(rest));
    } else {
      assert ReadLines(text)[0] == line;
    }
  }

  /** No line of the header is blank. */
  lemma {:induction false} LeadingLinesNonBlank(lines: seq<string>)
    ensures forall k | 0 <= k < |TakeNonBlank(lines)| :: !Blank(TakeNonBlank(lines)[k])
  {
    if |lines| > 0 && !Blank(lines[0]) {
      LeadingLinesNonBlank(lines[1..]);
      assert TakeNonBlank(lines) == [lines[0]] + TakeNonBlank(lines[1..]);
    }
  }
}
