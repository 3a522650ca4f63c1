/** `write_tmpl`: the body of a generated table, one quoted name per line in `sorted()` order,
    the file text `GENERATED_TMPL` wraps around it, and a reader that takes both back apart. */
module Table {
  import opened Wrappers
  import opened PyStr

  /** `m` is the least element of `s` under Python's string order. */
  predicate IsLeast(m: string, s: set<string>) {
    m in s && forall y | y in s && y != m :: Less(m, y)
  }

  lemma {:induction false} LeastExists(s: set<string>)
    requires s != {}
    ensures exists m :: IsLeast(m, s)
    decreases |s|
  {
    var x :| x in s;
    if s != {x} {
      LeastExists(s - {x});
      var m :| IsLeast(m, s - {x});
      if Less(x, m) {
        forall y | y in s && y != x ensures Less(x, y) {
          if y != m { LessTransitive(x, m, y); }
        }
        assert IsLeast(x, s);
      } else {
        LessTotal(x, m);
        assert IsLeast(m, s);
      }
    } else {
      assert IsLeast(x, s);
    }
  }

  lemma LeastUnique(s: set<string>)
    ensures forall m1, m2 | IsLeast(m1, s) && IsLeast(m2, s) :: m1 == m2
  {
    forall m1, m2 | IsLeast(m1, s) && IsLeast(m2, s) ensures m1 == m2 {
      if m1 != m2 { LessAsymmetric(m1, m2); }
    }
  }

  /** The least element of a non-empty set, as `sorted()` puts it first. */
  function Min(s: set<string>): (m: string)
    requires s != {}
    ensures IsLeast(m, s)
  {
    LeastExists(s);
    LeastUnique(s);
    var m :| IsLeast(m, s);
    m
  }

  /** `sorted(data)` for a set of strings. */
  function SortedNames(s: set<string>): seq<string>
    decreases |s|
  {
    if s == {} then [] else
      var m := Min(s);
      [m] + SortedNames(s - {m})
  }

  /** Strictly ascending under Python's string order: sorted and free of repeats. */
  predicate Ascending(ns: seq<string>) {
    forall i, j | 0 <= i < j < |ns| :: Less(ns[i], ns[j])
  }

  /** `sorted(data)` lists every element of the set exactly once, in strictly ascending order. */
  lemma {:induction false} SortedNamesCorrect(s: set<string>)
    ensures |SortedNames(s)| == |s|
    ensures forall n :: n in SortedNames(s) <==> n in s
    ensures Ascending(SortedNames(s))
    decreases |s|
  {
    if s != {} {
      var m := Min(s);
      var rest := SortedNames(s - {m});
      SortedNamesCorrect(s - {m});
      assert SortedNames(s) == [m] + rest;
      forall i, j | 0 <= i < j < |[m] + rest| ensures Less(([m] + rest)[i], ([m] + rest)[j]) {
        if i == 0 {
          assert ([m] + rest)[j] == rest[j - 1];
          assert rest[j - 1] in s - {m};
        }
      }
    }
  }

  /** An ascending sequence holds no element twice. */
  lemma AscendingDistinct(ns: seq<string>)
    requires Ascending(ns)
    ensures forall i, j | 0 <= i < j < |ns| :: ns[i] != ns[j]
  {
    forall i, j | 0 <= i < j < |ns| ensures ns[i] != ns[j] {
      LessIrreflexive(ns[i]);
    }
  }

  /** Two ascending sequences with the same elements are equal: `sorted()` has only one
      possible answer. */
  lemma {:induction false} AscendingUnique(a: seq<string>, b: seq<string>)
    requires Ascending(a) && Ascending(b)
    requires forall n :: n in a <==> n in b
    ensures a == b
  {
    assert |a| > 0 ==> a[0] in b;
    assert |b| > 0 ==> b[0] in a;
    if |a| > 0 && |b| > 0 {
      if a[0] != b[0] {
        assert a[0] in b;
        assert b[0] in a;
        var i :| 0 <= i < |b| && b[i] == a[0];
        var j :| 0 <= j < |a| && a[j] == b[0];
        assert i > 0 && j > 0;
        LessAsymmetric(a[0], b[0]);
        assert false;
      }
      forall n ensures n in a[1..] <==> n in b[1..] {
        if n in a[1..] {
          var k :| 1 <= k < |a| && a[k] == n;
          LessIrreflexive(a[0]);
          assert a[k] in a;
          var i :| 0 <= i < |b| && b[i] == n;
          assert i != 0;
          assert b[1..][i - 1] == n;
        }
        if n in b[1..] {
          var k :| 1 <= k < |b| && b[k] == n;
          LessIrreflexive(b[0]);
          assert b[k] in b;
          var i :| 0 <= i < |a| && a[i] == n;
          assert i != 0;
          assert a[1..][i - 1] == n;
        }
      }
      AscendingUnique(a[1..], b[1..]);
      assert a == [a[0]] + a[1..] && b == [b[0]] + b[1..];
    }
  }

  /** The eight spaces in front of every table line. */
  const Indent: string := "        "

  /** What comes before and after the name on a table line. */
  const Open: string := Indent + "\""
  const Close: string := "\",\n"

  /** `f'        "{s}",\n'` */
  function Line(name: string): string {
    Open + name + Close
  }

  /** `"".join(Line(s) for s in names)`. */
  function LinesOf(names: seq<string>): string {
    if |names| == 0 then "" else Line(names[0]) + LinesOf(names[1..])
  }

  /** The `lines` text `write_tmpl` substitutes into the template. */
  function RenderLines(data: set<string>): string {
    LinesOf(SortedNames(data))
  }

  /** Reads a table body back: lines of the form `        "name",\n` until the text ends. */
  function ParseLines(text: string): (r: Option<seq<string>>)
    decreases |text|
  {
    if |text| == 0 then Some([])
    else if !StartsWith(text, Open) then None
    else
      var body := text[|Open|..];
      match IndexOf(body, '"')
      case None => None
      case Some(k) =>
        if StartsWith(body[k..], Close) then
          match ParseLines(body[k + |Close|..])
          case None => None
          case Some(rest) => Some([body[..k]] + rest)
        else None
  }

  /** A line starts with the indent and the opening quote, followed by the name. */
  lemma LineSplits(n: string, rest: string)
    ensures StartsWith(Line(n) + rest, Open)
    ensures (Line(n) + rest)[|Open|..] == n + Close + rest
  {
    assert Line(n) + rest == Open + (n + Close + rest);
  }

  /** In a quote-free name followed by the closing quote, the first quote is the closing one. */
  lemma FirstQuote(n: string, rest: string)
    requires '"' !in n
    ensures var body := n + Close + rest;
      IndexOf(body, '"') == Some(|n|) && body[..|n|] == n &&
      StartsWith(body[|n|..], Close) && body[|n| + |Close|..] == rest
  {
    var body := n + Close + rest;
    assert Close[0] == '"';
    assert body[..|n|] == n;
    assert body[|n|] == '"';
    assert body[|n|..] == Close + rest;
  }

  /** One line written for a name without a quote reads back as that name. */
  lemma ParseLine(n: string, rest: string)
    requires '"' !in n
    ensures ParseLines(Line(n) + rest) ==
      match ParseLines(rest)
      case None => None
      case Some(ns) => Some([n] + ns)
  {
    LineSplits(n, rest);
    FirstQuote(n, rest);
    var text := Line(n) + rest;
    var body := text[|Open|..];
    assert body == n + Close + rest;
    assert ParseLines(text) ==
      match ParseLines(body[|n| + |Close|..])
      case None => None
      case Some(ns) => Some([body[..|n|]] + ns);
  }

  /** Reading the lines back gives the names in the order they were written. */
  lemma {:induction false} ParseLinesOf(names: seq<string>)
    requires forall i | 0 <= i < |names| :: '"' !in names[i]
    ensures ParseLines(LinesOf(names)) == Some(names)
  {
    if |names| > 0 {
      ParseLinesOf(names[1..]);
      ParseLine(names[0], LinesOf(names[1..]));
      assert names == [names[0]] + names[1..];
    }
  }

  /** The rendered table holds one well-formed line per distinct name, in strictly ascending
      order, and reading it back yields exactly the original set. */
  lemma RenderLinesRoundTrip(data: set<string>)
    requires forall n | n in data :: '"' !in n
    ensures ParseLines(RenderLines(data)).Some?
    ensures var ns := ParseLines(RenderLines(data)).value;
      |ns| == |data| && Ascending(ns) && (forall n :: n in ns <==> n in data)
  {
    SortedNamesCorrect(data);
    var ns := SortedNames(data);
    forall i | 0 <= i < |ns| ensures '"' !in ns[i] {
      assert ns[i] in data;
    }
    ParseLinesOf(ns);
  }

  /** The part of `GENERATED_TMPL` between the copyright header and the lines. */
  const TemplateHead: string := "\n# Generated by stdlibs/fetch.py\n\nmodule_names = frozenset(\n    [\n"

  /** The part of `GENERATED_TMPL` after the lines. */
  const TemplateTail: string := "    ]\n)\n"

  /** The text `write_tmpl` writes for `data` below the copyright header `header`. */
  function Generated(header: string, data: set<string>): string {
    header + TemplateHead + RenderLines(data) + TemplateTail
  }

  /** Reads a generated file back: the names between the fixed parts of the template, or
      `None` when the text does not have the template's shape. */
  function ReadGenerated(header: string, text: string): Option<seq<string>> {
    var head := header + TemplateHead;
    if |head| + |TemplateTail| <= |text| && StartsWith(text, head) && EndsWith(text, TemplateTail) then
      ParseLines(text[|head|..|text| - |TemplateTail|])
    else None
  }

  /** The file written for `data` reads back as its names, each once, in ascending order. */
  lemma GeneratedRoundTrip(header: string, data: set<string>)
    requires forall n | n in data :: '"' !in n
    ensures ReadGenerated(header, Generated(header, data)).Some?
    ensures var ns := ReadGenerated(header, Generated(header, data)).value;
      |ns| == |data| && Ascending(ns) && (forall n :: n in ns <==> n in data)
  {
    var head := header + TemplateHead;
    var body := RenderLines(data);
    var text := Generated(header, data);
    assert text == head + body + TemplateTail;
    assert text[..|head|] == head;
    assert text[|text| - |TemplateTail|..] == TemplateTail;
    assert text[|head|..|text| - |TemplateTail|] == body;
    RenderLinesRoundTrip(data);
  }

  /** Each rendered line ends in a newline, so the body of a table with `k` names
      (none holding a newline) has exactly `k` lines. */
  function CountNewlines(s: string): nat {
    if |s| == 0 then 0 else (if s[0] == '\n' then 1 else 0) + CountNewlines(s[1..])
  }

  lemma {:induction false} CountNewlinesAppend(a: string, b: string)
    ensures CountNewlines(a + b) == CountNewlines(a) + CountNewlines(b)
  {
    if |a| > 0 {
      assert (a + b)[1..] == a[1..] + b;
      CountNewlinesAppend(a[1..], b);
    } else {
      assert a + b == b;
    }
  }

  lemma {:induction false} CountNewlinesFree(s: string)
    requires '\n' !in s
    ensures CountNewlines(s) == 0
  {
    if |s| > 0 {
      assert s[0] != '\n';
      CountNewlinesFree(s[1..]);
    }
  }

  lemma {:induction false} LinesOfCount(names: seq<string>)
    requires forall i | 0 <= i < |names| :: '\n' !in names[i]
    ensures CountNewlines(LinesOf(names)) == |names|
  {
    if |names| > 0 {
      var n := names[0];
      CountNewlinesAppend(Open + n, Close);
      CountNewlinesAppend(Open, n);
      CountNewlinesFree(Open);
      CountNewlinesFree(n);
      assert CountNewlines(Close) == 1;
      CountNewlinesAppend(Line(n), LinesOf(names[1..]));
      LinesOfCount(names[1..]);
    }
  }

  /** The table body has one line per distinct name. */
  lemma RenderLinesCount(data: set<string>)
    requires forall n | n in data :: '\n' !in n
    ensures CountNewlines(RenderLines(data)) == |data|
  {
    SortedNamesCorrect(data);
    var ns := SortedNames(data);
    forall i | 0 <= i < |ns| ensures '\n' !in ns[i] {
      assert ns[i] in data;
    }
    LinesOfCount(ns);
  }
}
