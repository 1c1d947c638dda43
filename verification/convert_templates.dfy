/** convert-templates.py: every backtick-delimited span of a file is turned
    into double-quoted string concatenation.

    A span's content with no newline is converted on one line; content with
    a newline is converted line by line, blank lines are dropped, and the
    surviving lines are joined with ` +` and a fresh indented line. */
module ConvertTemplates {
  import opened Wrappers
  import opened Text
  import opened Rewrite

  /** `"\s*\+\s*""` -> `"`: drops an empty string literal after a plus. */
  const DropEmptyAfter := PlusRule("\"", "\"\"", "\"")
  /** `""\s*\+\s*"` -> `"`: drops an empty string literal before a plus. */
  const DropEmptyBefore := PlusRule("\"\"", "\"", "\"")
  /** `"\s*\+\s*\(` -> `(`, the third multi-line clean-up as written. */
  const TightOpen := PlusRule("\"", "(", "(")
  /** `\)\s*\+\s*"` -> `) + "`. */
  const TightClose := PlusRule(")", "\"", ") + \"")
  /** `""\s*\+\s*\(` -> `(`: the third clean-up as evidently intended,
      removing an empty literal in front of a parenthesised hole. */
  const TightOpenFixed := PlusRule("\"\"", "(", "(")

  /** What joins the converted lines of a multi-line span. */
  const Separator := " +\n        "

  /** Single-line mode: holes spliced, the whole wrapped in quotes, then the
      two empty-literal clean-ups. */
  function SingleLine(c: string): string {
    ApplyRule(DropEmptyBefore, ApplyRule(DropEmptyAfter, "\"" + SubHoles(c) + "\""))
  }

  /** A surviving line of a multi-line span: quoted, with an escaped newline
      (backslash and `n`) before the closing quote. */
  function Part(line: string): string {
    "\"" + line + "\\n\""
  }

  /** Each line with its holes spliced, kept only when something other than
      whitespace is left. */
  function Parts(lines: seq<string>): (parts: seq<string>)
    ensures |parts| <= |lines|
    decreases |lines|
  {
    if lines == [] then []
    else
      var c := SubHoles(lines[0]);
      (if Trim(c) != [] then [Part(c)] else []) + Parts(lines[1..])
  }

  /** The four multi-line clean-ups, in order; `open` is the third one. */
  function CleanupWith(open: PlusRule, s: string): string {
    ApplyRule(TightClose, ApplyRule(open, ApplyRule(DropEmptyBefore, ApplyRule(DropEmptyAfter, s))))
  }

  /** Multi-line mode with a given third clean-up rule. */
  function MultiLineWith(open: PlusRule, lines: seq<string>): string {
    var parts := Parts(lines);
    if parts == [] then "\"\"" else CleanupWith(open, Join(parts, Separator))
  }

  /** Multi-line mode exactly as written. */
  function MultiLineAsWritten(lines: seq<string>): string {
    MultiLineWith(TightOpen, lines)
  }

  /** Multi-line mode with the corrected third clean-up. */
  function MultiLine(lines: seq<string>): string {
    MultiLineWith(TightOpenFixed, lines)
  }

  /** The conversion of one span's content: multi-line exactly when the
      content holds a newline. */
  function ConvertLiteral(c: string): (r: string)
    ensures '\n' in c ==> r == MultiLineAsWritten(Split(c, '\n'))
    ensures '\n' !in c ==> r == SingleLine(c)
  {
    var lines := Split(c, '\n');
    SplitShape(c, '\n');
    if |lines| > 1 then MultiLineAsWritten(lines) else SingleLine(c)
  }

  /** A file seen as code between spans and span contents. */
  datatype Chunk = Code(text: string) | Literal(content: string)

  /** The spans the regular expression `` `([^`]*)` `` (dot matching
      newlines) finds: from each backtick to the next one, scanning left to
      right. The file is cut into code, span, code, ..., code; a backtick
      with no partner stays in the last piece of code. */
  function Parse(s: string): (cs: seq<Chunk>)
    ensures |cs| >= 1 && cs[0].Code?
    decreases |s|
  {
    match FindPair(s, '`')
    case None => [Code(s)]
    case Some(t) => [Code(t.before), Literal(t.inside)] + Parse(t.after)
  }

  /** The file as written, from its pieces. */
  function Source(cs: seq<Chunk>): string
    decreases |cs|
  {
    if cs == [] then []
    else
      match cs[0]
      case Code(t) => t + Source(cs[1..])
      case Literal(c) => "`" + c + "`" + Source(cs[1..])
  }

  /** The file with every span converted and all code kept. */
  function Target(cs: seq<Chunk>): string
    decreases |cs|
  {
    if cs == [] then []
    else
      match cs[0]
      case Code(t) => t + Target(cs[1..])
      case Literal(c) => ConvertLiteral(c) + Target(cs[1..])
  }

  /** `convert_file` without the file reading and writing: a file without
      backticks is left as it is. */
  function ConvertFile(s: string): (r: string)
    ensures '`' !in s ==> r == s
  {
    NoSpansIdle(s);
    Target(Parse(s))
  }

  // ---------------------------------------------------------------------
  // The span scanner

  /** Pieces as the scanner produces them: code and spans alternate, code
      first and last, and no piece holds a backtick. */
  predicate Tidy(cs: seq<Chunk>) {
    && |cs| % 2 == 1
    && (forall i | 0 <= i < |cs| :: cs[i].Code? <==> i % 2 == 0)
    && (forall i | 0 <= i < |cs| ::
          match cs[i]
          case Code(t) => '`' !in t
          case Literal(c) => '`' !in c)
  }

  /** The first span, from a backtick to the next one. */
  lemma ParseSpan(a: string, c: string, b: string)
    requires '`' !in a && '`' !in c
    ensures Parse(a + "`" + c + "`" + b) == [Code(a), Literal(c)] + Parse(b)
  {
    FindPairAt(a, '`', c, b);
  }

  /** Text with at most one backtick is a single piece of code. */
  lemma ParseUnclosed(a: string, c: string)
    requires '`' !in a && '`' !in c
    ensures Parse(a + "`" + c) == [Code(a + "`" + c)]
  {
    FindPairSingle(a, '`', c);
  }

  /** Putting the pieces back together gives the file. */
  lemma {:induction false} SourceParse(s: string)
    ensures Source(Parse(s)) == s
    decreases |s|
  {
    FindPairShape(s, '`');
    match FindPair(s, '`')
    case None =>
      assert Source([Code(s)]) == s + Source([]);
    case Some(t) =>
      SourceParse(t.after);
      SourceTwo(t.before, t.inside, Parse(t.after));
  }

  /** Helper: the source of a code piece and a span in front of more pieces. */
  lemma SourceTwo(a: string, c: string, cs: seq<Chunk>)
    ensures Source([Code(a), Literal(c)] + cs) == a + "`" + c + "`" + Source(cs)
  {
    var xs := [Code(a), Literal(c)] + cs;
    assert xs[1..] == [Literal(c)] + cs;
    assert xs[1..][1..] == cs;
  }

  /** Cutting a file written from tidy pieces gives back those pieces. */
  lemma {:induction false} ParseSource(cs: seq<Chunk>)
    requires Tidy(cs)
    ensures Parse(Source(cs)) == cs
    decreases |cs|
  {
    assert cs[0].Code?;
    var a := cs[0].text;
    assert '`' !in a;
    if |cs| == 1 {
      assert Source(cs) == a + Source([]) == a;
      FindPairAbsent(a, '`');
      assert cs == [Code(a)];
    } else {
      assert cs[1].Literal?;
      var c := cs[1].content;
      assert '`' !in c;
      var rest := cs[2..];
      assert Tidy(rest) by {
        forall i | 0 <= i < |rest| ensures rest[i] == cs[i + 2] { }
      }
      ParseSource(rest);
      assert cs == [Code(a), Literal(c)] + rest;
      SourceTwo(a, c, rest);
      ParseSpan(a, c, Source(rest));
    }
  }

  /** The file conversion converts exactly the spans and copies the code. */
  lemma ConvertFileChunks(cs: seq<Chunk>)
    requires Tidy(cs)
    ensures ConvertFile(Source(cs)) == Target(cs)
  {
    ParseSource(cs);
  }

  /** Helper: a file without backticks is one piece of code, copied. */
  lemma NoSpansIdle(s: string)
    ensures '`' !in s ==> Target(Parse(s)) == s
  {
    if '`' !in s {
      FindPairAbsent(s, '`');
      assert Target([Code(s)]) == s + Target([]);
    }
  }

  /** A file that is one span becomes that span's conversion. */
  lemma ConvertFileSpan(c: string)
    requires '`' !in c
    ensures ConvertFile("`" + c + "`") == ConvertLiteral(c)
  {
    ParseSpan([], c, []);
    SpanAlone(c);
    FindPairAbsent([], '`');
    assert Parse([]) == [Code([])];
    assert Parse("`" + c + "`") == [Code([]), Literal(c), Code([])];
    assert Target([Code([])]) == [];
    assert Target([Code([]), Literal(c), Code([])]) == [] + (ConvertLiteral(c) + []);
    AppendEmpty(ConvertLiteral(c));
  }

  /** Helper: a span alone, with empty code on either side. */
  lemma SpanAlone(c: string)
    ensures [] + "`" + c + "`" + [] == "`" + c + "`"
  {
  }

  // ---------------------------------------------------------------------
  // Single-line mode

  /** Helper: quotes around quote-free, non-empty text make no `""`. */
  lemma QuotedPairFree(c: string)
    requires '"' !in c && c != []
    ensures QuotePairFree("\"" + c + "\"")
  {
    QuoteFreePairFree(c);
    assert c[0] in c && c[|c| - 1] in c;
    QuotePairFreeConcat("\"", c);
    var x := "\"" + c;
    assert x[|x| - 1] == c[|c| - 1];
    QuotePairFreeConcat(x, "\"");
  }

  /** Single-line content without a quote and without a `${` is just
      wrapped in quotes; a lone `$`, as in `cost $5`, is kept. */
  lemma SingleLinePlain(c: string)
    requires '"' !in c && NoOpener(c)
    ensures SingleLine(c) == "\"" + c + "\""
  {
    SubHolesIdle(c);
    var w := "\"" + c + "\"";
    if c == [] {
      assert w == "\"\"";
      ApplyRulePlusFree(DropEmptyAfter, w);
      ApplyRulePlusFree(DropEmptyBefore, w);
    } else {
      QuotedPairFree(c);
      QuotePairRuleIdle(DropEmptyAfter, w);
      QuotePairRuleIdle(DropEmptyBefore, w);
    }
  }

  /** A span holding a single line of plain text becomes that text in
      double quotes. */
  lemma ConvertLiteralPlain(c: string)
    requires '"' !in c && NoOpener(c) && '\n' !in c
    ensures ConvertLiteral(c) == "\"" + c + "\""
  {
    SingleLinePlain(c);
  }

  /** Helper: `"" + (e) + ""` assembled from its tail. */
  lemma LoneHoleText(e: string, mid: string, rest: string, t: string, s: string)
    requires '"' !in e
    requires mid == " + (" + e + ") + " && rest == "(" + e + ") + \"\""
    requires t == " + " + rest && s == "\"" + ("\"" + t)
    ensures s == "\"\" + (" + e + ") + \"\"" && s == "\"\"" + t
    ensures t == mid + "\"\"" && '"' !in mid
  {
  }

  /** Helper: the positions of `"" + rest` that the two empty-literal
      clean-ups look at. */
  lemma LoneHoleSteps(rest: string, t: string, s1: string, s: string)
    requires rest != [] && rest[0] == '('
    requires t == " + " + rest && s1 == "\"" + t && s == "\"" + s1 && s == "\"\"" + t
    ensures StartsWith(s, "\"") && |s| > 1 && s[1] == '"' && s[1..] == s1
    ensures StartsWith(s1, "\"") && s1[1..] == t && !StartsWith(s1, "\"\"")
    ensures StartsWith(s, "\"\"") && s[2..] == t
    ensures !StartsWith(rest, "\"\"") && !StartsWith(rest, "\"")
    ensures s == [s[0]] + ([s1[0]] + t)
  {
    StartsWithConcat("\"", s1);
    StartsWithConcat("\"", t);
    StartsWithConcat("\"\"", t);
    SliceAfter("\"", s1);
    SliceAfter("\"", t);
    SliceAfter("\"\"", t);
  }

  /** Helper: the first clean-up leaves `"" + (e) + ""` alone. */
  lemma DropEmptyAfterLoneHole(e: string)
    requires '"' !in e
    ensures ApplyRule(DropEmptyAfter, "\"\" + (" + e + ") + \"\"") == "\"\" + (" + e + ") + \"\""
  {
    var mid := " + (" + e + ") + ";
    var rest := "(" + e + ") + \"\"";
    var t := " + " + rest;
    var s1 := "\"" + t;
    var s := "\"" + s1;
    LoneHoleText(e, mid, rest, t, s);
    LoneHoleSteps(rest, t, s1, s);
    CopyBlocked(DropEmptyAfter, s);
    CopyUnmatched(DropEmptyAfter, s1, rest);
    LeadSkip(DropEmptyAfter, mid, "\"\"");
    ApplyRulePlusFree(DropEmptyAfter, "\"\"");
  }

  /** Helper: the second clean-up leaves `"" + (e) + ""` alone. */
  lemma DropEmptyBeforeLoneHole(e: string)
    requires '"' !in e
    ensures ApplyRule(DropEmptyBefore, "\"\" + (" + e + ") + \"\"") == "\"\" + (" + e + ") + \"\""
  {
    var mid := " + (" + e + ") + ";
    var rest := "(" + e + ") + \"\"";
    var t := " + " + rest;
    var s1 := "\"" + t;
    var s := "\"" + s1;
    LoneHoleText(e, mid, rest, t, s);
    LoneHoleSteps(rest, t, s1, s);
    CopyUnmatched(DropEmptyBefore, s, rest);
    CopyNoLead(DropEmptyBefore, s1);
    LeadSkip(DropEmptyBefore, mid, "\"\"");
    ApplyRulePlusFree(DropEmptyBefore, "\"\"");
  }

  /** A span that is one hole and nothing else keeps both empty literals:
      neither clean-up fires on `"" + (e) + ""`. */
  lemma SingleLineLoneHole(e: string)
    requires e != [] && '}' !in e && '"' !in e
    ensures SingleLine("${" + e + "}") == "\"\" + (" + e + ") + \"\""
  {
    LoneHoleQuoted(e);
    DropEmptyAfterLoneHole(e);
    DropEmptyBeforeLoneHole(e);
  }

  /** Helper: a lone hole spliced and wrapped in quotes. */
  lemma LoneHoleQuoted(e: string)
    requires e != [] && '}' !in e
    ensures "\"" + SubHoles("${" + e + "}") + "\"" == "\"\" + (" + e + ") + \"\""
  {
    var c := "${" + e + "}";
    AppendEmpty(c);
    SubHolesHole(e, []);
    assert SubHoles([]) == [];
    QuotedSplice(e, SubHoles(c));
  }

  /** Helper: a lone splice wrapped in quotes. */
  lemma QuotedSplice(e: string, x: string)
    requires x == Splice(e) + []
    ensures "\"" + x + "\"" == "\"\" + (" + e + ") + \"\""
  {
  }

  /** The Python tool's result for a span that is one plain hole. */
  lemma ConvertLiteralLoneHole(e: string)
    requires e != [] && Plain(e)
    ensures ConvertLiteral("${" + e + "}") == "\"\" + (" + e + ") + \"\""
  {
    PlainFacts(e);
    assert '\n' !in "${" + e + "}";
    SingleLineLoneHole(e);
  }

  // ---------------------------------------------------------------------
  // Multi-line mode

  /** The surviving parts are the converted lines that are not blank: none
      survives exactly when every converted line is whitespace. */
  lemma {:induction false} PartsEmpty(lines: seq<string>)
    ensures Parts(lines) == [] <==> forall i | 0 <= i < |lines| :: Blank(lines[i])
    decreases |lines|
  {
    if lines != [] {
      var rest := lines[1..];
      PartsEmpty(rest);
      PartsCons(lines);
      assert forall i | 1 <= i < |lines| :: rest[i - 1] == lines[i];
    }
  }

  /** A line is blank when nothing is left of it, once converted, after
      trimming; by `TrimEmpty`, exactly when it is all whitespace. */
  predicate Blank(line: string) {
    Trim(SubHoles(line)) == []
  }

  /** Helper: one step of `Parts`. */
  lemma PartsCons(lines: seq<string>)
    requires lines != []
    ensures Parts(lines) == [] <==> Trim(SubHoles(lines[0])) == [] && Parts(lines[1..]) == []
  {
  }

  /** The part one line contributes: its converted text as a literal, or
      nothing when that text is blank. */
  function LinePart(line: string): seq<string> {
    if Blank(line) then [] else [Part(SubHoles(line))]
  }

  /** Parts are built line by line: one more line at the end adds exactly
      that line's part at the end, in order. */
  lemma {:induction false} PartsSnoc(lines: seq<string>, line: string)
    ensures Parts(lines + [line]) == Parts(lines) + LinePart(line)
    decreases |lines|
  {
    if lines == [] {
      assert [] + [line] == [line];
      PartsHead([line]);
      assert [line][1..] == [];
    } else {
      var all := lines + [line];
      assert all[0] == lines[0];
      assert all[1..] == lines[1..] + [line];
      PartsHead(all);
      PartsHead(lines);
      PartsSnoc(lines[1..], line);
      var h := LinePart(lines[0]);
      assert h + (Parts(lines[1..]) + LinePart(line)) == (h + Parts(lines[1..])) + LinePart(line);
    }
  }

  /** Helper: the first line's part comes first. */
  lemma PartsHead(lines: seq<string>)
    requires lines != []
    ensures Parts(lines) == LinePart(lines[0]) + Parts(lines[1..])
  {
  }

  /** A multi-line span whose lines are all blank once converted gives the
      empty literal `""`. */
  lemma MultiLineAllBlank(open: PlusRule, lines: seq<string>)
    requires forall i | 0 <= i < |lines| :: Blank(lines[i])
    ensures MultiLineWith(open, lines) == "\"\""
  {
    PartsEmpty(lines);
  }

  /** Lines without a raw newline give parts without one. */
  lemma {:induction false} PartsNoNewline(lines: seq<string>)
    requires forall i | 0 <= i < |lines| :: '\n' !in lines[i]
    ensures forall i | 0 <= i < |Parts(lines)| :: '\n' !in Parts(lines)[i]
    decreases |lines|
  {
    if lines != [] {
      assert forall i | 0 <= i < |lines[1..]| :: lines[1..][i] == lines[i + 1];
      PartsNoNewline(lines[1..]);
      SubHolesAvoids(lines[0], '\n');
    }
  }

  /** Joining `n` newline-free parts with the separator puts exactly `n - 1`
      newlines in the text. */
  lemma {:induction false} JoinNewlines(parts: seq<string>)
    requires |parts| >= 1
    requires forall i | 0 <= i < |parts| :: '\n' !in parts[i]
    ensures multiset(Join(parts, Separator))['\n'] == |parts| - 1
    decreases |parts|
  {
    assert multiset(parts[0])['\n'] == 0;
    if |parts| > 1 {
      assert forall i | 0 <= i < |parts[1..]| :: parts[1..][i] == parts[i + 1];
      JoinNewlines(parts[1..]);
      assert multiset(Separator)['\n'] == 1;
      assert Join(parts, Separator) == parts[0] + Separator + Join(parts[1..], Separator);
    }
  }

  /** Before clean-up, a multi-line span holds one separator fewer than it
      has surviving lines. */
  lemma MultiLineSeparators(c: string)
    requires Parts(Split(c, '\n')) != []
    ensures multiset(Join(Parts(Split(c, '\n')), Separator))['\n'] == |Parts(Split(c, '\n'))| - 1
  {
    SplitShape(c, '\n');
    PartsNoNewline(Split(c, '\n'));
    JoinNewlines(Parts(Split(c, '\n')));
  }

  /** Helper: a line and a final newline split into the line and nothing. */
  lemma SplitLastLine(line: string)
    requires '\n' !in line
    ensures Split(line + "\n", '\n') == [line, []]
  {
    IndexOfAfter(line, '\n', []);
    assert line + "\n" == line + ['\n'] + [];
    assert (line + "\n")[..|line|] == line;
    assert (line + "\n")[|line| + 1..] == [];
  }

  /** Helper: a converted line that holds a quote is kept, alone. */
  lemma PartsOneLine(line: string, conv: string)
    requires SubHoles(line) == conv && '"' in conv
    ensures Parts([line, []]) == [Part(conv)]
  {
    TrimEmpty(conv);
    var k :| 0 <= k < |conv| && conv[k] == '"';
    assert !IsSpace(conv[k]);
    var lines: seq<string> := [line, []];
    var last: seq<string> := [[]];
    assert lines[1..] == last;
    assert last[1..] == [];
    assert Trim(SubHoles([])) == [];
  }

  /** The line `a${e}b` of a multi-line span, converted and quoted, is its
      only part. */
  lemma MultiLinePart(a: string, e: string, b: string)
    requires Plain(a) && Plain(e) && Plain(b) && e != []
    ensures Parts(Split(a + "${" + e + "}" + b + "\n", '\n')) == [Part(a + Splice(e) + b)]
  {
    PlainFacts(a);
    PlainFacts(e);
    PlainFacts(b);
    var line := a + "${" + e + "}" + b;
    assert '\n' !in line;
    SplitLastLine(line);
    SubHolesPlainLine(a, e, b);
    var conv := a + Splice(e) + b;
    assert conv[|a|] == '"';
    PartsOneLine(line, conv);
  }

  /** Helper: a span with exactly one surviving part is that part, cleaned up. */
  lemma MultiLineOnePart(open: PlusRule, lines: seq<string>, p: string)
    requires Parts(lines) == [p]
    ensures MultiLineWith(open, lines) == CleanupWith(open, p)
  {
    assert Join([p], Separator) == p;
  }

  /** Helper: the quoted line `"a" + (e) + "b\n"` has no two adjacent quotes. */
  lemma PartQuotePairFree(a: string, e: string, b: string)
    requires '"' !in a && '"' !in e && '"' !in b && a != []
    ensures QuotePairFree(Part(a + Splice(e) + b))
  {
    var x1 := "\"" + a;
    var x2 := x1 + "\" + (";
    var x3 := x2 + e;
    var x4 := x3 + ") + \"";
    var x5 := x4 + b;
    assert QuotePairFree("\"");
    QuoteFreePairFree(a);
    QuotePairFreeConcat("\"", a) by {
      assert a[0] in a;
    }
    assert EndsClear(x1) by {
      assert x1[|x1| - 1] == a[|a| - 1] && a[|a| - 1] in a;
    }
    AppendAfterClear(x1, "\" + (");
    AppendQuoteFree(x2, e);
    AppendAfterClear(x3, ") + \"");
    QuotePairFreeConcat(x4, b) by {
      QuoteFreePairFree(b);
      if b != [] {
        assert b[0] in b;
      }
    }
    QuotePairFreeConcat(x5, "\\n\"");
    PartPieces(a, e, b);
  }

  /** Helper: a converted line `"a" + (e) + "b\n"` spelled out. */
  lemma PartPieces(a: string, e: string, b: string)
    ensures Part(a + Splice(e) + b) == "\"" + a + "\" + (" + e + ") + \"" + b + "\\n\""
  {
  }

  /** Helper: the two empty-literal clean-ups leave a converted plain line alone. */
  lemma DropEmptyIdle(a: string, e: string, b: string)
    requires Plain(a) && Plain(e) && Plain(b) && a != []
    ensures ApplyRule(DropEmptyBefore, ApplyRule(DropEmptyAfter, Part(a + Splice(e) + b)))
         == Part(a + Splice(e) + b)
  {
    PlainFacts(a);
    PlainFacts(e);
    PlainFacts(b);
    PartQuotePairFree(a, e, b);
    QuotePairRuleIdle(DropEmptyAfter, Part(a + Splice(e) + b));
    QuotePairRuleIdle(DropEmptyBefore, Part(a + Splice(e) + b));
  }

  /** Helper: the closing quote of a line's end, with no plus in it. */
  lemma TailNoPlus(b: string)
    requires '+' !in b
    ensures '+' !in "\"" + b + "\\n\""
  {
  }

  /** Helper: how `" + (e) + tail` breaks into the pieces the third rule
      looks at. */
  lemma TightOpenText(e: string, tail: string, w: string, s: string)
    requires w == e + (") + " + tail) && s == "\" + (" + e + ") + " + tail
    ensures StartsWith(s, "\"") && s[1..] == " + " + ("(" + w)
    ensures StartsWith("(" + w, "(") && ("(" + w)[1..] == w
    ensures "(" + e + ") + " + tail == "(" + w
  {
    assert s == "\"" + (" + " + ("(" + w));
    StartsWithConcat("\"", " + " + ("(" + w));
    StartsWithConcat("(", w);
  }

  /** Helper: as written, the third rule fires on `" + (`, keeping the
      parenthesis. */
  lemma TightOpenFires(e: string, tail: string)
    requires '"' !in e && '+' !in tail
    ensures ApplyRule(TightOpen, "\" + (" + e + ") + " + tail) == "(" + e + ") + " + tail
  {
    var w := e + (") + " + tail);
    var s := "\" + (" + e + ") + " + tail;
    TightOpenText(e, tail, w, s);
    ApplyRuleSpaced(TightOpen, s, "(" + w);
    LeadSkip(TightOpen, e, ") + " + tail);
    LeadSkip(TightOpen, ") + ", tail);
    ApplyRulePlusFree(TightOpen, tail);
  }

  /** Helper: how a converted plain line `"a" + (e) + "b\n"` breaks into the
      pieces the third rule looks at. */
  lemma PartText(a: string, e: string, b: string, tail: string, u: string, p: string)
    requires Plain(a) && a != []
    requires tail == "\"" + b + "\\n\"" && u == "\" + (" + e + ") + " + tail
    requires p == Part(a + Splice(e) + b)
    ensures StartsWith(p, "\"") && |p| > 1 && !IsSpace(p[1]) && p[1] != '+'
    ensures p[1..] == a + u
    ensures [p[0]] + (a + ("(" + e + ") + " + tail)) == "\"" + a + "(" + e + ") + \"" + b + "\\n\""
  {
    PartSplit(a, e, b, tail, u);
    PartHead(a, u, p);
    PlainFacts(a);
    assert PlainChar(a[0]);
    SwallowSpelled(a, e, b, tail);
  }

  /** Helper: a converted line is a quote, the text before the hole, and the
      rest `u`. */
  lemma PartSplit(a: string, e: string, b: string, tail: string, u: string)
    requires tail == "\"" + b + "\\n\"" && u == "\" + (" + e + ") + " + tail
    ensures Part(a + Splice(e) + b) == "\"" + (a + u)
  {
  }

  /** Helper: the head and tail of `"` followed by a non-empty `a` and `u`. */
  lemma PartHead(a: string, u: string, p: string)
    requires a != [] && p == "\"" + (a + u)
    ensures StartsWith(p, "\"") && |p| > 1 && p[0] == '"' && p[1] == a[0] && p[1..] == a + u
  {
    StartsWithConcat("\"", a + u);
  }

  /** Helper: the line with the parenthesis swallowed, spelled out. */
  lemma SwallowSpelled(a: string, e: string, b: string, tail: string)
    requires tail == "\"" + b + "\\n\""
    ensures ['"'] + (a + ("(" + e + ") + " + tail)) == "\"" + a + "(" + e + ") + \"" + b + "\\n\""
  {
  }

  /** Helper: the third rule as written on a converted plain line: the
      string literal before the hole swallows its parenthesis. */
  lemma TightOpenOnPart(a: string, e: string, b: string)
    requires Plain(a) && Plain(e) && Plain(b) && a != []
    ensures ApplyRule(TightOpen, Part(a + Splice(e) + b)) == "\"" + a + "(" + e + ") + \"" + b + "\\n\""
  {
    PlainFacts(a);
    PlainFacts(e);
    PlainFacts(b);
    TailNoPlus(b);
    var tail := "\"" + b + "\\n\"";
    var u := "\" + (" + e + ") + " + tail;
    var p := Part(a + Splice(e) + b);
    PartText(a, e, b, tail, u, p);
    CopyBlocked(TightOpen, p);
    LeadSkip(TightOpen, a, u);
    TightOpenFires(e, tail);
  }

  /** Helper: how `) + "b\n"` breaks into the pieces the fourth rule looks at. */
  lemma TightCloseText(b: string, v: string, rest: string)
    requires v == ") + \"" + b + "\\n\"" && rest == "\"" + b + "\\n\""
    ensures StartsWith(v, ")") && v[1..] == " + " + rest
    ensures StartsWith(rest, "\"") && rest[0] == '"' && rest[1..] == b + "\\n\""
    ensures v == ") + \"" + (b + "\\n\"")
  {
    assert v == ")" + (" + " + rest);
    StartsWithConcat(")", " + " + rest);
    StartsWithConcat("\"", b + "\\n\"");
  }

  /** Helper: the fourth rule rewrites `) + "` to itself. */
  lemma TightCloseFires(b: string)
    requires '+' !in b
    ensures ApplyRule(TightClose, ") + \"" + b + "\\n\"") == ") + \"" + b + "\\n\""
  {
    var v := ") + \"" + b + "\\n\"";
    var rest := "\"" + b + "\\n\"";
    TightCloseText(b, v, rest);
    ApplyRuleSpaced(TightClose, v, rest);
    ApplyRulePlusFree(TightClose, b + "\\n\"");
  }

  /** Helper: the fourth rule on text whose only `)` starts `) + "b\n"`. */
  lemma TightCloseOn(x: string, b: string)
    requires ')' !in x && '+' !in b
    ensures ApplyRule(TightClose, x + ") + \"" + b + "\\n\"") == x + ") + \"" + b + "\\n\""
  {
    Regroup(x, ") + \"" + b, "\\n\"");
    assert x + ") + \"" + b == x + (") + \"" + b);
    LeadSkip(TightClose, x, ") + \"" + b + "\\n\"");
    TightCloseFires(b);
  }

  /** The third clean-up as written moves the opening parenthesis of a hole
      inside the preceding string literal: on a multi-line span, `a${e}b`
      comes out as `"a(e) + "b\n"`. */
  lemma MultiLineTightOpen(a: string, e: string, b: string)
    requires Plain(a) && Plain(e) && Plain(b) && a != [] && e != []
    ensures MultiLineAsWritten(Split(a + "${" + e + "}" + b + "\n", '\n'))
         == "\"" + a + "(" + e + ") + \"" + b + "\\n\""
  {
    PlainFacts(a);
    PlainFacts(e);
    PlainFacts(b);
    var p := Part(a + Splice(e) + b);
    MultiLinePart(a, e, b);
    MultiLineOnePart(TightOpen, Split(a + "${" + e + "}" + b + "\n", '\n'), p);
    DropEmptyIdle(a, e, b);
    TightOpenOnPart(a, e, b);
    assert "\"" + a + "(" + e + ") + \"" + b + "\\n\"" == ("\"" + a + "(" + e) + ") + \"" + b + "\\n\"";
    assert ')' !in "\"" + a + "(" + e;
    TightCloseOn("\"" + a + "(" + e, b);
  }

  /** With the corrected third clean-up, `a${e}b` on a multi-line span keeps
      the hole as a parenthesised expression between two string literals:
      `"a" + (e) + "b\n"`. */
  lemma MultiLineKeepsHole(a: string, e: string, b: string)
    requires Plain(a) && Plain(e) && Plain(b) && a != [] && e != []
    ensures MultiLine(Split(a + "${" + e + "}" + b + "\n", '\n')) == Part(a + Splice(e) + b)
  {
    PlainFacts(a);
    PlainFacts(e);
    PlainFacts(b);
    var p := Part(a + Splice(e) + b);
    MultiLinePart(a, e, b);
    MultiLineOnePart(TightOpenFixed, Split(a + "${" + e + "}" + b + "\n", '\n'), p);
    DropEmptyIdle(a, e, b);
    PartQuotePairFree(a, e, b);
    QuotePairRuleIdle(TightOpenFixed, p);
    var x := "\"" + a + "\" + (" + e;
    PartSpelled(a, e, b, x);
    TightCloseOn(x, b);
  }

  /** Helper: a converted line `"a" + (e) + "b\n"` spelled out up to its
      closing parenthesis. */
  lemma PartSpelled(a: string, e: string, b: string, x: string)
    requires ')' !in a && ')' !in e && x == "\"" + a + "\" + (" + e
    ensures Part(a + Splice(e) + b) == x + ") + \"" + b + "\\n\"" && ')' !in x
  {
  }

  /** Whether position `i` of `s` lies inside a double-quoted literal: an odd
      number of quotes comes before it. */
  predicate InsideString(s: string, i: nat)
    requires i <= |s|
  {
    multiset(s[..i])['"'] % 2 == 1
  }

  /** Helper: in `"a(e) + "b\n"` with a quote-free `a`, the expression
      starts inside the first string literal. */
  lemma SwallowedText(a: string, e: string, b: string, r: string)
    requires '"' !in a && r == "\"" + a + "(" + e + ") + \"" + b + "\\n\""
    ensures 2 + |a| + |e| <= |r| && r[2 + |a|..2 + |a| + |e|] == e && InsideString(r, 2 + |a|)
  {
    var p := "\"" + a + "(";
    assert r == p + e + (") + \"" + b + "\\n\"");
    SliceMid(p, e, ") + \"" + b + "\\n\"");
    assert multiset(a)['"'] == 0;
    assert multiset(p)['"'] == 1;
  }

  /** As written, the hole's expression of `a${e}b` ends up inside a string
      literal, so it is no longer evaluated. */
  lemma TightOpenSwallowsHole(a: string, e: string, b: string)
    requires Plain(a) && Plain(e) && Plain(b) && a != [] && e != []
    ensures var r := MultiLineAsWritten(Split(a + "${" + e + "}" + b + "\n", '\n'));
            2 + |a| + |e| <= |r| && r[2 + |a|..2 + |a| + |e|] == e && InsideString(r, 2 + |a|)
  {
    PlainFacts(a);
    MultiLineTightOpen(a, e, b);
    SwallowedText(a, e, b, "\"" + a + "(" + e + ") + \"" + b + "\\n\"");
  }

  /** The file-level converter, as written, swallows a hole on a
      multi-line span: the template literal `` `a${e}b<newline>` `` becomes
      `"a(e) + "b\n"`, the expression inside the first string literal. */
  lemma ConvertFileSwallowsHole(a: string, e: string, b: string)
    requires Plain(a) && Plain(e) && Plain(b) && a != [] && e != []
    ensures ConvertFile("`" + (a + "${" + e + "}" + b + "\n") + "`")
         == "\"" + a + "(" + e + ") + \"" + b + "\\n\""
  {
    var c := a + "${" + e + "}" + b + "\n";
    PlainMore(a);
    PlainMore(e);
    PlainMore(b);
    assert '`' !in c;
    assert c[|c| - 1] == '\n';
    ConvertFileSpan(c);
    MultiLineTightOpen(a, e, b);
  }

  /** Helper: in `"a" + (e) + "b\n"` with a quote-free `a`, the expression
      lies outside the string literals. */
  lemma KeptText(a: string, e: string, b: string, r: string)
    requires '"' !in a && r == Part(a + Splice(e) + b)
    ensures 6 + |a| + |e| <= |r| && r[6 + |a|..6 + |a| + |e|] == e && !InsideString(r, 6 + |a|)
  {
    var p := "\"" + a + "\" + (";
    assert r == p + e + (") + \"" + b + "\\n\"");
    SliceMid(p, e, ") + \"" + b + "\\n\"");
    assert multiset(a)['"'] == 0;
    assert multiset(p)['"'] == 2;
  }

  /** Corrected, the expression of `a${e}b` sits outside every string
      literal. */
  lemma TightOpenFixedKeepsHole(a: string, e: string, b: string)
    requires Plain(a) && Plain(e) && Plain(b) && a != [] && e != []
    ensures var r := MultiLine(Split(a + "${" + e + "}" + b + "\n", '\n'));
            6 + |a| + |e| <= |r| && r[6 + |a|..6 + |a| + |e|] == e && !InsideString(r, 6 + |a|)
  {
    PlainFacts(a);
    MultiLineKeepsHole(a, e, b);
    KeptText(a, e, b, Part(a + Splice(e) + b));
  }
}
