/** fix-backticks.js: template literals rewritten by two passes of regular
    expressions. The first pass converts every span whose text holds a hole
    and puts the result in place of the first remaining occurrence of the
    span; the second pass turns every remaining span without a `$` into a
    double-quoted string. */
module FixBackticks {
  import opened Wrappers
  import opened Text
  import opened Rewrite

  // ---------------------------------------------------------------------
  // The first pass

  /** Whether `c` holds `${` with a `}` somewhere after it: the middle part
      `\$\{[^`]*\}` of the first pass's pattern, inside a span that holds no
      backtick. */
  function HasHole(c: string): bool
    decreases |c|
  {
    if |c| < 2 then false
    else if c[0] == '$' && c[1] == '{' then '}' in c[2..]
    else HasHole(c[1..])
  }

  /** `${` at `k` and a `}` at `m` after it. */
  predicate HoleAt(c: string, k: nat, m: nat) {
    k + 2 <= m < |c| && c[k] == '$' && c[k + 1] == '{' && c[m] == '}'
  }

  /** The spans the first pass's pattern `` `([^`]*\$\{[^`]*\}[^`]*)` ``
      finds, scanning left to right: from a backtick to the next backtick
      when the text between them has a hole. After a match the scan goes on
      after the closing backtick; otherwise it goes on one character later,
      so the closing backtick of a skipped span can open the next one. */
  function Templates(t: string): seq<string>
    decreases |t|
  {
    if t == [] then []
    else if t[0] == '`' then
      match CutAt(t[1..], '`')
      case Some(h) =>
        if HasHole(h.before) then [h.before] + Templates(h.after) else Templates(t[1..])
      case None => Templates(t[1..])
    else Templates(t[1..])
  }

  /** Whether `s` ends with `p` (a pattern anchored with `$`). */
  predicate EndsWith(s: string, p: string) {
    |p| <= |s| && s[|s| - |p|..] == p
  }

  /** The pattern of the first clean-up, `" + "" + "`. */
  const Collapse := "\" + \"\" + \""

  /** The conversion of one span's text: holes spliced, the newline step
      (which replaces backslash and `n` by themselves), double quotes
      around, `" + "" + "` collapsed to `" + "`, then the ends trimmed. */
  function ConvertInner(c: string): string {
    var spliced := ReplaceAll(SubHoles(c), "\\n", "\\n");
    StripEnds(ReplaceAll("\"" + spliced + "\"", Collapse, "\" + \""))
  }

  /** The last two clean-ups: a leading `"" + ` and a trailing ` + ""`
      removed. */
  function StripEnds(q: string): string {
    var front := if StartsWith(q, "\"\" + ") then q[5..] else q;
    if EndsWith(front, " + \"\"") then front[..|front| - 5] else front
  }

  /** The replacement text of `String.prototype.replace` for one match,
      with its `$` patterns expanded: `$$` is a dollar sign, `$&` the
      matched text, `` $` `` the text before it and `$'` the text after it;
      any other `$` stands for itself. */
  function Expand(rep: string, before: string, matched: string, after: string): string
    decreases |rep|
  {
    if rep == [] then []
    else if rep[0] == '$' && |rep| > 1 && rep[1] in "$&`'" then
      var piece :=
        if rep[1] == '$' then "$"
        else if rep[1] == '&' then matched
        else if rep[1] == '`' then before
        else after;
      piece + Expand(rep[2..], before, matched, after)
    else
      [rep[0]] + Expand(rep[1..], before, matched, after)
  }

  /** `s.replace(pat, rep)` with a text pattern: only the first occurrence
      is replaced. With `expand` the replacement's `$` patterns are
      expanded, as JavaScript does; without it the replacement is taken
      literally, as the conversion intends. */
  function ReplaceFirst(s: string, pat: string, rep: string, expand: bool): string {
    match FindSub(s, pat)
    case None => s
    case Some(k) =>
      var before := s[..k];
      var after := s[k + |pat|..];
      before + (if expand then Expand(rep, before, pat, after) else rep) + after
  }

  /** The first pass's loop body for each span found in the original
      content, in order, applied to the accumulating result. */
  function ApplyAll(expand: bool, result: string, spans: seq<string>): string
    decreases |spans|
  {
    if spans == [] then result
    else
      var c := spans[0];
      ApplyAll(expand, ReplaceFirst(result, "`" + c + "`", ConvertInner(c), expand), spans[1..])
  }

  // ---------------------------------------------------------------------
  // The second pass and the whole conversion

  /** The second pass, `` `([^`$]*)` `` -> `"$1"` (global): a span with no
      `$` becomes a double-quoted string with the same text. */
  function Plainify(t: string): string
    decreases |t|
  {
    if t == [] then []
    else if t[0] == '`' then
      match CutAt(t[1..], '`')
      case Some(h) =>
        if '$' !in h.before then "\"" + h.before + "\"" + Plainify(h.after)
        else [t[0]] + Plainify(t[1..])
      case None => [t[0]] + Plainify(t[1..])
    else [t[0]] + Plainify(t[1..])
  }

  /** `convertTemplateLiterals` with either kind of replacement. */
  function ConvertWith(expand: bool, content: string): (r: string)
    ensures '`' !in content ==> r == content
  {
    NoSpansIdle(expand, content);
    Plainify(ApplyAll(expand, content, Templates(content)))
  }

  /** `convertTemplateLiterals` exactly as written: content without a
      backtick comes back as it is. */
  function ConvertAsWritten(content: string): (r: string)
    ensures '`' !in content ==> r == content
  {
    ConvertWith(true, content)
  }

  /** `convertTemplateLiterals` with the converted text put in literally:
      content without a backtick comes back as it is. */
  function Convert(content: string): (r: string)
    ensures '`' !in content ==> r == content
  {
    ConvertWith(false, content)
  }

  /** Helper: without a backtick neither pass finds anything to replace. */
  lemma NoSpansIdle(expand: bool, content: string)
    ensures '`' !in content ==> Plainify(ApplyAll(expand, content, Templates(content))) == content
  {
    if '`' !in content {
      TemplatesSkip(content, []);
      AppendEmpty(content);
      PlainifyIdle(content);
    }
  }

  // ---------------------------------------------------------------------
  // The first pass's promises

  /** `HasHole` holds exactly when some `${` has a `}` after it. */
  lemma {:induction false} HasHoleIff(c: string)
    ensures HasHole(c) <==> exists k: nat, m: nat :: HoleAt(c, k, m)
    decreases |c|
  {
    if |c| >= 2 {
      if c[0] == '$' && c[1] == '{' {
        if '}' in c[2..] {
          var j :| 0 <= j < |c[2..]| && c[2..][j] == '}';
          assert HoleAt(c, 0, j + 2);
        }
        if k: nat, m: nat :| HoleAt(c, k, m) {
          assert c[2..][m - 2] == '}';
        }
      } else {
        HasHoleIff(c[1..]);
        if k: nat, m: nat :| HoleAt(c[1..], k, m) {
          assert HoleAt(c, k + 1, m + 1);
        }
        if k: nat, m: nat :| HoleAt(c, k, m) {
          assert k != 0;
          assert HoleAt(c[1..], k - 1, m - 1);
        }
      }
    } else if k: nat, m: nat :| HoleAt(c, k, m) {
      assert false;
    }
  }

  /** Text without a backtick starts no span. */
  lemma {:induction false} TemplatesSkip(a: string, rest: string)
    requires '`' !in a
    ensures Templates(a + rest) == Templates(rest)
    decreases |a|
  {
    if a != [] {
      assert a[0] in a;
      Uncons(a, rest);
      assert '`' !in a[1..] by {
        assert forall c | c in a[1..] :: c in a;
      }
      TemplatesSkip(a[1..], rest);
    } else {
      AppendEmpty(rest);
    }
  }

  /** Helper: a span in backticks followed by more text. */
  lemma SpanText(c: string, b: string, t: string)
    requires t == "`" + c + "`" + b
    ensures t != [] && t[0] == '`' && t[1..] == c + ['`'] + b
  {
  }

  /** A span whose text has a hole is found, and the scan resumes after it. */
  lemma TemplatesSpan(c: string, b: string)
    requires '`' !in c && HasHole(c)
    ensures Templates("`" + c + "`" + b) == [c] + Templates(b)
  {
    SpanText(c, b, "`" + c + "`" + b);
    CutAtFirst(c, '`', b);
  }

  /** A span without a hole is skipped, and the scan resumes at its closing
      backtick, which may then open a span of its own. */
  lemma TemplatesNoHole(c: string, b: string)
    requires '`' !in c && !HasHole(c)
    ensures Templates("`" + c + "`" + b) == Templates("`" + b)
  {
    var t := "`" + c + "`" + b;
    SpanText(c, b, t);
    CutAtFirst(c, '`', b);
    TemplatesSkip(c, ['`'] + b);
    Regroup(c, ['`'], b);
  }

  /** Every span found holds no backtick and has a hole. */
  lemma {:induction false} TemplatesShape(t: string)
    ensures forall i | 0 <= i < |Templates(t)| :: '`' !in Templates(t)[i] && HasHole(Templates(t)[i])
    decreases |t|
  {
    if t != [] {
      TemplatesShape(t[1..]);
      if t[0] == '`' {
        CutAtShape(t[1..], '`');
        match CutAt(t[1..], '`')
        case Some(h) =>
          TemplatesShape(h.after);
        case None =>
      }
    }
  }

  // ---------------------------------------------------------------------
  // Replacing the first occurrence

  /** A replacement without a `$` is put in literally even when expanded. */
  lemma {:induction false} ExpandLiteral(rep: string, before: string, matched: string, after: string)
    requires '$' !in rep
    ensures Expand(rep, before, matched, after) == rep
    decreases |rep|
  {
    if rep != [] {
      assert rep[0] in rep;
      assert '$' !in rep[1..] by {
        assert forall c | c in rep[1..] :: c in rep;
      }
      ExpandLiteral(rep[1..], before, matched, after);
      assert [rep[0]] + rep[1..] == rep;
    }
  }

  /** Without a `$` in the replacement, JavaScript's replace and the
      literal one agree. */
  lemma ReplaceFirstAgree(s: string, pat: string, rep: string)
    requires '$' !in rep
    ensures ReplaceFirst(s, pat, rep, true) == ReplaceFirst(s, pat, rep, false)
  {
    match FindSub(s, pat)
    case None =>
    case Some(k) =>
      ExpandLiteral(rep, s[..k], pat, s[k + |pat|..]);
  }

  /** The literal replace changes exactly the first occurrence of the
      pattern: the text before it and after it is kept. */
  lemma ReplaceFirstAt(s: string, pat: string, rep: string, k: nat)
    requires At(s, pat, k) && forall j | 0 <= j < k :: !At(s, pat, j)
    ensures k + |pat| <= |s| && s == s[..k] + pat + s[k + |pat|..]
    ensures ReplaceFirst(s, pat, rep, false) == s[..k] + rep + s[k + |pat|..]
  {
    assert FindSub(s, pat) == Some(k);
    StartsWithSlice(s[k..], pat);
    SliceOfSuffix(s, k, |pat|);
    assert s == s[..k] + s[k..k + |pat|] + s[k + |pat|..];
  }

  /** A text with no occurrence of the pattern is left alone. */
  lemma ReplaceFirstAbsent(s: string, pat: string, rep: string, expand: bool)
    requires !Occurs(pat, s)
    ensures ReplaceFirst(s, pat, rep, expand) == s
  {
  }

  // ---------------------------------------------------------------------
  // The second pass's promises

  /** Outside spans, text without a backtick is copied. */
  lemma {:induction false} PlainifySkip(a: string, rest: string)
    requires '`' !in a
    ensures Plainify(a + rest) == a + Plainify(rest)
    decreases |a|
  {
    if a != [] {
      assert a[0] in a;
      Uncons(a, rest);
      assert '`' !in a[1..] by {
        assert forall c | c in a[1..] :: c in a;
      }
      PlainifySkip(a[1..], rest);
      Recons(a, Plainify(rest));
    } else {
      AppendEmpty(rest);
    }
  }

  /** A span with no `$` becomes the same text in double quotes, raw line
      breaks included, and the scan resumes after it. */
  lemma PlainifySpan(c: string, b: string)
    requires '`' !in c && '$' !in c
    ensures Plainify("`" + c + "`" + b) == "\"" + c + "\"" + Plainify(b)
  {
    SpanText(c, b, "`" + c + "`" + b);
    CutAtFirst(c, '`', b);
  }

  /** Text without a backtick is left alone. */
  lemma PlainifyIdle(t: string)
    requires '`' !in t
    ensures Plainify(t) == t
  {
    PlainifySkip(t, []);
    AppendEmpty(t);
  }

  /** A span with a `$` keeps its backticks and its text, and the scan
      resumes inside it. */
  lemma PlainifyDollarSpan(c: string, rest: string)
    requires '`' !in c && '$' in c && '`' !in rest
    ensures Plainify("`" + c + "`" + rest) == "`" + c + "`" + rest
  {
    var t := "`" + c + "`" + rest;
    var u := "`" + rest;
    DollarSpanText(c, rest, t, u);
    CutAtFirst(c, '`', rest);
    assert Plainify(t) == "`" + Plainify(c + u);
    PlainifySkip(c, u);
    CutAtShape(rest, '`');
    PlainifyIdle(rest);
    assert Plainify(u) == u;
  }

  /** Helper: the parts of a span followed by more text. */
  lemma DollarSpanText(c: string, rest: string, t: string, u: string)
    requires t == "`" + c + "`" + rest && u == "`" + rest
    ensures t != [] && t[0] == '`' && t[1..] == c + ['`'] + rest && t[1..] == c + u
    ensures u[0] == '`' && u[1..] == rest && t == "`" + (c + u)
  {
  }

  // ---------------------------------------------------------------------
  // Converting one span

  /** No `""` away from the first two and the last three characters. */
  predicate InnerPairFree(s: string) {
    forall i | 2 <= i < |s| - 3 :: !(s[i] == '"' && s[i + 1] == '"')
  }

  /** Helper: an occurrence of `" + "" + "` shows `""` inside the text. */
  lemma CollapseNeedsPair(s: string, k: nat)
    requires At(s, Collapse, k)
    ensures k + 9 <= |s| && s[k + 4] == '"' && s[k + 5] == '"'
  {
    StartsWithSlice(s[k..], Collapse);
    assert s[k..][4] == '"' && s[k..][5] == '"';
  }

  /** The collapse step finds nothing when `""` occurs only at the ends. */
  lemma CollapseAbsent(s: string)
    requires InnerPairFree(s)
    ensures !Occurs(Collapse, s)
  {
    if Occurs(Collapse, s) {
      var k := FindSub(s, Collapse).value;
      CollapseNeedsPair(s, k);
    }
  }

  /** Helper: a quoted text whose body, last character aside, has no `""`. */
  lemma QuotedInner(y: string)
    requires y != [] && QuotePairFree(y[..|y| - 1])
    ensures InnerPairFree("\"" + y + "\"")
  {
    var s := "\"" + y + "\"";
    forall i | 2 <= i < |s| - 3 ensures !(s[i] == '"' && s[i + 1] == '"') {
      assert s[i] == y[..|y| - 1][i - 1] && s[i + 1] == y[..|y| - 1][i];
    }
  }

  /** When the collapse step finds nothing, a span's conversion is its
      spliced text in double quotes with the ends trimmed. */
  lemma ConvertInnerQuoted(c: string, y: string)
    requires SubHoles(c) == y && InnerPairFree("\"" + y + "\"")
    ensures ConvertInner(c) == StripEnds("\"" + y + "\"")
  {
    ReplaceAllSelf(y, "\\n");
    CollapseAbsent("\"" + y + "\"");
    ReplaceAllAbsent("\"" + y + "\"", Collapse, "\" + \"");
  }

  /** Both ends trimmed from a text of the form `"" + m + ""`. */
  lemma StripBoth(m: string, q: string)
    requires q == "\"\" + " + (m + " + \"\"")
    ensures StripEnds(q) == m
  {
    StartsWithConcat("\"\" + ", m + " + \"\"");
    SliceAfter("\"\" + ", m + " + \"\"");
    var f := m + " + \"\"";
    assert f[|f| - 5..] == " + \"\"";
    assert f[..|f| - 5] == m;
  }

  /** A text that starts and ends with a string literal of at least one
      character is left alone by the trimming. */
  lemma StripNone(q: string)
    requires |q| >= 2 && q[1] != '"' && q[|q| - 2] != '"'
    ensures StripEnds(q) == q
  {
    assert q[1..][0] == q[1];
    assert !StartsWith(q, "\"\" + ");
    assert |q| >= 5 ==> q[|q| - 5..][3] == q[|q| - 2];
    assert !EndsWith(q, " + \"\"");
  }

  /** Helper: a hole's splice has no `""`, nor does it without its last
      quote. */
  lemma SplicePairFree(x: string)
    requires '"' !in x
    ensures QuotePairFree(Splice(x)) && EndsClear(Splice(x)[..|Splice(x)| - 1])
    ensures Splice(x)[0] == '"' && Splice(x)[|Splice(x)| - 1] == '"'
  {
    var m := " + (" + x + ") + ";
    assert '"' !in m by {
      assert forall i | 0 <= i < |m| :: m[i] in " + (" || m[i] in x || m[i] in ") + ";
    }
    assert QuotePairFree("\"");
    AppendQuoteFree("\"", m);
    AppendAfterClear("\"" + m, "\"");
    assert Splice(x) == "\"" + m + "\"";
    assert Splice(x)[..|Splice(x)| - 1] == "\"" + m;
  }

  /** Helper: the quoted text of `a`, a splice and `b` has `""` nowhere and
      starts and ends with a literal of at least one character. */
  lemma SplicedQuoted(a: string, x: string, b: string, q: string)
    requires a != [] && b != [] && '"' !in a && '"' !in x && '"' !in b
    requires q == "\"" + a + Splice(x) + b + "\""
    ensures InnerPairFree(q) && |q| >= 2 && q[1] != '"' && q[|q| - 2] != '"'
    ensures q == "\"" + (a + Splice(x) + b) + "\""
  {
    var y := a + Splice(x) + b;
    SplicePairFree(x);
    assert a[|a| - 1] in a && a[0] in a && b[|b| - 1] in b && b[0] in b;
    QuoteFreePairFree(a);
    QuoteFreePairFree(b);
    AppendAfterClear(a, Splice(x));
    QuotePairFreeConcat(a + Splice(x), b);
    assert QuotePairFree(y[..|y| - 1]) by {
      assert forall i | 0 <= i < |y| - 2 :: y[..|y| - 1][i] == y[i];
    }
    QuotedInner(y);
    assert q[1] == a[0] && q[|q| - 2] == b[|b| - 1];
  }

  /** A span whose holes splice to `a`, one hole `x` and `b`, with text on
      both sides and no quotes, converts to the two string literals around
      the parenthesised expression. */
  lemma ConvertInnerSpliced(c: string, a: string, x: string, b: string)
    requires SubHoles(c) == a + Splice(x) + b
    requires a != [] && b != [] && '"' !in a && '"' !in x && '"' !in b
    ensures ConvertInner(c) == "\"" + a + Splice(x) + b + "\""
  {
    var q := "\"" + a + Splice(x) + b + "\"";
    SplicedQuoted(a, x, b, q);
    ConvertInnerQuoted(c, a + Splice(x) + b);
    StripNone(q);
  }

  /** Helper: a lone hole's text in a span and in quotes. */
  lemma LoneHoleText(x: string)
    ensures "${" + x + "}" + [] == "${" + x + "}"
    ensures "\"" + Splice(x) + "\"" == "\"\" + " + (("(" + x + ")") + " + \"\"")
  {
  }

  /** A span that is a single hole around plain text converts to the
      parenthesised expression alone. */
  lemma ConvertInnerLoneHole(x: string)
    requires Plain(x) && x != []
    ensures ConvertInner("${" + x + "}") == "(" + x + ")"
  {
    PlainFacts(x);
    LoneHoleText(x);
    SubHolesHole(x, []);
    AppendEmpty(Splice(x));
    assert SubHoles("${" + x + "}") == Splice(x);
    SplicePairFree(x);
    var y := Splice(x);
    assert QuotePairFree(y[..|y| - 1]) by {
      assert forall i | 0 <= i < |y| - 2 :: y[..|y| - 1][i] == y[i];
    }
    QuotedInner(y);
    ConvertInnerQuoted("${" + x + "}", y);
    StripBoth("(" + x + ")", "\"" + y + "\"");
  }

  /** A span `a${x}b` of plain text converts to `"a" + (x) + "b"`. */
  lemma ConvertInnerHole(a: string, x: string, b: string)
    requires Plain(a) && Plain(x) && Plain(b) && a != [] && x != [] && b != []
    ensures ConvertInner(a + "${" + x + "}" + b) == "\"" + a + Splice(x) + b + "\""
  {
    PlainFacts(a);
    PlainFacts(x);
    PlainFacts(b);
    SubHolesPlainLine(a, x, b);
    ConvertInnerSpliced(a + "${" + x + "}" + b, a, x, b);
  }

  // ---------------------------------------------------------------------
  // The whole conversion

  /** Helper: the first pass on a content that is exactly one span. */
  lemma ReplaceWhole(s: string, r: string)
    ensures ReplaceFirst(s, s, r, false) == r
    ensures ReplaceFirst(s, s, r, true) == Expand(r, [], s, [])
  {
    StartsWithConcat(s, []);
    AppendEmpty(s);
    assert FindSub(s, s) == Some(0);
    assert s[..0] == [] && s[|s|..] == [];
    AppendEmpty(r);
    AppendEmpty(Expand(r, [], s, []));
  }

  /** Helper: the first pass on a content that is exactly one span with a
      hole. */
  lemma ApplyOne(c: string, expand: bool)
    requires '`' !in c && HasHole(c)
    ensures Templates("`" + c + "`") == [c]
    ensures ApplyAll(expand, "`" + c + "`", [c])
         == ReplaceFirst("`" + c + "`", "`" + c + "`", ConvertInner(c), expand)
  {
    TemplatesSpan(c, []);
    AppendEmpty("`" + c + "`");
    assert [c][1..] == [];
  }

  /** A content that is one span with a hole becomes that span's
      conversion, whichever replace is used, when the conversion has no
      backtick and no `$`. */
  lemma ConvertSingleSpan(c: string, expand: bool)
    requires '`' !in c && HasHole(c)
    requires '`' !in ConvertInner(c) && '$' !in ConvertInner(c)
    ensures ConvertWith(expand, "`" + c + "`") == ConvertInner(c)
  {
    var s := "`" + c + "`";
    ApplyOne(c, expand);
    ReplaceWhole(s, ConvertInner(c));
    ExpandLiteral(ConvertInner(c), [], s, []);
    PlainifyIdle(ConvertInner(c));
  }

  /** Helper: a lone hole as a span. */
  lemma LoneHoleSpan(x: string)
    requires Plain(x) && x != []
    ensures "`${" + x + "}`" == "`" + ("${" + x + "}") + "`"
    ensures '`' !in "${" + x + "}" && HasHole("${" + x + "}")
    ensures '`' !in "(" + x + ")" && '$' !in "(" + x + ")"
  {
    PlainFacts(x);
    PlainMore(x);
    var c := "${" + x + "}";
    assert '`' !in c by {
      assert forall i | 0 <= i < |c| :: c[i] in "${}" || c[i] in x;
    }
    assert c[2..][|x|] == '}';
    var r := "(" + x + ")";
    assert '`' !in r && '$' !in r by {
      assert forall i | 0 <= i < |r| :: r[i] in "()" || r[i] in x;
    }
  }

  /** A template literal that is a single hole becomes the parenthesised
      expression, with either replace. */
  lemma ConvertLoneHole(x: string)
    requires Plain(x) && x != []
    ensures Convert("`${" + x + "}`") == "(" + x + ")"
    ensures ConvertAsWritten("`${" + x + "}`") == "(" + x + ")"
  {
    LoneHoleSpan(x);
    ConvertInnerLoneHole(x);
    ConvertSingleSpan("${" + x + "}", false);
    ConvertSingleSpan("${" + x + "}", true);
  }

  /** Helper: a span `a${x}b` of plain text, and its conversion. */
  lemma HoleSpanText(a: string, x: string, b: string)
    requires Plain(a) && Plain(x) && Plain(b)
    ensures '`' !in a + "${" + x + "}" + b && HasHole(a + "${" + x + "}" + b)
    ensures '`' !in "\"" + a + Splice(x) + b + "\"" && '$' !in "\"" + a + Splice(x) + b + "\""
  {
    PlainFacts(a);
    PlainMore(a);
    PlainFacts(x);
    PlainMore(x);
    PlainFacts(b);
    PlainMore(b);
    HoleSpanHas(a, x, b);
    HoleSpanNoTick(a, x, b);
    HoleSpanOut(a, x, b);
  }

  /** Helper: no backtick in the span when none is in its parts. */
  lemma HoleSpanNoTick(a: string, x: string, b: string)
    requires '`' !in a && '`' !in x && '`' !in b
    ensures '`' !in a + "${" + x + "}" + b
  {
  }

  /** Helper: no backtick and no `$` in the converted span when none is in
      its parts. */
  lemma HoleSpanOut(a: string, x: string, b: string)
    requires '`' !in a && '`' !in x && '`' !in b
    requires '$' !in a && '$' !in x && '$' !in b
    ensures '`' !in "\"" + a + Splice(x) + b + "\"" && '$' !in "\"" + a + Splice(x) + b + "\""
  {
  }

  /** Helper: `a${x}b` has a hole. */
  lemma HoleSpanHas(a: string, x: string, b: string)
    ensures HasHole(a + "${" + x + "}" + b)
  {
    var c := a + "${" + x + "}" + b;
    assert HoleAt(c, |a|, |a| + 2 + |x|);
    HasHoleIff(c);
  }

  /** A template literal `a${x}b` of plain text becomes `"a" + (x) + "b"`,
      with either replace. */
  lemma ConvertHoleSpan(a: string, x: string, b: string)
    requires Plain(a) && Plain(x) && Plain(b) && a != [] && x != [] && b != []
    ensures Convert("`" + (a + "${" + x + "}" + b) + "`") == "\"" + a + Splice(x) + b + "\""
    ensures ConvertAsWritten("`" + (a + "${" + x + "}" + b) + "`") == "\"" + a + Splice(x) + b + "\""
  {
    HoleSpanText(a, x, b);
    ConvertInnerHole(a, x, b);
    ConvertSingleSpan(a + "${" + x + "}" + b, false);
    ConvertSingleSpan(a + "${" + x + "}" + b, true);
  }

  /** A template literal with no `$` becomes a double-quoted string with the
      same text, raw line breaks included. */
  lemma ConvertPlainSpan(c: string)
    requires '`' !in c && '$' !in c
    ensures Convert("`" + c + "`") == "\"" + c + "\""
    ensures ConvertAsWritten("`" + c + "`") == "\"" + c + "\""
  {
    assert !HasHole(c) by {
      HasHoleIff(c);
      forall k: nat, m: nat
        ensures !HoleAt(c, k, m)
      {
        if k < |c| {
          assert c[k] in c;
        }
      }
    }
    TemplatesNoHole(c, []);
    var u: string := "`";
    assert Templates(u) == [] by {
      assert CutAt(u[1..], '`') == None;
    }
    AppendEmpty("`" + c + "`");
    PlainifySpan(c, []);
    AppendEmpty("\"" + c + "\"");
  }

  /** A template literal with a `$` but no hole is left as it is: the first
      pass does not find it and the second pass keeps its backticks. */
  lemma ConvertDollarSpan(c: string)
    requires '`' !in c && '$' in c && !HasHole(c)
    ensures Convert("`" + c + "`") == "`" + c + "`"
    ensures ConvertAsWritten("`" + c + "`") == "`" + c + "`"
  {
    TemplatesNoHole(c, []);
    var u: string := "`";
    assert Templates(u) == [] by {
      assert CutAt(u[1..], '`') == None;
    }
    AppendEmpty("`" + c + "`");
    PlainifyDollarSpan(c, []);
  }

  /** The two replaces agree on a content whose spans all convert to text
      without a `$`. */
  lemma {:induction false} ApplyAllAgree(result: string, spans: seq<string>)
    requires forall i | 0 <= i < |spans| :: '$' !in ConvertInner(spans[i])
    ensures ApplyAll(true, result, spans) == ApplyAll(false, result, spans)
    decreases |spans|
  {
    if spans != [] {
      var c := spans[0];
      ReplaceFirstAgree(result, "`" + c + "`", ConvertInner(c));
      ApplyAllAgree(ReplaceFirst(result, "`" + c + "`", ConvertInner(c), false), spans[1..]);
    }
  }

  /** The conversion as written differs from the literal one only through a
      `$` in some span's conversion. */
  lemma ConvertAgree(content: string)
    requires forall i | 0 <= i < |Templates(content)| :: '$' !in ConvertInner(Templates(content)[i])
    ensures ConvertAsWritten(content) == Convert(content)
  {
    ApplyAllAgree(content, Templates(content));
  }

  // ---------------------------------------------------------------------
  // The replacement's `$` patterns

  /** Helper: `$&` in a replacement after a quote. */
  lemma ExpandQuoteAmp(rest: string, m: string)
    requires '$' !in rest
    ensures Expand("\"" + ("$&" + rest), [], m, []) == "\"" + (m + rest)
  {
    var r := "\"" + ("$&" + rest);
    assert r[0] == '"' && r[1..] == "$&" + rest;
    var u := "$&" + rest;
    assert u[0] == '$' && u[1] == '&' && u[2..] == rest;
    ExpandLiteral(rest, [], m, []);
  }

  /** Helper: the text of the span `$&${x}b` and of its tail. */
  lemma AmpParts(x: string, b: string, c: string)
    requires c == "$&" + ("${" + x + "}" + b)
    ensures |c| >= 2 && c[0] == '$' && c[1] == '&' && c[1..] == "&" + ("${" + x + "}" + b)
    ensures "&" + ("${" + x + "}" + b) != [] && ("&" + ("${" + x + "}" + b))[0] == '&'
    ensures ("&" + ("${" + x + "}" + b))[1..] == "${" + x + "}" + b
  {
  }

  /** Helper: the holes of `$&${x}b` are spliced after the `$&`. */
  lemma SubHolesAmp(x: string, b: string, c: string)
    requires Plain(x) && Plain(b) && x != []
    requires c == "$&" + ("${" + x + "}" + b)
    ensures SubHoles(c) == "$&" + Splice(x) + b
  {
    PlainFacts(b);
    PlainFacts(x);
    AmpParts(x, b, c);
    var t := "&" + ("${" + x + "}" + b);
    SubHolesCopy(t);
    SubHolesHole(x, b);
    SubHolesIdle(b);
    AmpSpliced(x, b);
  }

  /** Helper: regrouping the spliced text of `$&${x}b`. */
  lemma AmpSpliced(x: string, b: string)
    ensures "$" + ("&" + (Splice(x) + b)) == "$&" + Splice(x) + b
  {
  }

  /** Helper: what the span `$&${x}b` and its conversion hold. */
  lemma AmpText(x: string, b: string, c: string, rest: string)
    requires Plain(x) && Plain(b)
    requires c == "$&" + ("${" + x + "}" + b) && rest == Splice(x) + b + "\""
    ensures '`' !in c && '$' in c && '`' !in rest && '$' !in rest
    ensures HasHole(c) && '"' !in x && '"' !in b
  {
    PlainFacts(x);
    PlainMore(x);
    PlainFacts(b);
    PlainMore(b);
    AmpHas(x, b, c);
  }

  /** Helper: the span `$&${x}b` has a hole and starts with a `$`. */
  lemma AmpHas(x: string, b: string, c: string)
    requires c == "$&" + ("${" + x + "}" + b)
    ensures HasHole(c) && '$' in c
  {
    assert c[0] == '$';
    HoleSpanHas("$&", x, b);
    assert "$&" + "${" + x + "}" + b == c;
  }

  /** Helper: the conversion of `$&${x}b` after the quote and `$&`. */
  lemma AmpConverted(x: string, b: string, rest: string)
    requires rest == Splice(x) + b + "\""
    ensures "\"" + "$&" + Splice(x) + b + "\"" == "\"" + ("$&" + rest)
    ensures "\"$&" + Splice(x) + b + "\"" == "\"" + ("$&" + rest)
  {
  }

  /** Helper: as written, a span whose conversion starts with `"$&` gets
      the span itself spliced in after the quote. */
  lemma AmpWritten(c: string, s: string, rest: string)
    requires '`' !in c && HasHole(c) && '$' in c && '`' !in rest && '$' !in rest
    requires s == "`" + c + "`" && ConvertInner(c) == "\"" + ("$&" + rest)
    ensures ConvertAsWritten(s) == "\"" + (s + rest)
  {
    ApplyOne(c, true);
    ReplaceWhole(s, ConvertInner(c));
    ExpandQuoteAmp(rest, s);
    PlainifySkip("\"", s + rest);
    PlainifyDollarSpan(c, rest);
  }

  /** Helper: with the literal replace, a lone span with a hole becomes its
      conversion whenever that has no backtick. */
  lemma SpanFixed(c: string, s: string)
    requires '`' !in c && HasHole(c) && s == "`" + c + "`" && '`' !in ConvertInner(c)
    ensures Convert(s) == ConvertInner(c)
  {
    ApplyOne(c, false);
    ReplaceWhole(s, ConvertInner(c));
    PlainifyIdle(ConvertInner(c));
  }

  /** As written, a converted text holding `$&` gets the whole matched
      template literal spliced back into it: the span `$&${x}b` becomes
      the old span inside a string literal followed by `(x)`, which differs
      from the literal result of `ConvertAmpSpanFixed`. */
  lemma ConvertAmpSpan(x: string, b: string, c: string, s: string)
    requires Plain(x) && Plain(b) && x != [] && b != []
    requires c == "$&" + ("${" + x + "}" + b) && s == "`" + c + "`"
    ensures ConvertAsWritten(s) == "\"" + s + Splice(x) + b + "\""
    ensures ConvertAsWritten(s) != Convert(s)
  {
    var rest := Splice(x) + b + "\"";
    AmpText(x, b, c, rest);
    SubHolesAmp(x, b, c);
    ConvertInnerSpliced(c, "$&", x, b);
    AmpConverted(x, b, rest);
    AmpWritten(c, s, rest);
    ConvertAmpSpanFixed(x, b, c, s);
    AmpResult(s, x, b, rest);
  }

  /** Putting the converted text in literally keeps `$&` as text: the span
      `$&${x}b` becomes `"$&" + (x) + "b"`, like any other span with text
      around one hole. */
  lemma ConvertAmpSpanFixed(x: string, b: string, c: string, s: string)
    requires Plain(x) && Plain(b) && x != [] && b != []
    requires c == "$&" + ("${" + x + "}" + b) && s == "`" + c + "`"
    ensures Convert(s) == "\"$&" + Splice(x) + b + "\""
  {
    var rest := Splice(x) + b + "\"";
    AmpText(x, b, c, rest);
    SubHolesAmp(x, b, c);
    ConvertInnerSpliced(c, "$&", x, b);
    AmpConverted(x, b, rest);
    SpanFixed(c, s);
  }

  /** Helper: the two results of the `$&` span, regrouped. */
  lemma AmpResult(s: string, x: string, b: string, rest: string)
    requires |s| > 2 && rest == Splice(x) + b + "\""
    ensures "\"" + (s + rest) == "\"" + s + Splice(x) + b + "\""
    ensures |"\"" + (s + rest)| != |"\"" + ("$&" + rest)|
  {
  }
}
