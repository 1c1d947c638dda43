/** fix-templates.js: a character scanner that turns every template literal
    into a double-quoted string, splicing `${...}` holes in as parenthesised
    concatenations and escaping line breaks, followed by three clean-ups
    that run over the whole output, code outside templates included. */
module FixTemplates {
  import opened Text
  import opened Rewrite

  // ---------------------------------------------------------------------
  // The scanner

  /** A hole's text as the scanner copies it, and how many characters it
      consumed, its closing brace included. */
  datatype Braced = Braced(body: string, used: nat)

  /** The hole scanner, started just after `${` at brace depth `depth`:
      every `{` deepens and every `}` shallows the nesting, each character
      read while the depth stays positive is copied, the brace that brings
      the depth to zero is consumed but not copied, and a hole that is never
      closed runs to the end of the input. */
  function HoleBody(t: string, depth: nat): (h: Braced)
    ensures h.used <= |t|
    decreases |t|
  {
    if t == [] || depth == 0 then Braced([], 0)
    else
      var d := if t[0] == '{' then depth + 1 else if t[0] == '}' then depth - 1 else depth;
      var h := HoleBody(t[1..], d);
      Braced(if d > 0 then [t[0]] + h.body else h.body, h.used + 1)
  }

  /** How many spaces and tabs `t` starts with: the indentation skipped
      after a line break inside a template. */
  function Indent(t: string): (n: nat)
    ensures n <= |t|
  {
    if t != [] && (t[0] == ' ' || t[0] == '\t') then 1 + Indent(t[1..]) else 0
  }

  /** `content[i + 1] === c`, which is false past the end of the input. */
  predicate Next(t: string, c: char) {
    |t| > 1 && t[1] == c
  }

  /** One turn of the scanning loop: the text appended to the output, how
      many characters were consumed, and whether the scan is then inside a
      template literal. */
  datatype Step = Step(out: string, used: nat, inTemplate: bool)

  /** One turn of the scanning loop on the rest `t` of the input. */
  function StepOf(t: string, inTemplate: bool): (st: Step)
    requires t != []
    ensures 0 < st.used <= |t|
  {
    if t[0] == '`' then
      Step("\"", 1, !inTemplate)
    else if inTemplate && t[0] == '$' && Next(t, '{') then
      var h := HoleBody(t[2..], 1);
      Step(Splice(h.body), 2 + h.used, true)
    else if inTemplate && t[0] == '\r' && Next(t, '\n') then
      Step("\\n", 2 + Indent(t[2..]), true)
    else if inTemplate && t[0] == '\n' then
      Step("\\n", 1 + Indent(t[1..]), true)
    else if inTemplate && t[0] == '\\' && Next(t, 'n') then
      Step("\\n", 2, true)
    else
      Step([t[0]], 1, inTemplate)
  }

  /** The output of the scanning loop on the rest `t` of the input. */
  function Scan(t: string, inTemplate: bool): string
    decreases |t|
  {
    if t == [] then []
    else
      var st := StepOf(t, inTemplate);
      st.out + Scan(t[st.used..], st.inTemplate)
  }

  // ---------------------------------------------------------------------
  // The clean-ups and the whole conversion

  /** `""\s*\+\s*` -> nothing (global): an empty literal and the plus after it. */
  const DropEmptyFront := PlusRule("\"\"", "", "")
  /** `\s*\+\s*""` -> nothing (global): a plus and the empty literal after it. */
  const DropEmptyBack := PlusRule("", "\"\"", "")
  /** `"\s*\+\s*"` -> nothing (global): two adjacent literals fused into one. */
  const FuseLiterals := PlusRule("\"", "\"", "")

  /** The three clean-ups, each a global replace, in order. */
  function Cleanup(t: string): string {
    ApplyRule(FuseLiterals, ApplyRule(DropEmptyBack, ApplyRule(DropEmptyFront, t)))
  }

  /** `convertFile` without the file reading. */
  function ConvertFile(s: string): string {
    Cleanup(Scan(s, false))
  }

  // ---------------------------------------------------------------------
  // The loop as written

  /** One turn of the loop body, with its inner loops, from index `i`. */
  method StepLoop(content: string, i0: nat, inTemplate0: bool) returns (out: string, i: nat, inTemplate: bool)
    requires i0 < |content|
    ensures i0 < i <= |content|
    ensures Step(out, i - i0, inTemplate) == StepOf(content[i0..], inTemplate0)
  {
    i := i0;
    inTemplate := inTemplate0;
    if content[i] == '`' {
      inTemplate := !inTemplate;
      out := "\"";
      i := i + 1;
    } else if inTemplate && content[i] == '$' && i + 1 < |content| && content[i + 1] == '{' {
      var body;
      body, i := HoleLoop(content, i + 2);
      out := "\" + (" + body + ") + \"";
      HoleTurn(content, i0);
    } else if inTemplate && content[i] == '\r' && i + 1 < |content| && content[i + 1] == '\n' {
      out := "\\n";
      i := i + 2;
      i := SkipIndent(content, i);
      BreakTurn(content, i0, 2);
    } else if inTemplate && content[i] == '\n' {
      out := "\\n";
      i := i + 1;
      i := SkipIndent(content, i);
      BreakTurn(content, i0, 1);
    } else if inTemplate && content[i] == '\\' && i + 1 < |content| && content[i + 1] == 'n' {
      out := "\\n";
      i := i + 2;
    } else {
      out := [content[i]];
      i := i + 1;
    }
  }

  /** The hole-copying inner loop, from just after `${`. */
  method HoleLoop(content: string, i0: nat) returns (body: string, i: nat)
    requires i0 <= |content|
    ensures i0 <= i <= |content|
    ensures Braced(body, i - i0) == HoleBody(content[i0..], 1)
  {
    i := i0;
    body := "";
    var depth: nat := 1;
    ghost var h0 := HoleBody(content[i0..], 1);
    while i < |content| && depth > 0
      invariant i0 <= i <= |content|
      invariant h0.body == body + HoleBody(content[i..], depth).body
      invariant i0 + h0.used == i + HoleBody(content[i..], depth).used
      decreases |content| - i
    {
      HoleStep(content, i, depth);
      ghost var rest := HoleBody(content[i + 1..], NextDepth(content[i], depth));
      if content[i] == '{' {
        depth := depth + 1;
      }
      if content[i] == '}' {
        depth := depth - 1;
      }
      if depth > 0 {
        Regroup(body, [content[i]], rest.body);
        body := body + [content[i]];
      }
      i := i + 1;
    }
    assert HoleBody(content[i..], depth).body == [] && HoleBody(content[i..], depth).used == 0;
    AppendEmpty(body);
  }

  /** The indentation-skipping inner loop. */
  method SkipIndent(content: string, i0: nat) returns (i: nat)
    requires i0 <= |content|
    ensures i == i0 + Indent(content[i0..])
  {
    i := i0;
    while i < |content| && (content[i] == ' ' || content[i] == '\t')
      invariant i0 <= i <= |content|
      invariant i0 + Indent(content[i0..]) == i + Indent(content[i..])
      decreases |content| - i
    {
      assert content[i..][1..] == content[i + 1..];
      i := i + 1;
    }
  }

  /** The whole scanning loop of `convertFile`. */
  method ScanLoop(content: string) returns (result: string)
    ensures result == Scan(content, false)
  {
    var inTemplate := false;
    result := "";
    var i := 0;
    while i < |content|
      invariant i <= |content|
      invariant result + Scan(content[i..], inTemplate) == Scan(content, false)
      decreases |content| - i
    {
      var out, next, inNext := StepLoop(content, i, inTemplate);
      ScanTurn(content, i, next, inTemplate);
      Regroup(result, out, Scan(content[next..], inNext));
      result := result + out;
      i := next;
      inTemplate := inNext;
    }
  }

  /** `convertFile` as written: the scanning loop, then the clean-ups. */
  method ConvertFileLoop(content: string) returns (result: string)
    ensures result == ConvertFile(content)
  {
    result := ScanLoop(content);
    result := ApplyRule(DropEmptyFront, result);
    result := ApplyRule(DropEmptyBack, result);
    result := ApplyRule(FuseLiterals, result);
  }

  /** The brace depth after reading `c`. */
  function NextDepth(c: char, depth: nat): nat {
    if c == '{' then depth + 1 else if c == '}' then if depth > 0 then depth - 1 else 0 else depth
  }

  /** Helper: one character of the hole scanner. */
  lemma HoleStep(content: string, i: nat, depth: nat)
    requires i < |content| && depth > 0
    ensures var d := NextDepth(content[i], depth);
      var h := HoleBody(content[i + 1..], d);
      HoleBody(content[i..], depth) == Braced(if d > 0 then [content[i]] + h.body else h.body, h.used + 1)
  {
    assert content[i..][1..] == content[i + 1..];
  }

  /** Helper: the hole branch reads the input after `${`. */
  lemma HoleTurn(content: string, i0: nat)
    requires i0 + 1 < |content|
    ensures content[i0..][2..] == content[i0 + 2..] && content[i0..][0] == content[i0]
    ensures Next(content[i0..], content[i0 + 1])
  {
  }

  /** Helper: the line-break branches read the input after the break. */
  lemma BreakTurn(content: string, i0: nat, k: nat)
    requires i0 + k <= |content| && 0 < k
    ensures content[i0..][k..] == content[i0 + k..] && content[i0..][0] == content[i0]
  {
  }

  /** Helper: one turn of the loop is one step of the scan. */
  lemma ScanTurn(content: string, i: nat, next: nat, inTemplate: bool)
    requires i < next <= |content|
    requires next - i == StepOf(content[i..], inTemplate).used
    ensures Scan(content[i..], inTemplate)
      == StepOf(content[i..], inTemplate).out + Scan(content[next..], StepOf(content[i..], inTemplate).inTemplate)
  {
    SliceOfSuffix(content, i, next - i);
  }

  // ---------------------------------------------------------------------
  // The scanner's promises

  /** The template state changes exactly on a backtick, and a backtick is
      always written as a double quote. */
  lemma StepToggle(t: string, inTemplate: bool)
    requires t != []
    ensures StepOf(t, inTemplate).inTemplate != inTemplate <==> t[0] == '`'
    ensures t[0] == '`' ==> StepOf(t, inTemplate).out == "\""
  {
  }

  /** Outside a template, text without a backtick is copied verbatim. */
  lemma {:induction false} ScanCode(a: string, rest: string)
    requires '`' !in a
    ensures Scan(a + rest, false) == a + Scan(rest, false)
    decreases |a|
  {
    if a != [] {
      assert a[0] in a;
      Uncons(a, rest);
      assert '`' !in a[1..] by {
        assert forall c | c in a[1..] :: c in a;
      }
      ScanCode(a[1..], rest);
      assert StepOf(a + rest, false) == Step([a[0]], 1, false);
      Recons(a, Scan(rest, false));
    } else {
      assert a + rest == rest;
    }
  }

  /** A file without a backtick goes through the scanner unchanged. */
  lemma ScanCodeOnly(s: string)
    requires '`' !in s
    ensures Scan(s, false) == s
  {
    ScanCode(s, []);
    assert s + [] == s;
  }

  /** No brace in the text. */
  predicate BraceFree(a: string) {
    '{' !in a && '}' !in a
  }

  /** Brace-free text inside a hole is copied as it is, at any depth. */
  lemma {:induction false} HoleSkip(a: string, rest: string, depth: nat)
    requires BraceFree(a) && depth > 0
    ensures HoleBody(a + rest, depth)
      == Braced(a + HoleBody(rest, depth).body, |a| + HoleBody(rest, depth).used)
    decreases |a|
  {
    if a != [] {
      assert a[0] in a;
      Uncons(a, rest);
      assert BraceFree(a[1..]) by {
        assert forall c | c in a[1..] :: c in a;
      }
      HoleSkip(a[1..], rest, depth);
      var h := HoleBody(a[1..] + rest, depth);
      assert HoleBody(a + rest, depth) == Braced([a[0]] + h.body, h.used + 1);
      Recons(a, HoleBody(rest, depth).body);
    } else {
      assert a + rest == rest;
    }
  }

  /** A hole with no nested braces is its text up to the first `}`, which
      is consumed and dropped. */
  lemma HoleFlat(e: string, rest: string)
    requires BraceFree(e)
    ensures HoleBody(e + "}" + rest, 1) == Braced(e, |e| + 1)
  {
    HoleSkip(e, "}" + rest, 1);
    Regroup(e, "}", rest);
    assert HoleBody("}" + rest, 1) == Braced([], 1);
    assert e + [] == e;
  }

  /** A nested pair of braces is copied, depth counting finds the brace
      that really closes the hole, and only that one is dropped. */
  lemma HoleNested(x: string, y: string, z: string, rest: string)
    requires BraceFree(x) && BraceFree(y) && BraceFree(z)
    ensures HoleBody(x + "{" + y + "}" + z + "}" + rest, 1)
      == Braced(x + "{" + y + "}" + z, |x| + |y| + |z| + 3)
  {
    var t3 := z + "}" + rest;
    var t2 := "}" + t3;
    var t1 := y + t2;
    var t0 := "{" + t1;
    HoleFlat(z, rest);
    assert HoleBody(t2, 2) == Braced("}" + z, |z| + 2) by {
      assert t2[0] == '}' && t2[1..] == t3;
    }
    HoleSkip(y, t2, 2);
    assert HoleBody(t0, 1) == Braced("{" + (y + ("}" + z)), |y| + |z| + 3) by {
      assert t0[0] == '{' && t0[1..] == t1;
    }
    HoleSkip(x, t0, 1);
    NestedText(x, y, z, rest, t3);
  }

  /** Helper: the pieces of a nested hole spelled out. */
  lemma NestedText(x: string, y: string, z: string, rest: string, t3: string)
    requires t3 == z + "}" + rest
    ensures x + ("{" + (y + ("}" + t3))) == x + "{" + y + "}" + z + "}" + rest
    ensures x + ("{" + (y + ("}" + z))) == x + "{" + y + "}" + z
  {
  }

  /** A hole that is never closed takes everything up to the end of the
      input. */
  lemma {:induction false} HoleUnclosed(t: string, depth: nat)
    requires '}' !in t && depth > 0
    ensures HoleBody(t, depth) == Braced(t, |t|)
    decreases |t|
  {
    if t != [] {
      assert t[0] in t;
      assert '}' !in t[1..] by {
        assert forall c | c in t[1..] :: c in t;
      }
      var d := if t[0] == '{' then depth + 1 else depth;
      HoleUnclosed(t[1..], d);
      assert [t[0]] + t[1..] == t;
    }
  }

  /** Helper: how `${e}rest` breaks into the pieces the scanner reads. */
  lemma HoleText(e: string, rest: string, t: string)
    requires t == "${" + e + "}" + rest
    ensures |t| > 2 + |e| && t[0] == '$' && Next(t, '{')
    ensures t[2..] == e + "}" + rest && t[3 + |e|..] == rest
  {
  }

  /** Inside a template, a hole becomes `" + (` and its text and `) + "`,
      and scanning goes on inside the template after it. The hole's text
      may hold backticks: they are expression text and do not end the
      template. */
  lemma ScanHole(e: string, rest: string)
    requires BraceFree(e)
    ensures Scan("${" + e + "}" + rest, true) == Splice(e) + Scan(rest, true)
  {
    var t := "${" + e + "}" + rest;
    HoleText(e, rest, t);
    HoleFlat(e, rest);
  }

  /** A backtick inside a hole is copied into the hole's text, and the
      scan is still inside the template after the hole. */
  lemma HoleHidesBacktick(x: string, y: string, rest: string)
    requires BraceFree(x) && BraceFree(y)
    ensures Scan("${" + x + "`" + y + "}" + rest, true) == Splice(x + "`" + y) + Scan(rest, true)
  {
    var e := x + "`" + y;
    assert BraceFree(e);
    ScanHole(e, rest);
    assert "${" + x + "`" + y + "}" + rest == "${" + e + "}" + rest;
  }

  /** An unclosed hole inside a template takes the rest of the input, and
      the closing `) + "` is still written. */
  lemma ScanUnclosed(e: string)
    requires '}' !in e
    ensures Scan("${" + e, true) == Splice(e)
  {
    var t := "${" + e;
    assert t[0] == '$' && Next(t, '{') && t[2..] == e;
    HoleUnclosed(e, 1);
    assert Splice(e) + [] == Splice(e);
  }

  /** Nothing but spaces and tabs. */
  predicate Blanks(ind: string) {
    forall i | 0 <= i < |ind| :: ind[i] == ' ' || ind[i] == '\t'
  }

  /** The indentation counted is exactly the run of spaces and tabs. */
  lemma {:induction false} IndentOf(ind: string, rest: string)
    requires Blanks(ind) && (rest == [] || (rest[0] != ' ' && rest[0] != '\t'))
    ensures Indent(ind + rest) == |ind|
    decreases |ind|
  {
    if ind != [] {
      Uncons(ind, rest);
      IndentOf(ind[1..], rest);
    } else {
      assert ind + rest == rest;
    }
  }

  /** Helper: how a line break, its indentation and the rest break into the
      pieces the scanner reads. */
  lemma BreakText(br: string, ind: string, rest: string, t: string)
    requires t == br + ind + rest
    ensures |br| + |ind| <= |t| && t[..|br|] == br && t[|br|..] == ind + rest
    ensures t[|br| + |ind|..] == rest
  {
  }

  /** Inside a template, a line feed becomes backslash and `n`, and the
      indentation after it is skipped. */
  lemma ScanLineFeed(ind: string, rest: string)
    requires Blanks(ind) && (rest == [] || (rest[0] != ' ' && rest[0] != '\t'))
    ensures Scan("\n" + ind + rest, true) == "\\n" + Scan(rest, true)
  {
    var t := "\n" + ind + rest;
    BreakText("\n", ind, rest, t);
    assert t[0] == '\n';
    IndentOf(ind, rest);
  }

  /** Inside a template, a carriage return and line feed become backslash
      and `n`, and the indentation after them is skipped. */
  lemma ScanCrLf(ind: string, rest: string)
    requires Blanks(ind) && (rest == [] || (rest[0] != ' ' && rest[0] != '\t'))
    ensures Scan("\r\n" + ind + rest, true) == "\\n" + Scan(rest, true)
  {
    var t := "\r\n" + ind + rest;
    BreakText("\r\n", ind, rest, t);
    assert t[0] == '\r' && t[1] == '\n';
    IndentOf(ind, rest);
  }

  /** Inside a template, an escape already written as backslash and `n`
      is kept as it is. */
  lemma ScanEscaped(rest: string)
    ensures Scan("\\n" + rest, true) == "\\n" + Scan(rest, true)
  {
    var t := "\\n" + rest;
    assert t[0] == '\\' && Next(t, 'n') && t[2..] == rest;
  }

  /** A character with no role of its own inside a template. */
  predicate Quiet(c: char) {
    c !in "`$\r\n\\"
  }

  /** Inside a template, quiet text is copied verbatim; in particular a
      double quote is copied without an escape. */
  lemma {:induction false} ScanText(c: string, rest: string)
    requires forall i | 0 <= i < |c| :: Quiet(c[i])
    ensures Scan(c + rest, true) == c + Scan(rest, true)
    decreases |c|
  {
    if c != [] {
      Uncons(c, rest);
      assert Quiet(c[0]);
      ScanText(c[1..], rest);
      assert StepOf(c + rest, true) == Step([c[0]], 1, true);
      Recons(c, Scan(rest, true));
    } else {
      assert c + rest == rest;
    }
  }

  /** A template of quiet text becomes the same text in double quotes. */
  lemma ScanTemplate(c: string, rest: string)
    requires forall i | 0 <= i < |c| :: Quiet(c[i])
    ensures Scan("`" + c + "`" + rest, false) == "\"" + c + "\"" + Scan(rest, false)
  {
    var t := "`" + c + "`" + rest;
    var u := "`" + rest;
    assert t[0] == '`' && t[1..] == c + u;
    ScanText(c, u);
    assert u[0] == '`' && u[1..] == rest;
    assert "\"" + (c + ("\"" + Scan(rest, false))) == "\"" + c + "\"" + Scan(rest, false);
  }

  // ---------------------------------------------------------------------
  // The clean-ups on whole files

  /** Helper: the scanner's output for a template that is one hole. */
  lemma LoneHoleScan(x: string)
    requires BraceFree(x)
    ensures Scan("`${" + x + "}`", false) == "\"\" + (" + x + ") + \"\""
  {
    var h := "${" + x + "}" + "`";
    var t := "`" + h;
    LoneHoleSpelled(x, t, h);
    ScanBacktick(t, h, false);
    ScanHole(x, "`");
    ScanBacktick("`", [], true);
  }

  /** Helper: a lone hole in backticks, spelled out. */
  lemma LoneHoleSpelled(x: string, t: string, h: string)
    requires h == "${" + x + "}" + "`" && t == "`" + h
    ensures t == "`${" + x + "}`" && t != [] && t[0] == '`' && t[1..] == h
    ensures "\"" + (Splice(x) + ("\"" + [])) == "\"\" + (" + x + ") + \"\""
  {
  }

  /** Helper: a backtick is written as a quote and flips the template state. */
  lemma ScanBacktick(t: string, rest: string, inTemplate: bool)
    requires t != [] && t[0] == '`' && t[1..] == rest
    ensures Scan(t, inTemplate) == "\"" + Scan(rest, !inTemplate)
  {
  }

  /** Helper: the pieces of `"" + (x) + ""` the clean-ups look at. */
  lemma LoneHoleRaw(x: string, raw: string, rest: string)
    requires raw == "\"\" + (" + x + ") + \"\"" && rest == "(" + x + ") + \"\""
    ensures StartsWith(raw, "\"\"") && raw[2..] == " + " + rest
    ensures rest == "(" + x + ") + " + "\"\"" && rest == "(" + x + ")" + " + \"\""
  {
    StartsWithConcat("\"\"", " + " + rest);
    assert raw == "\"\"" + (" + " + rest);
  }

  /** Helper: what `(x)` cannot hold, for plain `x`. */
  lemma PlainParen(x: string)
    requires Plain(x)
    ensures '"' !in "(" + x + ") + " && '+' !in "(" + x + ")"
    ensures forall i | 0 <= i < |x| + 2 :: !CanStart(DropEmptyBack, ("(" + x + ")")[i])
  {
    PlainFacts(x);
    PlainMore(x);
    var y := "(" + x + ")";
    forall i | 0 <= i < |y|
      ensures !IsSpace(y[i]) && y[i] != '+' && y[i] != '"'
    {
      if 1 <= i < |y| - 1 {
        assert y[i] == x[i - 1];
      }
    }
    var z := "(" + x + ") + ";
    forall i | 0 <= i < |z|
      ensures z[i] != '"'
    {
      if i < |y| {
        assert z[i] == y[i];
      }
    }
  }

  /** Helper: the first clean-up removes a leading `"" + ` and nothing
      else when no other quote comes before the final `""`. */
  lemma DropFrontOnce(raw: string, rest: string, p: string)
    requires StartsWith(raw, "\"\"") && raw[2..] == " + " + rest
    requires rest == p + "\"\"" && p != [] && !IsSpace(p[0]) && '"' !in p
    ensures ApplyRule(DropEmptyFront, raw) == rest
  {
    assert rest[0] == p[0];
    ApplyRuleSpaced(DropEmptyFront, raw, rest);
    assert rest[0..] == rest;
    LeadSkip(DropEmptyFront, p, "\"\"");
    ApplyRulePlusFree(DropEmptyFront, "\"\"");
  }

  /** Helper: the empty-literal rule after the plus removes ` + ""`. */
  lemma DropBackTail(a: string)
    requires forall i | 0 <= i < |a| :: !CanStart(DropEmptyBack, a[i])
    ensures ApplyRule(DropEmptyBack, a + " + \"\"") == a
  {
    ApplyRuleSkip(DropEmptyBack, a, " + \"\"");
    BackTailGone();
    AppendEmpty(a);
  }

  /** Helper: the rule removes ` + ""` entirely. */
  lemma BackTailGone()
    ensures ApplyRule(DropEmptyBack, " + \"\"") == []
  {
    BackTailText(" + \"\"");
    ApplyRuleSpaced(DropEmptyBack, " + \"\"", "\"\"");
  }

  /** Helper: ` + ""` in the pieces the second clean-up looks at. */
  lemma BackTailText(s: string)
    requires s == " + \"\""
    ensures StartsWith(s, "") && s[0..] == " + " + "\"\""
    ensures StartsWith("\"\"", "\"\"") && "\"\""[2..] == []
  {
    StartsWithConcat("\"\"", []);
  }

  /** A template that is one hole, `${x}`, comes out as just `(x)`: the
      scanner writes `"" + (x) + ""` and the first two clean-ups remove
      both empty literals. */
  lemma ConvertFileLoneHole(x: string)
    requires Plain(x)
    ensures ConvertFile("`${" + x + "}`") == "(" + x + ")"
  {
    PlainFacts(x);
    PlainMore(x);
    var raw := "\"\" + (" + x + ") + \"\"";
    var rest := "(" + x + ") + \"\"";
    var y := "(" + x + ")";
    LoneHoleScan(x);
    LoneHoleRaw(x, raw, rest);
    PlainParen(x);
    DropFrontOnce(raw, rest, "(" + x + ") + ");
    DropBackTail(y);
    ApplyRulePlusFree(FuseLiterals, y);
  }

  /** A template of plain text comes out as the same text in double
      quotes; with no plus sign in it, the clean-ups leave it alone. */
  lemma ConvertFilePlainSpan(c: string)
    requires Plain(c)
    ensures ConvertFile("`" + c + "`") == "\"" + c + "\""
  {
    PlainFacts(c);
    PlainQuietText(c);
    ScanTemplate(c, []);
    AppendEmpty("`" + c + "`");
    AppendEmpty("\"" + c + "\"");
    var q := "\"" + c + "\"";
    ApplyRulePlusFree(DropEmptyFront, q);
    ApplyRulePlusFree(DropEmptyBack, q);
    ApplyRulePlusFree(FuseLiterals, q);
  }

  /** Helper: plain text is quiet in a template. */
  lemma PlainQuietText(c: string)
    requires Plain(c)
    ensures forall i | 0 <= i < |c| :: Quiet(c[i])
  {
    forall i | 0 <= i < |c| ensures Quiet(c[i]) {
      assert PlainChar(c[i]);
    }
  }

  /** Helper: `"a" + "b"` regrouped from the right. */
  lemma FuseAssoc(a: string, b: string, s: string, u: string, rest: string)
    requires rest == "\"" + (b + "\"") && u == "\"" + (" + " + rest)
    requires s == "\"" + a + "\" + \"" + b + "\""
    ensures s == "\"" + (a + u)
  {
  }

  /** Helper: how `"a" + "b"` breaks into the pieces the clean-ups look at. */
  lemma FuseText(a: string, b: string, s: string, u: string, rest: string)
    requires a != [] && rest == "\"" + (b + "\"") && u == "\"" + (" + " + rest)
    requires s == "\"" + a + "\" + \"" + b + "\""
    ensures StartsWith(s, "\"") && |s| > 1 && s[0] == '"' && s[1] == a[0] && s[1..] == a + u
    ensures StartsWith(u, "\"") && u[1..] == " + " + rest
    ensures StartsWith(rest, "\"") && rest[0] == '"' && rest[1..] == b + "\""
    ensures [s[0]] + (a + ([] + (b + "\""))) == "\"" + a + b + "\""
  {
    FuseAssoc(a, b, s, u, rest);
    HeadText(s, '"', a + u);
    HeadText(u, '"', " + " + rest);
    HeadText(rest, '"', b + "\"");
    FuseSpelled(a, b);
  }

  /** Helper: the fused literal spelled out. */
  lemma FuseSpelled(a: string, b: string)
    ensures ['"'] + (a + ([] + (b + "\""))) == "\"" + a + b + "\""
  {
  }

  /** Helper: the fusing clean-up on `"a" + "b"`, in parts. */
  lemma FuseOn(a: string, b: string, s: string, u: string, rest: string)
    requires a != [] && !IsSpace(a[0]) && a[0] != '+' && '"' !in a && '"' !in b && '+' !in b
    requires StartsWith(s, "\"") && |s| > 1 && s[1] == a[0] && s[1..] == a + u
    requires StartsWith(u, "\"") && u[1..] == " + " + rest
    requires StartsWith(rest, "\"") && rest[0] == '"' && rest[1..] == b + "\""
    ensures ApplyRule(FuseLiterals, s) == [s[0]] + (a + ([] + (b + "\"")))
  {
    CopyBlocked(FuseLiterals, s);
    LeadSkip(FuseLiterals, a, u);
    ApplyRuleSpaced(FuseLiterals, u, rest);
    LeadSkip(FuseLiterals, b, "\"");
    ApplyRulePlusFree(FuseLiterals, "\"");
  }

  /** Helper: `"a" + "b"` holds no two adjacent quotes and no backtick. */
  lemma FusePairFree(a: string, b: string, s: string)
    requires a != [] && b != [] && '"' !in a && '"' !in b && '`' !in a && '`' !in b
    requires s == "\"" + a + "\" + \"" + b + "\""
    ensures QuotePairFree(s) && '`' !in s
  {
    var x1 := "\"" + a;
    var x2 := x1 + "\" + \"";
    var x3 := x2 + b;
    assert QuotePairFree("\"");
    QuoteFreePairFree(a);
    QuoteFreePairFree(b);
    QuotePairFreeConcat("\"", a) by {
      assert a[0] in a;
    }
    assert EndsClear(x1) by {
      assert x1[|x1| - 1] == a[|a| - 1] && a[|a| - 1] in a;
    }
    AppendAfterClear(x1, "\" + \"");
    QuotePairFreeConcat(x2, b) by {
      assert b[0] in b;
    }
    assert EndsClear(x3) by {
      assert x3[|x3| - 1] == b[|b| - 1] && b[|b| - 1] in b;
    }
    AppendAfterClear(x3, "\"");
    assert forall c | c in s :: c in a || c in b || c in "\" +";
  }

  /** The clean-ups run over ordinary code too: two adjacent string
      literals joined by a plus, `"a" + "b"`, are fused into `"ab"`. */
  lemma ConvertFileFusesCode(a: string, b: string)
    requires Plain(a) && Plain(b) && a != [] && b != []
    ensures ConvertFile("\"" + a + "\" + \"" + b + "\"") == "\"" + a + b + "\""
  {
    PlainFacts(a);
    PlainFacts(b);
    PlainMore(a);
    PlainMore(b);
    var s := "\"" + a + "\" + \"" + b + "\"";
    var rest := "\"" + (b + "\"");
    var u := "\"" + (" + " + rest);
    FusePairFree(a, b, s);
    ScanCodeOnly(s);
    QuotePairRuleIdle(DropEmptyFront, s);
    QuotePairRuleIdle(DropEmptyBack, s);
    FuseText(a, b, s, u, rest);
    FuseOn(a, b, s, u, rest);
  }
}
