/** The two text rewrites the template converters share.

    `SubHoles` is the hole substitution `\$\{([^}]+)\}` -> `" + (\1) + "` that
    convert-templates.py and fix-backticks.js both apply to a literal's content.

    A `PlusRule` is one of the clean-up substitutions `lead\s*\+\s*trail` ->
    `repl`, applied left to right to non-overlapping matches, as `re.sub` and a
    global JavaScript `replace` do. */
module Rewrite {
  import opened Wrappers
  import opened Text

  /** What a hole with expression `e` becomes: close the string, add `(e)`,
      reopen the string. */
  function Splice(e: string): string {
    "\" + (" + e + ") + \""
  }

  /** No `$` immediately followed by `{`. */
  predicate NoOpener(s: string) {
    forall i | 0 <= i < |s| - 1 :: !(s[i] == '$' && s[i + 1] == '{')
  }

  /** The hole substitution. A hole needs at least one character before the
      first `}` after `${`, so `${}` and an unclosed `${` stay as written. */
  function SubHoles(s: string): (r: string)
    decreases |s|
  {
    if s == [] then []
    else if |s| >= 2 && s[0] == '$' && s[1] == '{' then
      match CutAt(s[2..], '}')
      case Some(h) =>
        if h.before != [] then
          Splice(h.before) + SubHoles(h.after)
        else
          [s[0]] + SubHoles(s[1..])
      case None => [s[0]] + SubHoles(s[1..])
    else
      [s[0]] + SubHoles(s[1..])
  }

  /** Text without any `${`, or without any `}`, is returned unchanged. */
  lemma {:induction false} SubHolesIdle(s: string)
    requires NoOpener(s) || '}' !in s
    ensures SubHoles(s) == s
    decreases |s|
  {
    if s != [] {
      assert NoOpener(s) ==> NoOpener(s[1..]) by {
        assert forall i | 0 <= i < |s| - 1 :: s[1..][i] == s[i + 1];
      }
      if |s| >= 2 && s[0] == '$' && s[1] == '{' {
        assert '}' !in s[2..];
        CutAtShape(s[2..], '}');
      }
      SubHolesIdle(s[1..]);
      assert s == [s[0]] + s[1..];
    }
  }

  /** Helper: a character other than `$` is copied. */
  lemma SubHolesCopy(s: string)
    requires s != [] && s[0] != '$'
    ensures SubHoles(s) == [s[0]] + SubHoles(s[1..])
  {
  }

  /** Text with no `$` passes through the substitution untouched, whatever follows. */
  lemma {:induction false} SubHolesDollarFree(t: string, rest: string)
    requires '$' !in t
    ensures SubHoles(t + rest) == t + SubHoles(rest)
    decreases |t|
  {
    if t != [] {
      var s := t + rest;
      assert s[0] == t[0];
      SubHolesCopy(s);
      assert s[1..] == t[1..] + rest;
      SubHolesDollarFree(t[1..], rest);
      assert t == [t[0]] + t[1..];
    } else {
      assert t + rest == rest;
    }
  }

  /** A well-formed hole is replaced by its splice, whatever follows. */
  lemma SubHolesHole(e: string, rest: string)
    requires e != [] && '}' !in e
    ensures SubHoles("${" + e + "}" + rest) == Splice(e) + SubHoles(rest)
  {
    var s := "${" + e + "}" + rest;
    assert s[2..] == e + ['}'] + rest;
    CutAtFirst(e, '}', rest);
  }

  /** `${}` is not a hole: the three characters are kept, whatever follows. */
  lemma SubHolesEmptyHole(rest: string)
    ensures SubHoles("${}" + rest) == "${}" + SubHoles(rest)
  {
    var s := "${}" + rest;
    EmptyHoleText(rest, s);
    SubHolesEmptyOpener(s);
    SubHolesDollarFree("{}", rest);
    EmptyHoleText(SubHoles(rest), "${}" + SubHoles(rest));
  }

  /** Helper: the pieces of `${}` and what follows. */
  lemma EmptyHoleText(rest: string, s: string)
    requires s == "${}" + rest
    ensures |s| >= 3 && s[0] == '$' && s[1] == '{' && s[2] == '}' && s[1..] == "{}" + rest
    ensures "$" + ("{}" + rest) == s
  {
    assert s[1..] == "{}" + rest;
  }

  /** Helper: `${` directly followed by `}` keeps the `$`. */
  lemma SubHolesEmptyOpener(s: string)
    requires |s| >= 3 && s[0] == '$' && s[1] == '{' && s[2] == '}'
    ensures SubHoles(s) == "$" + SubHoles(s[1..])
  {
    assert s[2..][0] == '}';
    CutAtFirst([], '}', s[3..]);
    assert s[2..] == [] + ['}'] + s[3..];
  }

  /** The substitution adds only the characters of the splice skeleton. */
  lemma {:induction false} SubHolesAvoids(s: string, c: char)
    requires c !in s && c !in "\" + ()"
    ensures c !in SubHoles(s)
    decreases |s|
  {
    if s != [] {
      assert c !in s[1..];
      SubHolesAvoids(s[1..], c);
      if |s| >= 2 && s[0] == '$' && s[1] == '{' {
        CutAtShape(s[2..], '}');
        match CutAt(s[2..], '}')
        case Some(h) =>
          assert c !in s[2..];
          SubHolesAvoids(h.after, c);
        case None =>
      }
    }
  }

  /** A template literal's content seen as literal text and `${...}` holes. */
  datatype Piece = Lit(text: string) | Hole(expr: string)

  function RenderPiece(p: Piece): string {
    match p
    case Lit(t) => t
    case Hole(e) => "${" + e + "}"
  }

  function SplicePiece(p: Piece): string {
    match p
    case Lit(t) => t
    case Hole(e) => Splice(e)
  }

  /** The template content as written in the source file. */
  function Render(ps: seq<Piece>): string
    decreases |ps|
  {
    if ps == [] then [] else RenderPiece(ps[0]) + Render(ps[1..])
  }

  /** The content with every hole replaced by its splice. */
  function Spliced(ps: seq<Piece>): string
    decreases |ps|
  {
    if ps == [] then [] else SplicePiece(ps[0]) + Spliced(ps[1..])
  }

  /** Pieces the hole pattern reads back as written: holes with a non-empty,
      `}`-free expression and literal text without `$`, so that no `${`
      forms across a piece boundary. */
  predicate Regular(ps: seq<Piece>) {
    forall i | 0 <= i < |ps| ::
      match ps[i]
      case Lit(t) => '$' !in t
      case Hole(e) => e != [] && '}' !in e
  }

  /** The substitution turns exactly the holes of a regular template into
      splices and keeps the literal text. */
  lemma {:induction false} SubHolesRender(ps: seq<Piece>)
    requires Regular(ps)
    ensures SubHoles(Render(ps)) == Spliced(ps)
    decreases |ps|
  {
    if ps != [] {
      assert Regular(ps[1..]) by {
        forall i | 0 <= i < |ps[1..]| ensures ps[1..][i] == ps[i + 1] { }
      }
      SubHolesRender(ps[1..]);
      match ps[0]
      case Lit(t) =>
        SubHolesDollarFree(t, Render(ps[1..]));
      case Hole(e) =>
        assert Render(ps) == "${" + e + "}" + Render(ps[1..]);
        SubHolesHole(e, Render(ps[1..]));
    }
  }

  /** `\s*\+\s*`: whitespace around exactly one plus sign. */
  predicate IsGap(g: string) {
    multiset(g)['+'] == 1 && forall i | 0 <= i < |g| :: g[i] == '+' || IsSpace(g[i])
  }

  /** The regular expression `lead\s*\+\s*trail`, replaced by `repl`. */
  datatype PlusRule = PlusRule(lead: string, trail: string, repl: string)

  /** Length of the greedy `\s*\+\s*` at the very start of `s`, if any. */
  function GapLen(s: string): (n: Option<nat>)
    ensures n.Some? ==> 0 < n.value <= |s|
  {
    var a := SpanLen(s);
    if a < |s| && s[a] == '+' then
      Some(a + 1 + SpanLen(s[a + 1..]))
    else
      None
  }

  /** Helper: ` + ` followed by a non-blank is a gap of three. */
  lemma GapSpaced(rest: string)
    requires rest == [] || !IsSpace(rest[0])
    ensures GapLen(" + " + rest) == Some(3)
  {
    var s := " + " + rest;
    assert s[1..] == "+ " + rest;
    assert SpanLen(s) == 1;
    assert s[2..] == " " + rest;
    assert s[2..][1..] == rest;
    assert SpanLen(s[2..]) == 1;
  }

  /** Helper: no gap starts at a character that is neither whitespace nor a plus. */
  lemma GapBlocked(s: string)
    requires s != [] && !IsSpace(s[0]) && s[0] != '+'
    ensures GapLen(s).None?
  {
    assert SpanLen(s) == 0;
  }

  /** Length of the match of `r` at the very start of `s`. The greedy `\s*`
      cannot be backtracked into a different match because whitespace, `+`,
      and the first character of every trail used here are distinct. */
  function MatchRule(r: PlusRule, s: string): (m: Option<nat>)
    ensures m.Some? ==> |r.lead| < m.value <= |s|
  {
    if StartsWith(s, r.lead) then
      match GapLen(s[|r.lead|..])
      case Some(g) =>
        var b := |r.lead| + g;
        if StartsWith(s[b..], r.trail) then
          Some(b + |r.trail|)
        else
          None
      case None => None
    else
      None
  }

  /** Helper: whitespace, a plus, whitespace is a gap. */
  lemma GapOf(g: string, k: nat)
    requires k < |g| && g[k] == '+'
    requires AllSpace(g[..k]) && AllSpace(g[k + 1..])
    ensures IsGap(g)
  {
    assert g == g[..k] + [g[k]] + g[k + 1..];
    assert '+' !in g[..k];
    assert '+' !in g[k + 1..];
    assert multiset(g[..k])['+'] == 0;
    assert multiset(g[k + 1..])['+'] == 0;
    forall i | 0 <= i < |g| ensures g[i] == '+' || IsSpace(g[i]) {
      if i < k {
        assert g[i] == g[..k][i];
      } else if i > k {
        assert g[i] == g[k + 1..][i - k - 1];
      }
    }
  }

  /** What `GapLen` finds is a gap. */
  lemma GapLenIsGap(s: string)
    ensures GapLen(s).Some? ==> IsGap(s[..GapLen(s).value])
  {
    var a := SpanLen(s);
    if a < |s| && s[a] == '+' {
      var b := a + 1 + SpanLen(s[a + 1..]);
      SpanLenShape(s);
      SpanLenShape(s[a + 1..]);
      assert s[..b][..a] == s[..a];
      assert s[..b][a + 1..] == s[a + 1..][..b - a - 1];
      GapOf(s[..b], a);
    }
  }

  /** `GapLen` is greedy: no whitespace follows the gap it finds. */
  lemma GapLenGreedy(s: string)
    ensures GapLen(s).Some? ==> GapLen(s).value == |s| || !IsSpace(s[GapLen(s).value])
  {
    var a := SpanLen(s);
    if a < |s| && s[a] == '+' {
      var m := SpanLen(s[a + 1..]);
      SpanLenShape(s[a + 1..]);
      if a + 1 + m < |s| {
        assert s[a + 1 + m] == s[a + 1..][m];
      }
    }
  }

  /** A match is the lead, a gap, and the trail, in that order. */
  lemma MatchRuleShape(r: PlusRule, s: string, n: nat)
    requires MatchRule(r, s) == Some(n)
    ensures |r.lead| < n - |r.trail| && s[..|r.lead|] == r.lead
    ensures s[n - |r.trail|..n] == r.trail && IsGap(s[|r.lead|..n - |r.trail|])
  {
    var g := GapLen(s[|r.lead|..]).value;
    StartsWithSlice(s, r.lead);
    TrailAt(s, |r.lead| + g, r.trail);
    GapAt(s, |r.lead|, g);
  }

  /** Helper: the trail `t` found at `b` is the slice there. */
  lemma TrailAt(s: string, b: nat, t: string)
    requires b <= |s| && StartsWith(s[b..], t)
    ensures b + |t| <= |s| && s[b..b + |t|] == t
  {
    StartsWithSlice(s[b..], t);
    SliceOfSuffix(s, b, |t|);
  }

  /** Helper: the gap found at `a` is a gap. */
  lemma GapAt(s: string, a: nat, g: nat)
    requires a <= |s| && GapLen(s[a..]) == Some(g)
    ensures a + g <= |s| && IsGap(s[a..a + g])
  {
    GapLenIsGap(s[a..]);
    SliceOfSuffix(s, a, g);
  }


  /** Helper: every match contains a plus sign. */
  lemma MatchNeedsPlus(r: PlusRule, s: string)
    ensures MatchRule(r, s).Some? ==> '+' in s
  {
    if StartsWith(s, r.lead) {
      var a := |r.lead| + SpanLen(s[|r.lead|..]);
      if a < |s| && s[a] == '+' {
        assert s[|r.lead|..][a - |r.lead|] == s[a];
      }
    }
  }

  /** Every match of `r`, scanning left to right, replaced by `r.repl`. */
  function ApplyRule(r: PlusRule, s: string): (t: string)
    decreases |s|
  {
    if s == [] then []
    else
      match MatchRule(r, s)
      case Some(n) =>
        r.repl + ApplyRule(r, s[n..])
      case None => [s[0]] + ApplyRule(r, s[1..])
  }

  /** Text without a plus sign is never touched. */
  lemma {:induction false} ApplyRulePlusFree(r: PlusRule, s: string)
    requires '+' !in s
    ensures ApplyRule(r, s) == s
    decreases |s|
  {
    if s != [] {
      MatchNeedsPlus(r, s);
      assert '+' !in s[1..];
      ApplyRulePlusFree(r, s[1..]);
      assert s == [s[0]] + s[1..];
    }
  }

  /** Helper: the tail of a concatenation. */
  lemma SliceAfter(p: string, x: string)
    ensures (p + x)[|p|..] == x
  {
  }

  /** Helper: regrouping a three-part concatenation. */
  lemma Regroup(a: string, b: string, c: string)
    ensures a + b + c == a + (b + c)
  {
  }

  /** The lead, ` + `, and text starting with the trail: the match is
      replaced and scanning resumes after the trail. */
  lemma ApplyRuleSpaced(r: PlusRule, s: string, rest: string)
    requires StartsWith(rest, r.trail) && (rest == [] || !IsSpace(rest[0]))
    requires StartsWith(s, r.lead) && s[|r.lead|..] == " + " + rest
    ensures ApplyRule(r, s) == r.repl + ApplyRule(r, rest[|r.trail|..])
  {
    MatchSpaced(r, s, rest);
    SliceShift(s, |r.lead|, " + " + rest, 3 + |r.trail|);
    SliceAfter(" + ", rest);
    SliceShift(" + " + rest, 3, rest, |r.trail|);
    ApplyRuleFire(r, s, |r.lead| + 3 + |r.trail|, rest[|r.trail|..]);
  }

  /** Helper: a text split as the lead, ` + ` and the rest. */
  lemma SpacedParts(lead: string, rest: string, s: string)
    requires s == lead + (" + " + rest)
    ensures StartsWith(s, lead) && s[|lead|..] == " + " + rest
  {
    StartsWithConcat(lead, " + " + rest);
    SliceAfter(lead, " + " + rest);
  }

  /** Helper: slicing further into a known suffix. */
  lemma SliceShift(s: string, a: nat, x: string, k: nat)
    requires a <= |s| && s[a..] == x && k <= |x|
    ensures s[a + k..] == x[k..]
  {
  }

  /** Helper: where no match starts, the first character is copied. */
  lemma ApplyRuleCopy(r: PlusRule, s: string)
    requires s != [] && MatchRule(r, s).None?
    ensures ApplyRule(r, s) == [s[0]] + ApplyRule(r, s[1..])
  {
  }

  /** Helper: where a match starts, it is replaced and scanning resumes after it. */
  lemma ApplyRuleFire(r: PlusRule, s: string, n: nat, tail: string)
    requires s != [] && MatchRule(r, s) == Some(n)
    requires n <= |s| && s[n..] == tail
    ensures ApplyRule(r, s) == r.repl + ApplyRule(r, tail)
  {
  }

  /** Helper: text not starting with the lead has its first character copied. */
  lemma CopyNoLead(r: PlusRule, s: string)
    requires s != [] && !StartsWith(s, r.lead)
    ensures ApplyRule(r, s) == [s[0]] + ApplyRule(r, s[1..])
  {
    MatchNeedsLead(r, s);
    ApplyRuleCopy(r, s);
  }

  /** Helper: the lead followed by neither whitespace nor a plus: the first
      character is copied. */
  lemma CopyBlocked(r: PlusRule, s: string)
    requires StartsWith(s, r.lead) && |r.lead| < |s|
    requires !IsSpace(s[|r.lead|]) && s[|r.lead|] != '+'
    ensures ApplyRule(r, s) == [s[0]] + ApplyRule(r, s[1..])
  {
    MatchBlocked(r, s);
    ApplyRuleCopy(r, s);
  }

  /** Helper: the lead and ` + ` followed by something other than the trail:
      the first character is copied. */
  lemma CopyUnmatched(r: PlusRule, s: string, rest: string)
    requires rest == [] || !IsSpace(rest[0])
    requires StartsWith(s, r.lead) && s[|r.lead|..] == " + " + rest
    requires !StartsWith(rest, r.trail)
    ensures ApplyRule(r, s) == [s[0]] + ApplyRule(r, s[1..])
  {
    MatchSpaced(r, s, rest);
    ApplyRuleCopy(r, s);
  }

  /** Helper: no match when the lead is followed by something other than
      whitespace or a plus. */
  lemma MatchBlocked(r: PlusRule, s: string)
    requires StartsWith(s, r.lead) && |r.lead| < |s|
    requires !IsSpace(s[|r.lead|]) && s[|r.lead|] != '+'
    ensures MatchRule(r, s).None?
  {
    assert s[|r.lead|..][0] == s[|r.lead|];
    GapBlocked(s[|r.lead|..]);
  }

  /** Helper: a match assembled from its three parts. */
  lemma MatchOf(r: PlusRule, s: string, g: nat)
    requires StartsWith(s, r.lead) && GapLen(s[|r.lead|..]) == Some(g)
    ensures StartsWith(s[|r.lead| + g..], r.trail) ==> MatchRule(r, s) == Some(|r.lead| + g + |r.trail|)
    ensures !StartsWith(s[|r.lead| + g..], r.trail) ==> MatchRule(r, s).None?
  {
  }

  /** Helper: the lead, then ` + `, then text not starting with whitespace:
      a match exactly when that text starts with the trail. */
  lemma MatchSpaced(r: PlusRule, s: string, rest: string)
    requires rest == [] || !IsSpace(rest[0])
    requires StartsWith(s, r.lead) && s[|r.lead|..] == " + " + rest
    ensures StartsWith(rest, r.trail) ==> MatchRule(r, s) == Some(|r.lead| + 3 + |r.trail|)
    ensures !StartsWith(rest, r.trail) ==> MatchRule(r, s).None?
  {
    GapSpaced(rest);
    SliceAfter(" + ", rest);
    assert s[|r.lead| + 3..] == (" + " + rest)[3..] == rest;
    MatchOf(r, s, 3);
  }

  /** Whether a match of `r` may begin with character `c`. */
  predicate CanStart(r: PlusRule, c: char) {
    if r.lead != [] then c == r.lead[0] else IsSpace(c) || c == '+'
  }

  /** Helper: no match where the text does not start with the lead. */
  lemma MatchNeedsLead(r: PlusRule, s: string)
    requires !StartsWith(s, r.lead)
    ensures MatchRule(r, s).None?
  {
  }

  /** A character that cannot begin a match does not. */
  lemma NoMatchAtStart(r: PlusRule, s: string)
    requires s != [] && !CanStart(r, s[0])
    ensures MatchRule(r, s).None?
  {
    if r.lead == [] {
      assert s[|r.lead|..] == s;
      GapBlocked(s);
    }
  }

  /** A prefix none of whose characters can begin a match is copied as is. */
  lemma {:induction false} ApplyRuleSkip(r: PlusRule, a: string, b: string)
    requires forall i | 0 <= i < |a| :: !CanStart(r, a[i])
    ensures ApplyRule(r, a + b) == a + ApplyRule(r, b)
    decreases |a|
  {
    if a != [] {
      var s := a + b;
      SkipTail(r, a);
      Uncons(a, b);
      NoMatchAtStart(r, s);
      ApplyRuleCopy(r, s);
      ApplyRuleSkip(r, a[1..], b);
      Recons(a, ApplyRule(r, b));
    } else {
      assert a + b == b;
    }
  }

  /** Helper: the first character and the rest of a text that cannot start a
      match. */
  lemma SkipTail(r: PlusRule, a: string)
    requires a != [] && forall i | 0 <= i < |a| :: !CanStart(r, a[i])
    ensures !CanStart(r, a[0]) && forall i | 0 <= i < |a[1..]| :: !CanStart(r, a[1..][i])
  {
    assert forall i | 0 <= i < |a[1..]| :: a[1..][i] == a[i + 1];
  }

  /** A prefix free of the lead's first character is copied as is. */
  lemma LeadSkip(r: PlusRule, a: string, b: string)
    requires r.lead != [] && r.lead[0] !in a
    ensures ApplyRule(r, a + b) == a + ApplyRule(r, b)
  {
    forall i | 0 <= i < |a| ensures !CanStart(r, a[i]) {
      assert a[i] in a;
    }
    ApplyRuleSkip(r, a, b);
  }

  /** Text in which no position starts a match is left unchanged. */
  lemma {:induction false} ApplyRuleNoMatch(r: PlusRule, s: string)
    requires forall i | 0 <= i < |s| :: MatchRule(r, s[i..]).None?
    ensures ApplyRule(r, s) == s
    decreases |s|
  {
    if s != [] {
      assert s[0..] == s;
      assert forall i | 0 <= i < |s| - 1 :: s[1..][i..] == s[i + 1..];
      ApplyRuleNoMatch(r, s[1..]);
    }
  }

  /** No two adjacent double quotes. */
  predicate QuotePairFree(s: string) {
    forall i | 0 <= i < |s| - 1 :: !(s[i] == '"' && s[i + 1] == '"')
  }

  lemma QuoteFreePairFree(s: string)
    requires '"' !in s
    ensures QuotePairFree(s)
  {
    forall i | 0 <= i < |s| - 1 ensures s[i] != '"' {
      assert s[i] in s;
    }
  }

  lemma QuotePairFreeConcat(a: string, b: string)
    requires QuotePairFree(a) && QuotePairFree(b)
    requires a == [] || b == [] || a[|a| - 1] != '"' || b[0] != '"'
    ensures QuotePairFree(a + b)
  {
    var s := a + b;
    forall i | 0 <= i < |s| - 1 ensures !(s[i] == '"' && s[i + 1] == '"') {
      if i + 1 < |a| {
        assert s[i] == a[i] && s[i + 1] == a[i + 1];
      } else if i >= |a| {
        assert s[i] == b[i - |a|] && s[i + 1] == b[i - |a| + 1];
      }
    }
  }

  /** Helper: appending quote-free text keeps a text free of `""`, and the
      result ends in a quote only if the text did and nothing was added. */
  lemma AppendQuoteFree(x: string, y: string)
    requires QuotePairFree(x) && '"' !in y
    ensures QuotePairFree(x + y)
    ensures EndsClear(x) ==> EndsClear(x + y)
    ensures y != [] ==> EndsClear(x + y)
  {
    if y != [] {
      assert y[0] in y && y[|y| - 1] in y;
    }
    QuoteFreePairFree(y);
    QuotePairFreeConcat(x, y);
  }

  /** Helper: appending a text free of `""` after one that does not end in a
      quote. */
  lemma AppendAfterClear(x: string, y: string)
    requires QuotePairFree(x) && QuotePairFree(y) && EndsClear(x)
    ensures QuotePairFree(x + y) && (y != [] ==> (x + y)[|x + y| - 1] == y[|y| - 1])
  {
    QuotePairFreeConcat(x, y);
  }

  /** The text is empty or does not end in a quote. */
  predicate EndsClear(x: string) {
    x == [] || x[|x| - 1] != '"'
  }

  /** Helper: a match of a rule with `""` in it shows two adjacent quotes. */
  lemma MatchNeedsQuotePair(r: PlusRule, t: string)
    requires r.lead == "\"\"" || r.trail == "\"\""
    ensures MatchRule(r, t).Some? ==> !QuotePairFree(t)
  {
    if MatchRule(r, t).Some? {
      var n := MatchRule(r, t).value;
      MatchRuleShape(r, t, n);
      if r.lead == "\"\"" {
        assert t[0] == '"' && t[1] == '"';
      } else {
        assert t[n - 2..n] == "\"\"";
        assert t[n - 2] == '"' && t[n - 1] == '"';
      }
    }
  }

  /** A rule that needs an empty string literal `""` on either side of the
      plus never fires on text without two adjacent quotes. */
  lemma QuotePairRuleIdle(r: PlusRule, s: string)
    requires r.lead == "\"\"" || r.trail == "\"\""
    requires QuotePairFree(s)
    ensures ApplyRule(r, s) == s
  {
    forall i | 0 <= i < |s| ensures MatchRule(r, s[i..]).None? {
      assert QuotePairFree(s[i..]) by {
        assert forall j | 0 <= j < |s[i..]| :: s[i..][j] == s[i + j];
      }
      MatchNeedsQuotePair(r, s[i..]);
    }
    ApplyRuleNoMatch(r, s);
  }

  /** Identifier-like text: none of the characters the rewrites react to
      (whitespace, quotes, plus, dollar, braces, parentheses, backticks,
      backslashes, colons). */
  predicate PlainChar(c: char) {
    !IsSpace(c) && c !in "\"+${}()`\\:"
  }

  predicate Plain(s: string) {
    forall i | 0 <= i < |s| :: PlainChar(s[i])
  }

  /** Helper: plain text contains none of the characters the rules key on. */
  lemma PlainFacts(a: string)
    requires Plain(a)
    ensures '"' !in a && '+' !in a && '$' !in a && '\n' !in a && '(' !in a && ')' !in a && '}' !in a
    ensures a != [] ==> !IsSpace(a[0]) && a[0] != '+'
  {
    forall i | 0 <= i < |a|
      ensures a[i] != '"' && a[i] != '+' && a[i] != '$' && a[i] != '\n'
      ensures a[i] != '(' && a[i] != ')' && a[i] != '}'
    {
      assert PlainChar(a[i]);
    }
  }

  /** Helper: the rest of what plain text cannot hold. */
  lemma PlainMore(a: string)
    requires Plain(a)
    ensures '{' !in a && '`' !in a && forall i | 0 <= i < |a| :: !IsSpace(a[i])
  {
    forall i | 0 <= i < |a|
      ensures a[i] != '{' && a[i] != '`' && !IsSpace(a[i])
    {
      assert PlainChar(a[i]);
    }
  }

  /** Helper: the hole substitution on a line `a${e}b` of plain text. */
  lemma SubHolesPlainLine(a: string, e: string, b: string)
    requires Plain(a) && Plain(e) && Plain(b) && e != []
    ensures SubHoles(a + "${" + e + "}" + b) == a + Splice(e) + b
  {
    PlainFacts(a);
    PlainFacts(e);
    PlainFacts(b);
    HoleLineText(a, e, b);
    SubHolesDollarFree(a, "${" + e + "}" + b);
    SubHolesHole(e, b);
    SubHolesIdle(b);
  }

  /** Helper: regrouping the line `a${e}b` and its conversion. */
  lemma HoleLineText(a: string, e: string, b: string)
    ensures a + "${" + e + "}" + b == a + ("${" + e + "}" + b)
    ensures a + (Splice(e) + b) == a + Splice(e) + b
  {
  }
}
