/** The header keys of the student-information patterns, and the parts of
    those patterns after the key: `\s*:\s*` and the captured value. The
    line-by-line extractor of test-grader-fix.js and the whole-text
    patterns of test-regex.js are built from them.

    Every pattern has the shape `<key>\s*:\s*<value>` with the `i` flag.
    A key is made of letters, `_` and whitespace, never a colon, so in any
    match the colon is the first colon after the key's start, and the key
    alternatives match exactly when the text before that colon, with its
    trailing whitespace removed and upper-cased, is one of the key spellings
    below. */
module HeaderKeys {
  import opened Wrappers
  import opened Text

  datatype Field = Name | Id | Email | Batch | Practical

  /** `[_\s]`: the optional separator inside a key. */
  predicate Sep(c: char) {
    c == '_' || IsSpace(c)
  }

  /** `STUDENT[_\s]?<tail>`. */
  predicate StudentKey(w: string, tail: string) {
    || w == "STUDENT" + tail
    || (|w| == 8 + |tail| && w[..7] == "STUDENT" && Sep(w[7]) && w[8..] == tail)
  }

  /** `(?:NUMBER|NO|NUM)`. */
  predicate NumberWord(w: string) {
    w == "NUMBER" || w == "NO" || w == "NUM"
  }

  /** `ROLL[_\s]?(?:NUMBER|NO|NUM)?`; a whitespace separator with no word
      after it is trailing whitespace, already removed. */
  predicate RollKey(w: string) {
    && |w| >= 4 && w[..4] == "ROLL"
    && var r := w[4..];
       r == [] || r == "_" || NumberWord(r) || (Sep(r[0]) && NumberWord(r[1..]))
  }

  /** `<base>(?:\s*(?:NUMBER|NO|NUM))?`. */
  predicate BaseKey(w: string, base: string) {
    && |base| <= |w| && w[..|base|] == base
    && var r := w[|base|..];
       r == [] || NumberWord(r[SpanLen(r)..])
  }

  /** `(?:PRACTICAL|ASSIGNMENT)(?:\s*(?:NUMBER|NO|NUM))?`. */
  predicate PracticalKey(w: string) {
    BaseKey(w, "PRACTICAL") || BaseKey(w, "ASSIGNMENT")
  }

  /** Whether `w` (upper-cased, no trailing whitespace) spells a key of
      field `f`. The whole-text patterns (`loose`) also take a bare `NAME`
      and a bare `ID`. */
  predicate IsKey(f: Field, loose: bool, w: string) {
    match f
    case Name => StudentKey(w, "NAME") || (loose && w == "NAME")
    case Id => StudentKey(w, "ID") || RollKey(w) || (loose && w == "ID")
    case Email => StudentKey(w, "EMAIL") || w == "EMAIL"
    case Batch => w == "BATCH"
    case Practical => PracticalKey(w)
  }

  /** `<key>\s*:` at the start of `s`, case-insensitively: the index of the
      colon. */
  function KeyColon(f: Field, loose: bool, s: string): (c: Option<nat>)
    ensures c.Some? ==> c.value < |s|
  {
    match IndexOf(s, ':')
    case None => None
    case Some(c) => if IsKey(f, loose, TrimEnd(UpperAll(s[..c]))) then Some(c) else None
  }

  // ---------------------------------------------------------------------
  // What follows the colon

  predicate NoBreak(s: string) {
    forall i | 0 <= i < |s| :: !IsLineBreak(s[i])
  }

  /** Whether `(.+)$` (no multi-line flag) matches `u` from `k`. */
  predicate EndFits(u: string, k: nat) {
    k < |u| && NoBreak(u[k..])
  }

  /** `\s*(.+)$` (no multi-line flag) on the text after the colon: the
      greedy `\s*` gives whitespace back one character at a time until the
      rest is non-empty and holds no line break. The result is the
      capture. */
  function EndValue(u: string): Option<string> {
    EndFrom(u, SpanLen(u))
  }

  function EndFrom(u: string, j: nat): Option<string>
    requires j <= |u|
    decreases j
  {
    if EndFits(u, j) then Some(u[j..])
    else if j == 0 then None
    else EndFrom(u, j - 1)
  }

  /** What a greedy `.+` or `.*` takes: the run of characters other than line
      breaks at the start. */
  function LineLen(s: string): (n: nat)
    ensures n <= |s|
    decreases |s|
  {
    if s != [] && !IsLineBreak(s[0]) then 1 + LineLen(s[1..]) else 0
  }

  /** Where a capture starts and ends in the text after the colon. */
  datatype Capture = Capture(start: nat, end: nat)

  /** Whether `.+` can start at `k`. */
  predicate LineFits(u: string, k: nat) {
    k < |u| && !IsLineBreak(u[k])
  }

  /** `\s*(.+)` followed by nothing, or by `$` with the multi-line flag: the
      greedy `\s*` gives whitespace back until a character other than a line
      break follows, and `.+` takes the rest of that line. */
  function LineValue(u: string): Option<Capture> {
    LineFrom(u, SpanLen(u))
  }

  function LineFrom(u: string, j: nat): (r: Option<Capture>)
    requires j <= |u|
    ensures r.Some? ==> r.value.start < r.value.end <= |u|
    decreases j
  {
    if LineFits(u, j) then Some(Capture(j, j + LineLen(u[j..])))
    else if j == 0 then None
    else LineFrom(u, j - 1)
  }

  /** Length of the run of digits at the start. */
  function DigitLen(s: string): (n: nat)
    ensures n <= |s|
    decreases |s|
  {
    if s != [] && IsDigit(s[0]) then 1 + DigitLen(s[1..]) else 0
  }

  /** `\s*(\d+)`: whitespace, then the run of digits; whitespace is never a
      digit, so `\s*` gives nothing back. */
  function DigitValue(u: string): Option<string> {
    DigitsOf(u[SpanLen(u)..])
  }

  /** `(\d+)` at the start of `w`. */
  function DigitsOf(w: string): Option<string> {
    if w != [] && IsDigit(w[0]) then Some(w[..DigitLen(w)]) else None
  }

  // ---------------------------------------------------------------------
  // Keys

  /** The colon found is the first one, and the text before it spells a
      key. */
  lemma KeyColonShape(f: Field, loose: bool, s: string, c: nat)
    requires KeyColon(f, loose, s) == Some(c)
    ensures c < |s| && s[c] == ':' && ':' !in s[..c]
    ensures IsKey(f, loose, TrimEnd(UpperAll(s[..c])))
  {
    IndexOfShape(s, ':');
  }

  /** Conversely, the first colon is found exactly when a key is spelled
      before it. */
  lemma KeyColonOf(f: Field, loose: bool, a: string, rest: string)
    requires ':' !in a
    ensures KeyColon(f, loose, a + [':'] + rest) ==
      if IsKey(f, loose, TrimEnd(UpperAll(a))) then Some(|a|) else None
  {
    IndexOfAfter(a, ':', rest);
    assert (a + [':'] + rest)[..|a|] == a;
  }

  /** Every key starts with the first letter of one of its words, so a line
      starting with anything else has no key at its start. */
  lemma KeyInitial(f: Field, loose: bool, w: string)
    requires IsKey(f, loose, w)
    ensures w != [] && w[0] in "SREBPANI"
    ensures !loose ==> w[0] in "SREBPA"
  {
    match f
    case Name =>
      if !(loose && w == "NAME") {
        StudentInitial(w, "NAME");
      }
    case Id =>
      if StudentKey(w, "ID") {
        StudentInitial(w, "ID");
      } else if RollKey(w) {
        assert w[0] == w[..4][0];
      }
    case Email =>
      if StudentKey(w, "EMAIL") {
        StudentInitial(w, "EMAIL");
      }
    case Batch =>
    case Practical =>
      if BaseKey(w, "PRACTICAL") {
        assert w[0] == w[..9][0];
      } else {
        assert w[0] == w[..10][0];
      }
  }

  /** Helper: a `STUDENT` key starts with `S`. */
  lemma StudentInitial(w: string, tail: string)
    requires StudentKey(w, tail)
    ensures w != [] && w[0] == 'S'
  {
    if w != "STUDENT" + tail {
      assert w[0] == w[..7][0];
    }
  }

  /** The strict keys of different fields never spell the same text: a
      line carries the key of at most one field. */
  lemma KeysDisjoint(f: Field, g: Field, w: string)
    requires IsKey(f, false, w) && IsKey(g, false, w)
    ensures f == g
  {
    KeyMarks(f, w);
    KeyMarks(g, w);
  }

  /** Helper: the first and last letters that tell the strict keys apart. */
  lemma KeyMarks(f: Field, w: string)
    requires IsKey(f, false, w)
    ensures w != []
    ensures f == Name ==> w[0] == 'S' && w[|w| - 1] == 'E'
    ensures f == Id ==> w[0] == 'R' || (w[0] == 'S' && w[|w| - 1] == 'D')
    ensures f == Email ==> (w[0] == 'S' || w[0] == 'E') && w[|w| - 1] == 'L'
    ensures f == Batch ==> w[0] == 'B'
    ensures f == Practical ==> w[0] == 'P' || w[0] == 'A'
  {
    KeyInitial(f, false, w);
    match f
    case Name => StudentLast(w, "NAME");
    case Id =>
      if StudentKey(w, "ID") {
        StudentLast(w, "ID");
      } else {
        assert w[0] == w[..4][0];
      }
    case Email =>
      if StudentKey(w, "EMAIL") {
        StudentLast(w, "EMAIL");
      }
    case Batch =>
    case Practical =>
  }

  /** Helper: a `STUDENT` key starts with `S` and ends like its tail. */
  lemma StudentLast(w: string, tail: string)
    requires StudentKey(w, tail) && tail != []
    ensures w != [] && w[0] == 'S' && w[|w| - 1] == tail[|tail| - 1]
  {
    StudentInitial(w, tail);
    if w != "STUDENT" + tail {
      assert w[|w| - 1] == w[8..][|tail| - 1];
    }
  }

  /** The three spellings of the student-name key. */
  lemma NameSpellings(f: Field, loose: bool, c: char)
    requires f == Name && Sep(c)
    ensures IsKey(f, loose, "STUDENT_NAME") && IsKey(f, loose, "STUDENTNAME")
    ensures IsKey(f, loose, "STUDENT" + [c] + "NAME")
    ensures loose ==> IsKey(f, loose, "NAME")
  {
    var w := "STUDENT" + [c] + "NAME";
    assert w[..7] == "STUDENT" && w[8..] == "NAME";
    var u := "STUDENT_NAME";
    assert u[..7] == "STUDENT" && u[8..] == "NAME";
  }

  /** The roll-number spellings of the identifier key. */
  lemma RollSpellings(c: char, n: string)
    requires Sep(c) && NumberWord(n)
    ensures IsKey(Id, false, "ROLL") && IsKey(Id, false, "ROLL" + n)
    ensures IsKey(Id, false, "ROLL" + [c] + n)
  {
    var w := "ROLL" + [c] + n;
    assert w[..4] == "ROLL" && w[4..] == [c] + n && w[4..][1..] == n;
    var v := "ROLL" + n;
    assert v[..4] == "ROLL" && v[4..] == n;
  }

  /** The practical key: either word, then optionally whitespace and a
      number word. */
  lemma PracticalSpellings(base: string, gap: string, n: string)
    requires base == "PRACTICAL" || base == "ASSIGNMENT"
    requires AllSpace(gap) && NumberWord(n)
    ensures IsKey(Practical, false, base) && IsKey(Practical, false, base + gap + n)
  {
    var w := base + gap + n;
    assert w[..|base|] == base && w[|base|..] == gap + n;
    assert !IsSpace(n[0]);
    SpanAllSpace(gap, n);
    assert base[..|base|] == base;
  }

  /** Helper: `\s*` takes exactly a whitespace run followed by something
      else. */
  lemma {:induction false} SpanAllSpace(gap: string, n: string)
    requires AllSpace(gap) && n != [] && !IsSpace(n[0])
    ensures SpanLen(gap + n) == |gap| && (gap + n)[|gap|..] == n
    decreases |gap|
  {
    var s := gap + n;
    if gap != [] {
      assert s[0] == gap[0] && IsSpace(s[0]);
      assert s[1..] == gap[1..] + n;
      SpanAllSpace(gap[1..], n);
    } else {
      assert s == n;
    }
  }

  // ---------------------------------------------------------------------
  // Values

  /** The capture of `\s*(.+)$` is a non-empty end of the text without line
      breaks, preceded only by whitespace, and starts as late as the
      backtracking allows. */
  lemma {:induction false} EndFromShape(u: string, j: nat, v: string)
    requires j <= |u| && EndFrom(u, j) == Some(v)
    ensures v != [] && |v| <= |u| && |u| - |v| <= j && v == u[|u| - |v|..] && NoBreak(v)
    ensures forall k | |u| - |v| < k <= j :: !EndFits(u, k)
    decreases j
  {
    if !EndFits(u, j) {
      EndFromShape(u, j - 1, v);
    }
  }

  /** `\s*(.+)$` fails only when no start the backtracking tries fits. */
  lemma {:induction false} EndFromNone(u: string, j: nat)
    requires j <= |u| && EndFrom(u, j).None?
    ensures forall k | 0 <= k <= j :: !EndFits(u, k)
    decreases j
  {
    if j > 0 {
      EndFromNone(u, j - 1);
    }
  }

  /** On text that does not end in whitespace (what follows the colon in a
      trimmed line), `\s*(.+)$` captures the text with its leading
      whitespace removed, and fails when that is empty or holds a line
      break. */
  lemma EndValueTrimmed(u: string)
    requires u == [] || !IsSpace(u[|u| - 1])
    ensures Trim(u) == u[SpanLen(u)..]
    ensures EndValue(u) == if Trim(u) != [] && NoBreak(Trim(u)) then Some(Trim(u)) else None
  {
    if u != [] {
      TrimLastKept(u);
      if NoBreak(u[SpanLen(u)..]) {
        assert EndFits(u, SpanLen(u));
      } else {
        EndTrimmedBreak(u);
      }
    }
  }

  /** Helper: trimming text that ends in a non-blank only drops its front. */
  lemma TrimLastKept(u: string)
    requires u != [] && !IsSpace(u[|u| - 1])
    ensures SpanLen(u) < |u| && Trim(u) == u[SpanLen(u)..]
  {
    var n := SpanLen(u);
    SpanLenBefore(u, |u| - 1);
    var w := u[n..];
    assert w[|w| - 1] == u[|u| - 1];
  }

  /** Helper: a line break after the leading whitespace defeats `(.+)$`. */
  lemma EndTrimmedBreak(u: string)
    requires SpanLen(u) < |u| && !NoBreak(u[SpanLen(u)..])
    ensures EndValue(u).None?
  {
    var n := SpanLen(u);
    var w := u[n..];
    var i :| 0 <= i < |w| && IsLineBreak(w[i]);
    assert u[n + i] == w[i];
    EndFromBreak(u, n, n + i);
  }

  /** Helper: `(.+)$` cannot start before a line break. */
  lemma {:induction false} EndFromBreak(u: string, j: nat, p: nat)
    requires j <= p < |u| && IsLineBreak(u[p])
    ensures EndFrom(u, j).None?
    decreases j
  {
    assert u[j..][p - j] == u[p];
    if j > 0 {
      EndFromBreak(u, j - 1, p);
    }
  }

  /** The run `.+` takes holds no line break and stops at one or at the end. */
  lemma {:induction false} LineLenShape(s: string)
    ensures NoBreak(s[..LineLen(s)])
    ensures LineLen(s) == |s| || IsLineBreak(s[LineLen(s)])
    decreases |s|
  {
    if s != [] && !IsLineBreak(s[0]) {
      LineLenShape(s[1..]);
      assert s[..LineLen(s)] == [s[0]] + s[1..][..LineLen(s[1..])];
    }
  }

  /** The capture of `\s*(.+)` starts as late as the backtracking allows, at
      a character other than a line break, and runs to the end of that
      line. */
  lemma {:induction false} LineFromShape(u: string, j: nat, c: Capture)
    requires j <= |u| && LineFrom(u, j) == Some(c)
    ensures c.start <= j && LineFits(u, c.start) && c.end == c.start + LineLen(u[c.start..])
    ensures forall k | c.start < k <= j :: !LineFits(u, k)
    decreases j
  {
    if !LineFits(u, j) {
      LineFromShape(u, j - 1, c);
    }
  }

  /** The run `\d+` takes is all digits and stops at a non-digit or the end. */
  lemma {:induction false} DigitLenShape(s: string)
    ensures forall i | 0 <= i < DigitLen(s) :: IsDigit(s[i])
    ensures DigitLen(s) == |s| || !IsDigit(s[DigitLen(s)])
    decreases |s|
  {
    if s != [] && IsDigit(s[0]) {
      DigitLenShape(s[1..]);
    }
  }

  /** The capture of `\s*(\d+)` is a non-empty run of digits right after the
      leading whitespace, and it cannot be extended. */
  lemma DigitValueShape(u: string, v: string)
    requires DigitValue(u) == Some(v)
    ensures SpanLen(u) < |u| && DigitRun(u[SpanLen(u)..], v)
  {
    var w := u[SpanLen(u)..];
    DigitsAt(w, DigitLen(w));
  }

  /** `v` is the whole run of digits that starts `w`, and is not empty. */
  predicate DigitRun(w: string, v: string) {
    && v != [] && |v| <= |w| && w[..|v|] == v
    && (forall i | 0 <= i < |v| :: IsDigit(v[i]))
    && (|v| == |w| || !IsDigit(w[|v|]))
  }

  /** Helper: the digit run of a text that starts with a digit. */
  lemma DigitsAt(w: string, k: nat)
    requires w != [] && IsDigit(w[0]) && k == DigitLen(w)
    ensures DigitRun(w, w[..k])
  {
    DigitLenShape(w);
  }
}
