/** The pure helpers of scripts/utils.js: the sanitiser of free text for a
    CSV cell, the grade statistics over the rows read back, and the
    defaulting rules that build a result row in the `save-result` command.
    Reading and writing the CSV file, the clock and the JSON inputs are
    outside the model: the rows and the parsed results are parameters. */
module CsvUtils {
  import opened Wrappers
  import opened Text

  // ---------------------------------------------------------------------
  // sanitizeText

  /** Length of the run of CR and LF at the start. */
  function BreakRun(s: string): (n: nat)
    ensures n <= |s|
    ensures s != [] && IsLineBreak(s[0]) ==> n >= 1
    decreases |s|
  {
    if s != [] && IsLineBreak(s[0]) then 1 + BreakRun(s[1..]) else 0
  }

  /** `replace(/[\r\n]+/g, ' ')`: each maximal run of line breaks becomes one
      space. */
  function FoldBreaks(s: string): string
    decreases |s|
  {
    if s == [] then []
    else if IsLineBreak(s[0]) then " " + FoldBreaks(s[BreakRun(s)..])
    else [s[0]] + FoldBreaks(s[1..])
  }

  /** `replace(/"/g, '""')`. */
  function DoubleQuotes(s: string): string
    decreases |s|
  {
    if s == [] then []
    else (if s[0] == '"' then "\"\"" else [s[0]]) + DoubleQuotes(s[1..])
  }

  /** `sanitizeText`: a missing or empty text gives the empty text;
      otherwise line breaks are folded, quotes doubled and the result
      trimmed. */
  function Sanitize(text: Option<string>): string {
    if text.None? || text.value == [] then []
    else Trim(DoubleQuotes(FoldBreaks(text.value)))
  }

  /** How often `c` occurs in `s`. */
  function Count(c: char, s: string): nat
    decreases |s|
  {
    if s == [] then 0 else (if s[0] == c then 1 else 0) + Count(c, s[1..])
  }

  /** Reading a CSV cell back: every `""` becomes `"`. */
  function Undouble(t: string): string
    decreases |t|
  {
    if t == [] then []
    else if |t| >= 2 && t[0] == '"' && t[1] == '"' then "\"" + Undouble(t[2..])
    else [t[0]] + Undouble(t[1..])
  }

  lemma {:induction false} BreakRunShape(s: string)
    ensures forall i | 0 <= i < BreakRun(s) :: IsLineBreak(s[i])
    ensures BreakRun(s) == |s| || !IsLineBreak(s[BreakRun(s)])
    decreases |s|
  {
    if s != [] && IsLineBreak(s[0]) {
      BreakRunShape(s[1..]);
      forall i | 0 < i < BreakRun(s)
        ensures IsLineBreak(s[i])
      {
        assert s[i] == s[1..][i - 1];
      }
    }
  }

  /** No line break survives the folding. */
  lemma {:induction false} FoldNoBreak(s: string)
    ensures forall i | 0 <= i < |FoldBreaks(s)| :: !IsLineBreak(FoldBreaks(s)[i])
    decreases |s|
  {
    if s != [] {
      var n := if IsLineBreak(s[0]) then BreakRun(s) else 1;
      var h := if IsLineBreak(s[0]) then " " else [s[0]];
      FoldNoBreak(s[n..]);
      assert FoldBreaks(s) == h + FoldBreaks(s[n..]);
      forall i | 0 < i < |FoldBreaks(s)|
        ensures !IsLineBreak(FoldBreaks(s)[i])
      {
        assert FoldBreaks(s)[i] == FoldBreaks(s[n..])[i - 1];
      }
    }
  }

  /** Helper: a line without breaks is copied. */
  lemma {:induction false} FoldCopy(w: string, x: string)
    requires forall i | 0 <= i < |w| :: !IsLineBreak(w[i])
    ensures FoldBreaks(w + x) == w + FoldBreaks(x)
    decreases |w|
  {
    if w == [] {
      assert w + x == x;
    } else {
      assert (w + x)[0] == w[0] && (w + x)[1..] == w[1..] + x;
      FoldCopy(w[1..], x);
      Recons(w, FoldBreaks(x));
    }
  }

  /** Helper: a run of breaks in front of a character other than a break
      becomes one space. */
  lemma {:induction false} BreakRunOf(sep: string, y: string)
    requires forall i | 0 <= i < |sep| :: IsLineBreak(sep[i])
    requires y != [] && !IsLineBreak(y[0])
    ensures BreakRun(sep + y) == |sep|
    decreases |sep|
  {
    if sep == [] {
      assert sep + y == y;
    } else {
      assert (sep + y)[1..] == sep[1..] + y;
      BreakRunOf(sep[1..], y);
    }
  }

  /** Helper: the separator step of `FoldLines`. */
  lemma FoldSep(sep: string, y: string)
    requires sep != [] && forall i | 0 <= i < |sep| :: IsLineBreak(sep[i])
    requires y != [] && !IsLineBreak(y[0])
    ensures FoldBreaks(sep + y) == " " + FoldBreaks(y)
  {
    BreakRunOf(sep, y);
    assert (sep + y)[0] == sep[0];
    assert (sep + y)[|sep|..] == y;
  }

  /** Lines without breaks, joined by any non-empty run of CR and LF (`\n`,
      `\r\n`, blank lines), come out joined by single spaces. */
  lemma {:induction false} FoldLines(lines: seq<string>, sep: string)
    requires |lines| >= 1
    requires forall k | 0 <= k < |lines| :: lines[k] != [] && forall i | 0 <= i < |lines[k]| :: !IsLineBreak(lines[k][i])
    requires sep != [] && forall i | 0 <= i < |sep| :: IsLineBreak(sep[i])
    ensures FoldBreaks(Join(lines, sep)) == Join(lines, " ")
    decreases |lines|
  {
    if |lines| == 1 {
      FoldCopy(lines[0], []);
      assert lines[0] + [] == lines[0];
    } else {
      var rest := lines[1..];
      assert forall k | 0 <= k < |rest| :: rest[k] == lines[k + 1];
      FoldLines(rest, sep);
      var y := Join(rest, sep);
      JoinHead(rest, sep);
      FoldCopy(lines[0], sep + y);
      FoldSep(sep, y);
      assert Join(lines, sep) == lines[0] + (sep + y);
      assert Join(lines, " ") == lines[0] + (" " + Join(rest, " "));
    }
  }

  /** Helper: a join of non-empty lines starts with the first line's first
      character. */
  lemma JoinHead(lines: seq<string>, sep: string)
    requires |lines| >= 1 && lines[0] != []
    ensures Join(lines, sep) != [] && Join(lines, sep)[0] == lines[0][0]
  {
    if |lines| > 1 {
      assert (lines[0] + sep + Join(lines[1..], sep))[0] == lines[0][0];
    }
  }

  /** Counting distributes over concatenation. */
  lemma {:induction false} CountConcat(c: char, a: string, b: string)
    ensures Count(c, a + b) == Count(c, a) + Count(c, b)
    decreases |a|
  {
    if a == [] {
      assert a + b == b;
    } else {
      assert (a + b)[1..] == a[1..] + b;
      CountConcat(c, a[1..], b);
    }
  }

  /** Doubling doubles the number of quotes. */
  lemma {:induction false} DoubleCount(s: string)
    ensures Count('"', DoubleQuotes(s)) == 2 * Count('"', s)
    decreases |s|
  {
    if s != [] {
      DoubleCount(s[1..]);
      CountConcat('"', if s[0] == '"' then "\"\"" else [s[0]], DoubleQuotes(s[1..]));
    }
  }

  /** Reading the cell back gives the text before doubling. */
  lemma {:induction false} UndoubleDouble(s: string)
    ensures Undouble(DoubleQuotes(s)) == s
    decreases |s|
  {
    if s != [] {
      UndoubleDouble(s[1..]);
      var t := DoubleQuotes(s);
      var d := DoubleQuotes(s[1..]);
      if s[0] == '"' {
        assert t == "\"\"" + d;
        assert t[2..] == d;
      } else {
        assert t == [s[0]] + d;
        assert t[1..] == d;
      }
      Recons(s, []);
    }
  }

  /** Folding keeps the quotes. */
  lemma {:induction false} FoldCount(s: string)
    ensures Count('"', FoldBreaks(s)) == Count('"', s)
    decreases |s|
  {
    if s != [] {
      if IsLineBreak(s[0]) {
        var n := BreakRun(s);
        BreakRunShape(s);
        FoldCount(s[n..]);
        CountConcat('"', " ", FoldBreaks(s[n..]));
        BreakCount(s[..n]);
        assert s == s[..n] + s[n..];
        CountConcat('"', s[..n], s[n..]);
      } else {
        FoldCount(s[1..]);
        CountConcat('"', [s[0]], FoldBreaks(s[1..]));
      }
    }
  }

  /** Helper: a text of breaks or of whitespace holds no quote. */
  lemma {:induction false} BreakCount(s: string)
    requires forall i | 0 <= i < |s| :: IsSpace(s[i])
    ensures Count('"', s) == 0
    decreases |s|
  {
    if s != [] {
      BreakCount(s[1..]);
    }
  }

  /** Doubling adds no line break. */
  lemma {:induction false} DoubleNoBreak(s: string)
    requires forall i | 0 <= i < |s| :: !IsLineBreak(s[i])
    ensures forall i | 0 <= i < |DoubleQuotes(s)| :: !IsLineBreak(DoubleQuotes(s)[i])
    decreases |s|
  {
    if s != [] {
      DoubleNoBreak(s[1..]);
      var h := if s[0] == '"' then "\"\"" else [s[0]];
      var d := DoubleQuotes(s[1..]);
      assert DoubleQuotes(s) == h + d;
      forall i | 0 <= i < |h + d|
        ensures !IsLineBreak((h + d)[i])
      {
        if i >= |h| {
          assert (h + d)[i] == d[i - |h|];
        }
      }
    }
  }

  /** Trimming keeps every quote: only whitespace is cut off. */
  lemma TrimCount(s: string)
    ensures Count('"', Trim(s)) == Count('"', s)
  {
    TrimSlice(s);
    var n := SpanLen(s);
    var m := n + |Trim(s)|;
    CountThirds(s, n, m);
    BreakCount(s[..n]);
    BreakCount(s[m..]);
  }

  /** Helper: counting over three consecutive slices. */
  lemma CountThirds(s: string, n: nat, m: nat)
    requires n <= m <= |s|
    ensures Count('"', s) == Count('"', s[..n]) + Count('"', s[n..m]) + Count('"', s[m..])
  {
    var a, b, c := s[..n], s[n..m], s[m..];
    assert s == (a + b) + c;
    CountConcat('"', a + b, c);
    CountConcat('"', a, b);
  }

  /** Helper: trimming keeps a text free of breaks. */
  lemma TrimNoBreak(s: string)
    requires forall i | 0 <= i < |s| :: !IsLineBreak(s[i])
    ensures forall i | 0 <= i < |Trim(s)| :: !IsLineBreak(Trim(s)[i])
  {
    TrimSlice(s);
    var n := SpanLen(s);
    forall i | 0 <= i < |Trim(s)|
      ensures !IsLineBreak(Trim(s)[i])
    {
      assert Trim(s)[i] == s[n + i];
    }
  }

  /** The sanitised cell is empty for a missing or empty text; it holds no
      CR or LF, has no whitespace at either end, and holds exactly twice as
      many quotes as the text. */
  lemma SanitizeShape(text: Option<string>)
    ensures text.None? || text.value == [] ==> Sanitize(text) == []
    ensures forall i | 0 <= i < |Sanitize(text)| :: !IsLineBreak(Sanitize(text)[i])
    ensures Sanitize(text) == [] || (!IsSpace(Sanitize(text)[0]) && !IsSpace(Sanitize(text)[|Sanitize(text)| - 1]))
    ensures Count('"', Sanitize(text)) == if text.None? then 0 else 2 * Count('"', text.value)
  {
    if text.Some? && text.value != [] {
      var s := text.value;
      var d := DoubleQuotes(FoldBreaks(s));
      FoldNoBreak(s);
      DoubleNoBreak(FoldBreaks(s));
      TrimNoBreak(d);
      TrimEdges(d);
      FoldCount(s);
      DoubleCount(FoldBreaks(s));
      TrimCount(d);
    }
  }

  /** The lines of a text written on several lines end up on one line,
      separated by single spaces, when no quote or edge whitespace is
      involved. */
  lemma SanitizeLines(lines: seq<string>, sep: string)
    requires |lines| >= 1
    requires forall k | 0 <= k < |lines| :: lines[k] != [] && forall i | 0 <= i < |lines[k]| :: !IsLineBreak(lines[k][i]) && lines[k][i] != '"'
    requires sep != [] && forall i | 0 <= i < |sep| :: IsLineBreak(sep[i])
    requires !IsSpace(lines[0][0]) && !IsSpace(lines[|lines| - 1][|lines[|lines| - 1]| - 1])
    ensures Sanitize(Some(Join(lines, sep))) == Join(lines, " ")
  {
    FoldLines(lines, sep);
    var j := Join(lines, " ");
    JoinHead(lines, sep);
    JoinQuoteFree(lines, " ");
    DoubleIdle(j);
    JoinHead(lines, " ");
    JoinLast(lines, " ");
    TrimmedIsFixed(j);
  }

  /** Helper: a join ends with the last line's last character. */
  lemma {:induction false} JoinLast(lines: seq<string>, sep: string)
    requires |lines| >= 1 && lines[|lines| - 1] != []
    ensures Join(lines, sep) != [] && Join(lines, sep)[|Join(lines, sep)| - 1] == lines[|lines| - 1][|lines[|lines| - 1]| - 1]
    decreases |lines|
  {
    if |lines| > 1 {
      JoinLast(lines[1..], sep);
      var y := Join(lines[1..], sep);
      assert Join(lines, sep) == (lines[0] + sep) + y;
    }
  }

  /** Helper: lines and a separator without quotes join without quotes. */
  lemma {:induction false} JoinQuoteFree(lines: seq<string>, sep: string)
    requires '"' !in sep
    requires forall k | 0 <= k < |lines| :: forall i | 0 <= i < |lines[k]| :: lines[k][i] != '"'
    ensures '"' !in Join(lines, sep)
    decreases |lines|
  {
    if |lines| > 1 {
      JoinQuoteFree(lines[1..], sep);
      assert '"' !in lines[0];
    } else if |lines| == 1 {
      assert '"' !in lines[0];
    }
  }

  /** Helper: without quotes there is nothing to double. */
  lemma {:induction false} DoubleIdle(s: string)
    requires '"' !in s
    ensures DoubleQuotes(s) == s
    decreases |s|
  {
    if s != [] {
      assert s[0] in s;
      assert forall c | c in s[1..] :: c in s;
      DoubleIdle(s[1..]);
      Recons(s, []);
    }
  }

  // ---------------------------------------------------------------------
  // getStatistics

  /** A row read back from the CSV file: the cells the statistics use. */
  datatype GradeRow = GradeRow(gradeLetter: string, aiDetected: string)

  /** `{ A: 0, B: 0, C: 0, D: 0, F: 0 }`. */
  const Base: map<string, nat> := map["A" := 0, "B" := 0, "C" := 0, "D" := 0, "F" := 0]

  /** `g.gradeLetter || 'F'`. */
  function LetterOf(g: GradeRow): string {
    if g.gradeLetter == [] then "F" else g.gradeLetter
  }

  /** The count for a letter, `dist[letter] || 0`. */
  function Get(dist: map<string, nat>, letter: string): nat {
    if letter in dist then dist[letter] else 0
  }

  /** One step of the reduce. */
  function Tally(dist: map<string, nat>, g: GradeRow): map<string, nat> {
    dist[LetterOf(g) := Get(dist, LetterOf(g)) + 1]
  }

  function FoldTally(dist: map<string, nat>, grades: seq<GradeRow>): map<string, nat>
    decreases |grades|
  {
    if grades == [] then dist else FoldTally(Tally(dist, grades[0]), grades[1..])
  }

  /** The grade distribution. */
  function Distribution(grades: seq<GradeRow>): map<string, nat> {
    FoldTally(Base, grades)
  }

  /** `grades.filter(g => g.aiDetected === 'true').length`. */
  function AiDetectedCount(grades: seq<GradeRow>): nat
    decreases |grades|
  {
    if grades == [] then 0
    else (if grades[0].aiDetected == "true" then 1 else 0) + AiDetectedCount(grades[1..])
  }

  /** What `getStatistics` returns, without the average (a float). */
  datatype Statistics = Statistics(totalSubmissions: nat, aiDetectedCount: nat, gradeDistribution: map<string, nat>)

  function GetStatistics(grades: seq<GradeRow>): Statistics {
    if |grades| == 0 then Statistics(0, 0, Base)
    else Statistics(|grades|, AiDetectedCount(grades), Distribution(grades))
  }

  /** The number of rows whose letter is `letter`. */
  function Occurrences(grades: seq<GradeRow>, letter: string): nat
    decreases |grades|
  {
    if grades == [] then 0
    else (if LetterOf(grades[0]) == letter then 1 else 0) + Occurrences(grades[1..], letter)
  }

  /** The letters the rows carry. */
  function LetterSet(grades: seq<GradeRow>): set<string> {
    set i | 0 <= i < |grades| :: LetterOf(grades[i])
  }

  /** An element of a non-empty set. */
  ghost function Pick(keys: set<string>): string
    requires keys != {}
  {
    var k :| k in keys; k
  }

  /** The sum of the counts of `keys`. */
  ghost function SumOver(m: map<string, nat>, keys: set<string>): nat
    requires keys <= m.Keys
    decreases keys
  {
    if keys == {} then 0 else m[Pick(keys)] + SumOver(m, keys - {Pick(keys)})
  }

  /** The sum of all counts of a distribution. */
  ghost function Total(m: map<string, nat>): nat {
    SumOver(m, m.Keys)
  }

  /** The sum does not depend on the order the keys are taken in. */
  lemma {:induction false} SumOverPick(m: map<string, nat>, keys: set<string>, k: string)
    requires keys <= m.Keys && k in keys
    ensures SumOver(m, keys) == m[k] + SumOver(m, keys - {k})
    decreases keys
  {
    var j := Pick(keys);
    if j != k {
      SumOverPick(m, keys - {j}, k);
      SumOverPick(m, keys - {k}, j);
      assert keys - {j} - {k} == keys - {k} - {j};
    }
  }

  /** Two maps that agree on `keys` have the same sum over them. */
  lemma {:induction false} SumOverFrame(m1: map<string, nat>, m2: map<string, nat>, keys: set<string>)
    requires keys <= m1.Keys && keys <= m2.Keys
    requires forall k | k in keys :: m1[k] == m2[k]
    ensures SumOver(m1, keys) == SumOver(m2, keys)
    decreases keys
  {
    if keys != {} {
      SumOverFrame(m1, m2, keys - {Pick(keys)});
    }
  }

  /** The initial distribution sums to zero. */
  lemma {:induction false} SumOverZero(m: map<string, nat>, keys: set<string>)
    requires keys <= m.Keys && forall k | k in keys :: m[k] == 0
    ensures SumOver(m, keys) == 0
    decreases keys
  {
    if keys != {} {
      SumOverZero(m, keys - {Pick(keys)});
    }
  }

  /** One step adds one to the total. */
  lemma TallyTotal(dist: map<string, nat>, g: GradeRow)
    ensures Total(Tally(dist, g)) == Total(dist) + 1
  {
    var l := LetterOf(g);
    var t := Tally(dist, g);
    var keys := dist.Keys;
    if l in dist {
      assert t.Keys == keys;
      SumOverPick(t, keys, l);
      SumOverPick(dist, keys, l);
      SumOverFrame(t, dist, keys - {l});
    } else {
      assert t.Keys == keys + {l};
      SumOverPick(t, t.Keys, l);
      assert t.Keys - {l} == keys;
      SumOverFrame(t, dist, keys);
    }
  }

  /** The reduce adds the number of rows to the total. */
  lemma {:induction false} FoldTotal(dist: map<string, nat>, grades: seq<GradeRow>)
    ensures Total(FoldTally(dist, grades)) == Total(dist) + |grades|
    decreases |grades|
  {
    if grades != [] {
      TallyTotal(dist, grades[0]);
      FoldTotal(Tally(dist, grades[0]), grades[1..]);
    }
  }

  /** Each letter is counted once per row that carries it. */
  lemma {:induction false} FoldCounts(dist: map<string, nat>, grades: seq<GradeRow>, letter: string)
    ensures Get(FoldTally(dist, grades), letter) == Get(dist, letter) + Occurrences(grades, letter)
    decreases |grades|
  {
    if grades != [] {
      FoldCounts(Tally(dist, grades[0]), grades[1..], letter);
    }
  }

  /** Helper: the letters of the rows, first row apart. */
  lemma LetterSetCons(grades: seq<GradeRow>)
    requires grades != []
    ensures LetterSet(grades) == {LetterOf(grades[0])} + LetterSet(grades[1..])
  {
    var rest := grades[1..];
    forall l | l in LetterSet(grades)
      ensures l in {LetterOf(grades[0])} + LetterSet(rest)
    {
      var i :| 0 <= i < |grades| && LetterOf(grades[i]) == l;
      if i > 0 {
        assert LetterOf(rest[i - 1]) == l;
      }
    }
    forall l | l in LetterSet(rest)
      ensures l in LetterSet(grades)
    {
      var i :| 0 <= i < |rest| && LetterOf(rest[i]) == l;
      assert LetterOf(grades[i + 1]) == l;
    }
  }

  /** The reduce adds exactly the letters of the rows as keys. */
  lemma {:induction false} FoldKeys(dist: map<string, nat>, grades: seq<GradeRow>)
    ensures FoldTally(dist, grades).Keys == dist.Keys + LetterSet(grades)
    decreases |grades|
  {
    if grades != [] {
      FoldKeys(Tally(dist, grades[0]), grades[1..]);
      LetterSetCons(grades);
    }
  }

  /** The distribution has the five letters and every letter of a row as
      keys, counts each letter as often as rows carry it (a missing letter
      as `F`), and its counts sum to the number of rows. */
  lemma DistributionShape(grades: seq<GradeRow>)
    ensures Distribution(grades).Keys == Base.Keys + LetterSet(grades)
    ensures forall letter :: Get(Distribution(grades), letter) == Occurrences(grades, letter)
    ensures Total(Distribution(grades)) == |grades|
  {
    FoldKeys(Base, grades);
    DistributionCounts(grades);
    DistributionTotal(grades);
  }

  /** Helper: the counts, each starting from zero. */
  lemma DistributionCounts(grades: seq<GradeRow>)
    ensures forall letter :: Get(Distribution(grades), letter) == Occurrences(grades, letter)
  {
    forall letter
      ensures Get(Distribution(grades), letter) == Occurrences(grades, letter)
    {
      FoldCounts(Base, grades, letter);
      BaseZero(letter);
    }
  }

  /** Helper: the sum, starting from zero. */
  lemma DistributionTotal(grades: seq<GradeRow>)
    ensures Total(Distribution(grades)) == |grades|
  {
    FoldTotal(Base, grades);
    forall k | k in Base.Keys
      ensures Base[k] == 0
    {
      BaseZero(k);
    }
    SumOverZero(Base, Base.Keys);
  }

  /** Helper: every letter starts at zero. */
  lemma BaseZero(letter: string)
    ensures Get(Base, letter) == 0
  {
  }

  /** Helper: no more rows are flagged than there are rows. */
  lemma {:induction false} AiDetectedBound(grades: seq<GradeRow>)
    ensures AiDetectedCount(grades) <= |grades|
    decreases |grades|
  {
    if grades != [] {
      AiDetectedBound(grades[1..]);
    }
  }

  /** The statistics count every row, flag at most that many, and their
      distribution sums to the count; the early return for no rows agrees
      with the general case. */
  lemma StatisticsShape(grades: seq<GradeRow>)
    ensures GetStatistics(grades).totalSubmissions == |grades|
    ensures GetStatistics(grades).aiDetectedCount <= |grades|
    ensures Total(GetStatistics(grades).gradeDistribution) == |grades|
    ensures GetStatistics(grades).gradeDistribution == Distribution(grades)
    ensures |grades| == 0 ==> GetStatistics(grades).aiDetectedCount == AiDetectedCount(grades)
  {
    AiDetectedBound(grades);
    DistributionShape(grades);
  }

  // ---------------------------------------------------------------------
  // The result row of `save-result`

  /** The parts of the parsed grading result the row uses; an absent field
      is `None`. */
  datatype GradeResult = GradeResult(
    totalScore: Option<int>,
    criteria: Option<seq<int>>,
    gradeLetter: Option<string>,
    overallFeedback: Option<string>)

  /** The AI probability of the parsed detection result. */
  datatype AiResult = AiResult(aiProbability: Option<int>)

  /** The row written to the CSV file, without its timestamp. */
  datatype ResultRow = ResultRow(
    studentName: string,
    studentId: string,
    studentEmail: string,
    practicalNumber: string,
    totalScore: int,
    maxScore: int,
    gradeLetter: string,
    aiDetected: bool,
    aiConfidence: int,
    overallFeedback: string)

  /** `v || d` for a text: a missing or empty text gives `d`. */
  function OrText(v: Option<string>, d: string): string {
    if v.None? || v.value == [] then d else v.value
  }

  /** `v || d` for a number: a missing value or zero gives `d`. */
  function OrNumber(v: Option<int>, d: int): int {
    if v.None? || v.value == 0 then d else v.value
  }

  /** `args[i]`, missing past the end. */
  function Arg(args: seq<string>, i: nat): Option<string> {
    if i < |args| then Some(args[i]) else None
  }

  /** `criteria.reduce((sum, c) => sum + c.maxScore, 0)`. */
  function SumScores(scores: seq<int>): int
    decreases |scores|
  {
    if scores == [] then 0 else scores[0] + SumScores(scores[1..])
  }

  /** `criteria?.reduce(...) || 100`. */
  function MaxScore(criteria: Option<seq<int>>): int {
    if criteria.None? then 100 else OrNumber(Some(SumScores(criteria.value)), 100)
  }

  /** The `data` object of `save-result`; `args` are the command-line
      arguments after the script, `args[0]` being the command. */
  function BuildRow(args: seq<string>, grade: GradeResult, ai: AiResult): ResultRow {
    ResultRow(
      OrText(Arg(args, 1), "Unknown"),
      OrText(Arg(args, 2), "Unknown"),
      OrText(Arg(args, 3), "unknown@example.com"),
      OrText(Arg(args, 4), "1"),
      OrNumber(grade.totalScore, 0),
      MaxScore(grade.criteria),
      OrText(grade.gradeLetter, "F"),
      OrNumber(ai.aiProbability, 0) >= 50,
      OrNumber(ai.aiProbability, 0),
      Sanitize(Some(OrText(grade.overallFeedback, ""))))
  }

  /** Every text cell but the feedback is filled in, the maximum is never
      zero, the flag agrees with the confidence, and the feedback is a
      sanitised cell. */
  lemma RowShape(args: seq<string>, grade: GradeResult, ai: AiResult)
    ensures var r := BuildRow(args, grade, ai);
      && r.studentName != [] && r.studentId != [] && r.studentEmail != []
      && r.practicalNumber != [] && r.gradeLetter != []
      && r.maxScore != 0
      && (r.aiDetected <==> r.aiConfidence >= 50)
      && (forall i | 0 <= i < |r.overallFeedback| :: !IsLineBreak(r.overallFeedback[i]))
      && (grade.overallFeedback.None? ==> r.overallFeedback == [])
  {
    SanitizeShape(Some(OrText(grade.overallFeedback, "")));
  }

  /** A value that is given and not falsy is kept as it is; the rest take
      their defaults. */
  lemma RowKeeps(args: seq<string>, grade: GradeResult, ai: AiResult)
    ensures var r := BuildRow(args, grade, ai);
      && (|args| > 1 && args[1] != [] ==> r.studentName == args[1])
      && (|args| <= 1 || args[1] == [] ==> r.studentName == "Unknown")
      && (|args| > 2 && args[2] != [] ==> r.studentId == args[2])
      && (|args| <= 2 || args[2] == [] ==> r.studentId == "Unknown")
      && (|args| > 3 && args[3] != [] ==> r.studentEmail == args[3])
      && (|args| <= 3 || args[3] == [] ==> r.studentEmail == "unknown@example.com")
      && (|args| > 4 && args[4] != [] ==> r.practicalNumber == args[4])
      && (|args| <= 4 || args[4] == [] ==> r.practicalNumber == "1")
      && (grade.totalScore.Some? && grade.totalScore.value != 0 ==> r.totalScore == grade.totalScore.value)
      && (grade.totalScore.None? || grade.totalScore.value == 0 ==> r.totalScore == 0)
      && (grade.criteria.Some? && SumScores(grade.criteria.value) != 0 ==> r.maxScore == SumScores(grade.criteria.value))
      && (grade.criteria.None? || SumScores(grade.criteria.value) == 0 ==> r.maxScore == 100)
      && (grade.gradeLetter.Some? && grade.gradeLetter.value != [] ==> r.gradeLetter == grade.gradeLetter.value)
      && (grade.gradeLetter.None? || grade.gradeLetter.value == [] ==> r.gradeLetter == "F")
      && (ai.aiProbability.None? ==> !r.aiDetected && r.aiConfidence == 0)
      && (ai.aiProbability.Some? ==> r.aiConfidence == ai.aiProbability.value)
  {
  }
}
