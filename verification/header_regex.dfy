/** The whole-text header patterns of test-regex.js: extraction of the five
    fields, and removal of the header lines followed by blank-line
    collapsing and trimming.

    The extraction patterns are not anchored: the engine tries every
    position from the left and takes the first at which the pattern
    matches. The name and identifier patterns also accept a bare `NAME` and
    a bare `ID` (the loose keys of `HeaderKeys`); the batch and practical
    patterns capture only a run of digits. */
module HeaderRegex {
  import opened Wrappers
  import opened Text
  import opened HeaderKeys

  // ---------------------------------------------------------------------
  // Extraction

  /** Whether the pattern of `f` captures `(\d+)` rather than `(.+)`. */
  predicate Numeric(f: Field) {
    f == Batch || f == Practical
  }

  /** The capture of the pattern of `f` matched at the start of `s`. */
  function MatchAt(f: Field, s: string): Option<string> {
    match KeyColon(f, true, s)
    case None => None
    case Some(c) =>
      var u := s[c + 1..];
      if Numeric(f) then DigitValue(u)
      else
        match LineValue(u)
        case None => None
        case Some(cap) => Some(u[cap.start..cap.end])
  }

  predicate MatchesAt(f: Field, s: string, j: nat) {
    j <= |s| && MatchAt(f, s[j..]).Some?
  }

  /** The leftmost position at which the pattern of `f` matches. */
  function Find(f: Field, s: string): (r: Option<nat>)
    ensures r.Some? ==> MatchesAt(f, s, r.value)
    ensures r.Some? ==> forall j | 0 <= j < r.value :: !MatchesAt(f, s, j)
    ensures r.None? ==> forall j | 0 <= j <= |s| :: !MatchesAt(f, s, j)
    decreases |s|
  {
    MatchesHere(f, s);
    if MatchesAt(f, s, 0) then Some(0)
    else if s == [] then None
    else
      MatchesTail(f, s);
      match Find(f, s[1..])
      case None => None
      case Some(k) => Some(k + 1)
  }

  /** Helper: matching at position 0 is matching the whole text. */
  lemma MatchesHere(f: Field, s: string)
    ensures MatchesAt(f, s, 0) == MatchAt(f, s).Some?
  {
    assert s[0..] == s;
  }

  /** Helper: positions in the tail are positions one further on. */
  lemma MatchesTail(f: Field, s: string)
    requires s != []
    ensures forall j | 1 <= j <= |s| :: MatchesAt(f, s, j) == MatchesAt(f, s[1..], j - 1)
  {
    forall j | 1 <= j <= |s|
      ensures MatchesAt(f, s, j) == MatchesAt(f, s[1..], j - 1)
    {
      assert s[j..] == s[1..][j - 1..];
    }
  }

  /** `content.match(pattern)` followed by `[1].trim()` for the text fields
      and by `[1]` for the numeric ones; `None` is "NOT FOUND". */
  function Extract(f: Field, s: string): Option<string> {
    match Find(f, s)
    case None => None
    case Some(j) =>
      var v := MatchAt(f, s[j..]).value;
      Some(if Numeric(f) then v else Trim(v))
  }

  /** The batch and the practical number are non-empty runs of digits. */
  lemma ExtractDigits(f: Field, s: string, v: string)
    requires Numeric(f) && Extract(f, s) == Some(v)
    ensures v != [] && forall i | 0 <= i < |v| :: IsDigit(v[i])
  {
    MatchDigits(f, s[Find(f, s).value..], v);
  }

  /** Helper: the digits at one position. */
  lemma MatchDigits(f: Field, t: string, v: string)
    requires Numeric(f) && MatchAt(f, t) == Some(v)
    ensures v != [] && forall i | 0 <= i < |v| :: IsDigit(v[i])
  {
    var c := KeyColon(f, true, t).value;
    DigitValueShape(t[c + 1..], v);
  }

  /** The other fields are trimmed text from a single line. */
  lemma ExtractText(f: Field, s: string, v: string)
    requires !Numeric(f) && Extract(f, s) == Some(v)
    ensures Trim(v) == v && NoBreak(v)
  {
    var w := MatchAt(f, s[Find(f, s).value..]).value;
    MatchLine(f, s[Find(f, s).value..], w);
    TrimmedLine(w);
  }

  /** Helper: the line at one position. */
  lemma MatchLine(f: Field, t: string, w: string)
    requires !Numeric(f) && MatchAt(f, t) == Some(w)
    ensures NoBreak(w)
  {
    var c := KeyColon(f, true, t).value;
    var u := t[c + 1..];
    CaptureLine(u, LineValue(u).value);
  }

  /** Helper: the captured `(.+)` holds no line break. */
  lemma CaptureLine(u: string, cap: Capture)
    requires LineValue(u) == Some(cap)
    ensures cap.start <= cap.end <= |u| && NoBreak(u[cap.start..cap.end])
  {
    LineFromShape(u, SpanLen(u), cap);
    LineLenShape(u[cap.start..]);
    assert u[cap.start..cap.end] == u[cap.start..][..LineLen(u[cap.start..])];
  }

  /** Helper: trimming a line gives a trimmed line. */
  lemma TrimmedLine(w: string)
    requires NoBreak(w)
    ensures Trim(Trim(w)) == Trim(w) && NoBreak(Trim(w))
  {
    TrimSlice(w);
    TrimEdges(w);
    TrimmedIsFixed(Trim(w));
    var n := SpanLen(w);
    forall i | 0 <= i < |Trim(w)|
      ensures !IsLineBreak(Trim(w)[i])
    {
      assert Trim(w)[i] == w[n + i];
    }
  }

  /** A key, a colon, a space and a value at the very start of the text are
      found there, and the value is extracted whole. */
  lemma ExtractAtStart(f: Field, key: string, v: string, rest: string)
    requires !Numeric(f) && ':' !in key && IsKey(f, true, TrimEnd(UpperAll(key)))
    requires v != [] && !IsSpace(v[0]) && !IsSpace(v[|v| - 1]) && NoBreak(v)
    requires rest == [] || IsLineBreak(rest[0])
    ensures Extract(f, key + [':'] + (" " + v + rest)) == Some(v)
  {
    var s := key + [':'] + (" " + v + rest);
    MatchAtStart(f, key, v, rest);
    MatchesHere(f, s);
    assert s[0..] == s;
    TrimmedIsFixed(v);
  }

  /** Helper: the match at the start. */
  lemma MatchAtStart(f: Field, key: string, v: string, rest: string)
    requires !Numeric(f) && ':' !in key && IsKey(f, true, TrimEnd(UpperAll(key)))
    requires v != [] && !IsSpace(v[0]) && NoBreak(v)
    requires rest == [] || IsLineBreak(rest[0])
    ensures MatchAt(f, key + [':'] + (" " + v + rest)) == Some(v)
  {
    var s := key + [':'] + (" " + v + rest);
    KeyColonOf(f, true, key, " " + v + rest);
    assert s[|key| + 1..] == " " + v + rest;
    LineValueOf(" ", v, rest);
    assert (" " + v + rest)[1..1 + |v|] == v;
  }

  /** Helper: `\s*(.+)` on whitespace, a line and a line break takes the
      line. */
  lemma LineValueOf(gap: string, v: string, rest: string)
    requires AllSpace(gap) && v != [] && !IsSpace(v[0]) && NoBreak(v)
    requires rest == [] || IsLineBreak(rest[0])
    ensures LineValue(gap + v + rest) == Some(Capture(|gap|, |gap| + |v|))
  {
    var u := gap + v + rest;
    assert u == gap + (v + rest);
    SpanAllSpace(gap, v + rest);
    assert u[|gap|..] == v + rest;
    LineLenOf(v, rest);
  }

  /** Helper: `.+` takes a line up to the line break that ends it. */
  lemma {:induction false} LineLenOf(v: string, rest: string)
    requires NoBreak(v) && (rest == [] || IsLineBreak(rest[0]))
    ensures LineLen(v + rest) == |v|
    decreases |v|
  {
    if v != [] {
      assert (v + rest)[0] == v[0] && (v + rest)[1..] == v[1..] + rest;
      LineLenOf(v[1..], rest);
    } else {
      assert v + rest == rest;
    }
  }

  /** The three name formats of the samples, at the start of the text. */
  lemma NameFormats(v: string, rest: string)
    requires v != [] && !IsSpace(v[0]) && !IsSpace(v[|v| - 1]) && NoBreak(v)
    requires rest == [] || IsLineBreak(rest[0])
    ensures Extract(Name, "Student Name" + [':'] + (" " + v + rest)) == Some(v)
    ensures Extract(Name, "STUDENT_NAME" + [':'] + (" " + v + rest)) == Some(v)
    ensures Extract(Name, "Name" + [':'] + (" " + v + rest)) == Some(v)
  {
    NameKeys();
    ExtractAtStart(Name, "Student Name", v, rest);
    ExtractAtStart(Name, "STUDENT_NAME", v, rest);
    ExtractAtStart(Name, "Name", v, rest);
  }

  /** Helper: the three spellings are name keys. */
  lemma NameKeys()
    ensures ':' !in "Student Name" && IsKey(Name, true, TrimEnd(UpperAll("Student Name")))
    ensures ':' !in "STUDENT_NAME" && IsKey(Name, true, TrimEnd(UpperAll("STUDENT_NAME")))
    ensures ':' !in "Name" && IsKey(Name, true, TrimEnd(UpperAll("Name")))
  {
    SpacedNameKey();
    UnderscoreNameKey();
    BareNameKey();
  }

  lemma SpacedNameKey()
    ensures ':' !in "Student Name" && IsKey(Name, true, TrimEnd(UpperAll("Student Name")))
  {
    NameSpellings(Name, true, ' ');
    SpacedNameUpper();
  }

  lemma UnderscoreNameKey()
    ensures ':' !in "STUDENT_NAME" && IsKey(Name, true, TrimEnd(UpperAll("STUDENT_NAME")))
  {
    NameSpellings(Name, true, ' ');
    UnderscoreNameUpper();
  }

  lemma BareNameKey()
    ensures ':' !in "Name" && IsKey(Name, true, TrimEnd(UpperAll("Name")))
  {
    NameSpellings(Name, true, ' ');
    BareNameUpper();
  }

  lemma SpacedNameUpper()
    ensures TrimEnd(UpperAll("Student Name")) == "STUDENT" + [' '] + "NAME"
  {
    assert UpperAll("Student Name") == "STUDENT" + [' '] + "NAME";
  }

  lemma UnderscoreNameUpper()
    ensures TrimEnd(UpperAll("STUDENT_NAME")) == "STUDENT_NAME"
  {
    assert UpperAll("STUDENT_NAME") == "STUDENT_NAME";
  }

  lemma BareNameUpper()
    ensures TrimEnd(UpperAll("Name")) == "NAME"
  {
    assert UpperAll("Name") == "NAME";
  }

  // ---------------------------------------------------------------------
  // Header removal

  /** Length of the run of whitespace other than line breaks at the start
      (`[^\S\r\n]*`). */
  function BlankLen(s: string): (n: nat)
    ensures n <= |s|
    decreases |s|
  {
    if s != [] && IsSpace(s[0]) && !IsLineBreak(s[0]) then 1 + BlankLen(s[1..]) else 0
  }

  /** Length of the match of the removal pattern of `f` at the start of `s`:
      `<key>\s*:\s*.+$` with the flags `i` and `m`. As written (`confined`
      false) every `\s` may cross a line break. Confined, whitespace in the
      key and around the colon stays on the line, which makes the removal
      work line by line. */
  function HeaderAt(f: Field, confined: bool, s: string): (r: Option<nat>)
    ensures r.Some? ==> 0 < r.value <= |s|
  {
    match KeyColon(f, true, s)
    case None => None
    case Some(c) =>
      if confined && !NoBreak(s[..c]) then None
      else
        match AfterColon(confined, s[c + 1..])
        case None => None
        case Some(e) => Some(c + 1 + e)
  }

  /** Where `\s*.+$` that follows the colon ends. */
  function AfterColon(confined: bool, u: string): (r: Option<nat>)
    ensures r.Some? ==> 0 < r.value <= |u|
  {
    match LineFrom(u, if confined then BlankLen(u) else SpanLen(u))
    case None => None
    case Some(cap) => Some(cap.end)
  }

  /** `s.replace(pattern, '')` with the flags `g`, `i` and `m`: where a line
      starts (`^`) and the pattern matches, the match is dropped and the scan
      resumes after it; every other character is kept. `atStart` says
      whether a line starts at the current position. */
  function Remove(f: Field, confined: bool, s: string, atStart: bool): string
    decreases |s|
  {
    if s == [] then []
    else
      match (if atStart then HeaderAt(f, confined, s) else None)
      case Some(n) => Remove(f, confined, s[n..], false)
      case None => [s[0]] + Remove(f, confined, s[1..], IsLineBreak(s[0]))
  }

  /** The five removal passes, in the order of the source. */
  function RemoveHeaders(confined: bool, s: string): string {
    var s1 := Remove(Name, confined, s, true);
    var s2 := Remove(Id, confined, s1, true);
    var s3 := Remove(Email, confined, s2, true);
    var s4 := Remove(Batch, confined, s3, true);
    Remove(Practical, confined, s4, true)
  }

  /** Length of the run of line feeds at the start. */
  function NewlineRun(s: string): (n: nat)
    ensures n <= |s|
    ensures s != [] && s[0] == '\n' ==> n >= 1
    decreases |s|
  {
    if s != [] && s[0] == '\n' then 1 + NewlineRun(s[1..]) else 0
  }

  /** `s.replace(/\n{3,}/g, '\n\n')`. */
  function Collapse(s: string): string
    decreases |s|
  {
    if s == [] then []
    else if s[0] != '\n' then [s[0]] + Collapse(s[1..])
    else
      var k := NewlineRun(s);
      (if k >= 3 then "\n\n" else s[..k]) + Collapse(s[k..])
  }

  /** The cleaning of `testHeaderRemoval`. */
  function Clean(confined: bool, s: string): string {
    Trim(Collapse(RemoveHeaders(confined, s)))
  }

  // ---------------------------------------------------------------------
  // Removal, line by line

  /** A line the pattern of `f` removes: a key before its first colon and
      something after the colon. */
  predicate IsHeaderLine(f: Field, w: string) {
    match KeyColon(f, true, w)
    case None => false
    case Some(c) => c + 1 < |w|
  }

  /** The lines after one pass: each header line of `f` emptied. */
  function BlankOut(f: Field, lines: seq<string>): seq<string> {
    seq(|lines|, i requires 0 <= i < |lines| => if IsHeaderLine(f, lines[i]) then [] else lines[i])
  }

  predicate AnyHeader(w: string) {
    IsHeaderLine(Name, w) || IsHeaderLine(Id, w) || IsHeaderLine(Email, w)
    || IsHeaderLine(Batch, w) || IsHeaderLine(Practical, w)
  }

  /** The lines after all five passes: each header line emptied. */
  function Stripped(lines: seq<string>): seq<string> {
    seq(|lines|, i requires 0 <= i < |lines| => if AnyHeader(lines[i]) then [] else lines[i])
  }

  /** A character that can occur in an upper-cased key. */
  predicate KeyChar(c: char) {
    'A' <= c <= 'Z' || c == '_' || IsSpace(c)
  }

  predicate KeyText(s: string) {
    forall i | 0 <= i < |s| :: KeyChar(s[i])
  }

  /** Whether the text before the first colon is the key of some field. */
  predicate AnyKeyColon(w: string) {
    KeyColon(Name, true, w).Some? || KeyColon(Id, true, w).Some? || KeyColon(Email, true, w).Some?
    || KeyColon(Batch, true, w).Some? || KeyColon(Practical, true, w).Some?
  }

  /** A line the as-written patterns cannot run past: it is empty, or it
      starts with a character no key starts with, or its first colon comes
      after something other than a key or is followed by more than
      whitespace, or it has no colon and holds a character that no key
      has. */
  predicate Tidy(w: string) {
    w == [] || Upper(w[0]) !in "SREBPANI" ||
    match IndexOf(w, ':')
    case Some(c) => !AnyKeyColon(w) || !AllSpace(w[c + 1..])
    case None => !KeyText(UpperAll(w))
  }

  /** Ordinary prose lines are tidy, with or without a colon, while a key
      with nothing after its colon, or a key alone, is not. */
  lemma TidyExamples()
    ensures Tidy("Hello world") && Tidy("Example:")
    ensures !Tidy("Name:") && !Tidy("Name")
  {
    HelloTidy();
    ExampleTidy();
    NameColonUntidy();
    NameUntidy();
  }

  /** Helper: `Hello world` starts with a letter no key starts with. */
  lemma HelloTidy()
    ensures Tidy("Hello world")
  {
    var w := "Hello world";
    assert Upper(w[0]) == 'H';
    ForeignTidy(w);
  }

  /** Helper: a line starting with a character no key starts with is tidy. */
  lemma ForeignTidy(w: string)
    requires w != [] && Upper(w[0]) !in "SREBPANI"
    ensures Tidy(w)
  {
  }

  /** Helper: `Example:` has a colon after a word that is no key. */
  lemma ExampleTidy()
    ensures Tidy("Example:")
  {
    var w := "Example:";
    ExampleColon(w);
    ExampleUpper(w[..7]);
    ExampleNoKey(Name);
    ExampleNoKey(Id);
    ExampleNoKey(Email);
    ExampleNoKey(Batch);
    ExampleNoKey(Practical);
    ColonNoKeyTidy(w, 7);
  }

  /** Helper: the first colon of `Example:` is its last character. */
  lemma ExampleColon(w: string)
    requires w == "Example:"
    ensures IndexOf(w, ':') == Some(7)
  {
    assert ':' !in w[..7];
    IndexOfShape(w, ':');
  }

  /** Helper: the word before the colon, upper-cased and trimmed. */
  lemma ExampleUpper(v: string)
    requires v == "Example"
    ensures TrimEnd(UpperAll(v)) == "EXAMPLE"
  {
    var k := UpperAll(v);
    assert k == "EXAMPLE";
    assert TrimEnd(k) == k;
  }

  /** Helper: a line whose first colon follows no key is tidy. */
  lemma ColonNoKeyTidy(w: string, c: nat)
    requires IndexOf(w, ':') == Some(c) && !AnyKeyColon(w)
    ensures Tidy(w)
  {
  }

  /** Helper: `EXAMPLE` spells no key. */
  lemma ExampleNoKey(f: Field)
    ensures !IsKey(f, true, "EXAMPLE")
  {
    var w := "EXAMPLE";
    assert |w| == 7 && w[0] == 'E' && w[1] == 'X';
  }

  /** Helper: `Name:` is a key with nothing after its colon. */
  lemma NameColonUntidy()
    ensures !Tidy("Name:")
  {
    var w := "Name:";
    assert IndexOf(w, ':') == Some(4);
    var k := UpperAll(w[..4]);
    assert k == "NAME";
    assert TrimEnd(k) == k;
    NameSpellings(Name, true, ' ');
    assert KeyColon(Name, true, w) == Some(4);
    assert w[5..] == [];
  }

  /** Helper: `Name` is a key with no colon at all. */
  lemma NameUntidy()
    ensures !Tidy("Name")
  {
    var w := "Name";
    assert ':' !in w;
    IndexOfShape(w, ':');
    var u := UpperAll(w);
    assert u[0] == 'N' && u[1] == 'A' && u[2] == 'M' && u[3] == 'E';
    assert KeyText(u);
  }

  /** Each pass empties exactly the header lines of its field and keeps
      every other line, when no line holds a line break and, as written,
      every line is tidy. */
  lemma {:induction false} RemoveLines(f: Field, confined: bool, lines: seq<string>)
    requires |lines| >= 1
    requires forall i | 0 <= i < |lines| :: NoBreak(lines[i])
    requires !confined ==> forall i | 0 <= i < |lines| :: Tidy(lines[i])
    ensures Remove(f, confined, Join(lines, "\n"), true) == Join(BlankOut(f, lines), "\n")
    decreases |lines|
  {
    var out := BlankOut(f, lines);
    if |lines| == 1 {
      RemoveLineEnd(f, confined, lines[0]);
    } else {
      var rest := lines[1..];
      assert forall i | 0 <= i < |rest| :: rest[i] == lines[i + 1];
      RemoveLines(f, confined, rest);
      assert out[1..] == BlankOut(f, rest);
      JoinStep(lines, out);
      RemoveCons(f, confined, lines[0], Join(rest, "\n"), Join(out[1..], "\n"));
    }
  }

  /** Helper: one more line in front. */
  lemma RemoveCons(f: Field, confined: bool, w: string, rest: string, kept: string)
    requires NoBreak(w) && (confined || Tidy(w)) && Remove(f, confined, rest, true) == kept
    ensures Remove(f, confined, w + ("\n" + rest), true) ==
      (if IsHeaderLine(f, w) then [] else w) + ("\n" + kept)
  {
    HeaderAtLine(f, confined, w, "\n" + rest);
    RemoveLineThen(f, confined, w, "\n" + rest, IsHeaderLine(f, w));
    RemoveBreak(f, confined, rest);
  }

  /** Helper: the first line of both joins. */
  lemma JoinStep(lines: seq<string>, out: seq<string>)
    requires |lines| >= 2 && |out| == |lines|
    ensures Join(lines, "\n") == lines[0] + ("\n" + Join(lines[1..], "\n"))
    ensures Join(out, "\n") == out[0] + ("\n" + Join(out[1..], "\n"))
  {
  }

  /** Helper: the line before a line feed, removed when `hit`. */
  lemma RemoveLineThen(f: Field, confined: bool, w: string, x: string, hit: bool)
    requires NoBreak(w) && HeaderAt(f, confined, w + x).Some? == hit
    requires hit ==> HeaderAt(f, confined, w + x).value == |w|
    ensures Remove(f, confined, w + x, true) == (if hit then [] else w) + Remove(f, confined, x, false)
  {
    if hit {
      RemoveSkip(f, confined, w + x, |w|);
      assert (w + x)[|w|..] == x;
    } else {
      KeepLine(f, confined, w, x);
    }
  }

  /** Helper: a line where nothing matches is copied. */
  lemma KeepLine(f: Field, confined: bool, w: string, x: string)
    requires NoBreak(w) && HeaderAt(f, confined, w + x).None?
    ensures Remove(f, confined, w + x, true) == w + Remove(f, confined, x, false)
  {
    var s := w + x;
    if w == [] {
      assert s == x;
    } else {
      RemoveKeep(f, confined, s);
      assert s[0] == w[0] && s[1..] == w[1..] + x;
      NoBreakTail(w);
      CopyLine(f, confined, w[1..], x);
      Recons(w, Remove(f, confined, x, false));
    }
  }

  /** Helper: a line break is kept and starts a line. */
  lemma RemoveBreak(f: Field, confined: bool, r: string)
    ensures Remove(f, confined, "\n" + r, false) == "\n" + Remove(f, confined, r, true)
  {
    var x := "\n" + r;
    assert x[0] == '\n' && x[1..] == r;
  }

  /** Helper: a match is dropped. */
  lemma RemoveSkip(f: Field, confined: bool, s: string, n: nat)
    requires HeaderAt(f, confined, s).Some? && HeaderAt(f, confined, s).value == n
    ensures Remove(f, confined, s, true) == Remove(f, confined, s[n..], false)
  {
  }

  /** Helper: without a match the character is kept. */
  lemma RemoveKeep(f: Field, confined: bool, s: string)
    requires s != [] && HeaderAt(f, confined, s).None?
    ensures Remove(f, confined, s, true) == [s[0]] + Remove(f, confined, s[1..], IsLineBreak(s[0]))
  {
  }

  /** Helper: the last line. */
  lemma RemoveLineEnd(f: Field, confined: bool, w: string)
    requires NoBreak(w) && (confined || Tidy(w))
    ensures Remove(f, confined, w, true) == if IsHeaderLine(f, w) then [] else w
  {
    HeaderAtLine(f, confined, w, []);
    assert w + [] == w;
    RemoveLineThen(f, confined, w, [], IsHeaderLine(f, w));
  }

  /** Helper: the tail of a line is a line. */
  lemma NoBreakTail(w: string)
    requires NoBreak(w) && w != []
    ensures !IsLineBreak(w[0]) && NoBreak(w[1..])
  {
    assert forall i | 0 <= i < |w| - 1 :: w[1..][i] == w[i + 1];
  }

  /** Helper: inside a line nothing is removed. */
  lemma {:induction false} CopyLine(f: Field, confined: bool, w: string, x: string)
    requires NoBreak(w)
    ensures Remove(f, confined, w + x, false) == w + Remove(f, confined, x, false)
    decreases |w|
  {
    if w == [] {
      assert w + x == x;
    } else {
      NoBreakTail(w);
      assert (w + x)[0] == w[0] && (w + x)[1..] == w[1..] + x;
      CopyLine(f, confined, w[1..], x);
      Recons(w, Remove(f, confined, x, false));
    }
  }

  /** Helper: the removal pattern at the start of a line matches the whole
      line exactly when it is a header line, and nothing otherwise. */
  lemma HeaderAtLine(f: Field, confined: bool, w: string, x: string)
    requires NoBreak(w) && (x == [] || x[0] == '\n') && (confined || Tidy(w))
    ensures HeaderAt(f, confined, w + x).Some? == IsHeaderLine(f, w)
    ensures IsHeaderLine(f, w) ==> HeaderAt(f, confined, w + x).value == |w|
  {
    IndexOfShape(w, ':');
    if w != [] && Upper(w[0]) !in "SREBPANI" {
      ForeignLine(f, confined, w, x);
    } else if ':' in w {
      ColonLine(f, confined, w, x, IndexOf(w, ':').value);
    } else {
      NoColonLine(f, confined, w, x);
    }
  }

  /** Helper: a line whose first character starts no key is never removed,
      whatever follows it. */
  lemma ForeignLine(f: Field, confined: bool, w: string, x: string)
    requires w != [] && Upper(w[0]) !in "SREBPANI"
    ensures HeaderAt(f, confined, w + x) == None && !IsHeaderLine(f, w)
  {
    assert (w + x)[0] == w[0];
    KeyColonInitial(f, w + x);
    KeyColonInitial(f, w);
  }

  /** Helper: the patterns are anchored, so a key and its colon are only
      found in text that starts with the first letter of a key. */
  lemma KeyColonInitial(f: Field, s: string)
    ensures KeyColon(f, true, s).Some? ==> s != [] && Upper(s[0]) in "SREBPANI"
  {
    if KeyColon(f, true, s).Some? {
      var c := KeyColon(f, true, s).value;
      KeyColonShape(f, true, s, c);
      var w := UpperAll(s[..c]);
      TrimEndShape(w);
      KeyInitial(f, true, TrimEnd(w));
      assert TrimEnd(w)[0] == w[0];
    }
  }

  /** Helper: a line with a colon. */
  lemma ColonLine(f: Field, confined: bool, w: string, x: string, c: nat)
    requires IndexOf(w, ':') == Some(c) && NoBreak(w) && (x == [] || x[0] == '\n')
    requires confined || !AnyKeyColon(w) || !AllSpace(w[c + 1..])
    ensures HeaderAt(f, confined, w + x).Some? == IsHeaderLine(f, w)
    ensures IsHeaderLine(f, w) ==> HeaderAt(f, confined, w + x).value == |w|
  {
    IndexOfShape(w, ':');
    KeyColonPrefix(f, w, x);
    if KeyColon(f, true, w).Some? {
      assert AnyKeyColon(w) by { match f { case Name => case Id => case Email => case Batch => case Practical => } }
      KeyedLine(f, confined, w, x, c);
    }
  }

  /** Helper: a line with a key before its first colon. */
  lemma KeyedLine(f: Field, confined: bool, w: string, x: string, c: nat)
    requires KeyColon(f, true, w + x) == Some(c) && c < |w|
    requires NoBreak(w) && (x == [] || x[0] == '\n')
    requires confined || !AllSpace(w[c + 1..])
    ensures HeaderAt(f, confined, w + x).Some? == (c + 1 < |w|)
    ensures c + 1 < |w| ==> HeaderAt(f, confined, w + x).value == |w|
  {
    ColonValue(confined, w, x, c);
    HeaderAtIs(f, confined, w + x, c);
  }

  /** Helper: the match once the key is known. */
  lemma HeaderAtIs(f: Field, confined: bool, s: string, c: nat)
    requires KeyColon(f, true, s) == Some(c) && c < |s| && (confined ==> NoBreak(s[..c]))
    ensures HeaderAt(f, confined, s).Some? == AfterColon(confined, s[c + 1..]).Some?
    ensures HeaderAt(f, confined, s).Some? ==>
      HeaderAt(f, confined, s).value == c + 1 + AfterColon(confined, s[c + 1..]).value
  {
  }

  /** Helper: what follows the key and its colon on the line. */
  lemma ColonValue(confined: bool, w: string, x: string, c: nat)
    requires c < |w| && NoBreak(w) && (x == [] || x[0] == '\n')
    requires confined || !AllSpace(w[c + 1..])
    ensures NoBreak((w + x)[..c])
    ensures AfterColon(confined, (w + x)[c + 1..]).Some? == (c + 1 < |w|)
    ensures c + 1 < |w| ==> AfterColon(confined, (w + x)[c + 1..]).value == |w| - c - 1
  {
    var v := w[c + 1..];
    assert (w + x)[..c] == w[..c];
    assert (w + x)[c + 1..] == v + x;
    NoBreakUpTo(w, c);
    NoBreakFrom(w, c + 1);
    if confined {
      ValueConfined(v, x);
    } else {
      ValueAsWritten(v, x);
    }
  }

  /** Helper: the key before the first colon of a line does not depend on
      what follows the line. */
  lemma KeyColonPrefix(f: Field, w: string, x: string)
    requires ':' in w
    ensures KeyColon(f, true, w + x) == KeyColon(f, true, w)
  {
    IndexOfPrefix(w, ':', x);
    IndexOfShape(w, ':');
    var c := IndexOf(w, ':').value;
    assert (w + x)[..c] == w[..c];
  }

  /** Helper: a line without a colon is never removed. As written the key
      may run across the line break, unless the line is empty or holds a
      character no key has. */
  lemma NoColonLine(f: Field, confined: bool, w: string, x: string)
    requires ':' !in w && NoBreak(w) && (x == [] || x[0] == '\n')
    requires confined || w == [] || !KeyText(UpperAll(w))
    ensures HeaderAt(f, confined, w + x) == None && !IsHeaderLine(f, w)
  {
    IndexOfShape(w, ':');
    var s := w + x;
    IndexOfShape(s, ':');
    if IndexOf(s, ':').Some? {
      var c := IndexOf(s, ':').value;
      assert c >= |w|;
      assert s[|w|] == x[0] == '\n';
      var p := s[..c];
      assert p[..|w|] == w;
      assert p[|w|] == '\n';
      if !confined {
        NotKey(f, w, p);
      }
    }
  }

  /** Helper: text that starts with `w` and then a line break is not a key
      when `w` is empty or holds a character no key has. */
  lemma NotKey(f: Field, w: string, p: string)
    requires |w| < |p| && p[..|w|] == w && p[|w|] == '\n'
    requires w == [] || !KeyText(UpperAll(w))
    ensures !IsKey(f, true, TrimEnd(UpperAll(p)))
  {
    var k := UpperAll(p);
    var t := TrimEnd(k);
    TrimEndShape(k);
    if w == [] {
      assert t == [] || t[0] == k[0] == '\n';
      NotKeyStart(f, t);
    } else {
      var i :| 0 <= i < |w| && !KeyChar(UpperAll(w)[i]);
      assert p[i] == w[i];
      assert k[i] == UpperAll(w)[i];
      assert i < |t|;
      assert t[i] == k[i];
      IsKeyText(f, true, t);
    }
  }

  /** Helper: every key starts with one of a few letters. */
  lemma NotKeyStart(f: Field, w: string)
    requires w == [] || w[0] !in "SREBPANI"
    ensures !IsKey(f, true, w)
  {
    if IsKey(f, true, w) {
      KeyInitial(f, true, w);
    }
  }

  /** Every key is spelled with letters, `_` and whitespace. */
  lemma IsKeyText(f: Field, loose: bool, w: string)
    ensures IsKey(f, loose, w) ==> KeyText(w)
  {
    if IsKey(f, loose, w) {
      match f
      case Name => WordText(w, "NAME");
      case Id =>
        if RollKey(w) { RollText(w); } else { WordText(w, "ID"); }
      case Email => WordText(w, "EMAIL");
      case Batch => BatchText();
      case Practical =>
        if BaseKey(w, "PRACTICAL") { PracticalText(w, "PRACTICAL"); } else { PracticalText(w, "ASSIGNMENT"); }
    }
  }

  /** Helper: a student key or the bare word. */
  lemma WordText(w: string, tail: string)
    requires tail == "NAME" || tail == "ID" || tail == "EMAIL"
    requires StudentKey(w, tail) || w == tail
    ensures KeyText(w)
  {
    WordsText();
    if StudentKey(w, tail) {
      StudentText(w, tail);
    }
  }

  lemma WordsText()
    ensures KeyText("NAME") && KeyText("ID") && KeyText("EMAIL") && KeyText("STUDENT")
  {
  }

  lemma BatchText()
    ensures KeyText("BATCH")
  {
  }

  lemma PracticalText(w: string, base: string)
    requires base == "PRACTICAL" || base == "ASSIGNMENT"
    requires BaseKey(w, base)
    ensures KeyText(w)
  {
    if base == "PRACTICAL" {
      assert KeyText("PRACTICAL");
    } else {
      assert KeyText("ASSIGNMENT");
    }
    BaseText(w, base);
  }

  lemma KeyTextJoin(a: string, b: string)
    requires KeyText(a) && KeyText(b)
    ensures KeyText(a + b)
  {
    assert forall i | |a| <= i < |a + b| :: (a + b)[i] == b[i - |a|];
  }

  lemma StudentText(w: string, tail: string)
    requires StudentKey(w, tail) && KeyText(tail)
    ensures KeyText(w)
  {
    if w == "STUDENT" + tail {
      KeyTextJoin("STUDENT", tail);
    } else {
      assert w == "STUDENT" + [w[7]] + tail;
      KeyTextJoin("STUDENT", [w[7]]);
      KeyTextJoin("STUDENT" + [w[7]], tail);
    }
  }

  lemma NumberText(w: string)
    requires NumberWord(w)
    ensures KeyText(w)
  {
  }

  lemma RollText(w: string)
    requires RollKey(w)
    ensures KeyText(w)
  {
    var r := w[4..];
    assert w == "ROLL" + r;
    if NumberWord(r) {
      NumberText(r);
    } else if r != [] && r != "_" {
      NumberText(r[1..]);
      assert r == [r[0]] + r[1..];
      KeyTextJoin([r[0]], r[1..]);
    }
    KeyTextJoin("ROLL", r);
  }

  lemma BaseText(w: string, base: string)
    requires BaseKey(w, base) && KeyText(base)
    ensures KeyText(w)
  {
    var r := w[|base|..];
    assert w == base + r;
    if r != [] {
      var n := SpanLen(r);
      SpanLenShape(r);
      NumberText(r[n..]);
      assert r == r[..n] + r[n..];
      KeyTextJoin(r[..n], r[n..]);
    }
    KeyTextJoin(base, r);
  }

  /** Helper: pieces of a line are lines. */
  lemma NoBreakFrom(w: string, k: nat)
    requires NoBreak(w) && k <= |w|
    ensures NoBreak(w[k..])
  {
    assert forall i | 0 <= i < |w| - k :: w[k..][i] == w[k + i];
  }

  lemma NoBreakUpTo(w: string, k: nat)
    requires NoBreak(w) && k <= |w|
    ensures NoBreak(w[..k])
  {
    assert forall i | 0 <= i < k :: w[..k][i] == w[i];
  }

  /** Helper: as written, a value that is more than whitespace is taken up
      to the end of its line. */
  lemma ValueAsWritten(v: string, x: string)
    requires NoBreak(v) && !AllSpace(v) && (x == [] || IsLineBreak(x[0]))
    ensures AfterColon(false, v + x) == Some(|v|)
  {
    var n := SpanLen(v);
    SpanLenShape(v);
    var i :| 0 <= i < |v| && !IsSpace(v[i]);
    SpanLenBefore(v, i);
    var t := v[n..];
    assert v + x == v[..n] + t + x;
    NoBreakFrom(v, n);
    LineValueOf(v[..n], t, x);
  }

  /** Helper: confined to its line, the value is taken exactly when the
      line goes on after the colon. */
  lemma ValueConfined(v: string, x: string)
    requires NoBreak(v) && (x == [] || IsLineBreak(x[0]))
    ensures AfterColon(true, v + x) == if v != [] then Some(|v|) else None
  {
    var u := v + x;
    BlankLenPrefix(v, x);
    BlankLenShape(v);
    var n := BlankLen(v);
    if n < |v| {
      ValueLine(v, x, n);
    } else if v != [] {
      assert !LineFits(u, n);
      ValueLine(v, x, n - 1);
    } else {
      assert u == x;
    }
  }

  /** Helper: `.+` started inside a line takes the rest of it. */
  lemma ValueLine(v: string, x: string, j: nat)
    requires NoBreak(v) && (x == [] || IsLineBreak(x[0])) && j < |v|
    ensures LineFits(v + x, j) && LineFrom(v + x, j) == Some(Capture(j, |v|))
  {
    var u := v + x;
    assert u[j] == v[j];
    assert u[j..] == v[j..] + x;
    NoBreakFrom(v, j);
    LineLenOf(v[j..], x);
  }

  lemma {:induction false} BlankLenShape(s: string)
    ensures forall i | 0 <= i < BlankLen(s) :: IsSpace(s[i]) && !IsLineBreak(s[i])
    ensures BlankLen(s) == |s| || !IsSpace(s[BlankLen(s)]) || IsLineBreak(s[BlankLen(s)])
    decreases |s|
  {
    if s != [] && IsSpace(s[0]) && !IsLineBreak(s[0]) {
      BlankLenShape(s[1..]);
      forall i | 0 < i < BlankLen(s)
        ensures IsSpace(s[i]) && !IsLineBreak(s[i])
      {
        assert s[i] == s[1..][i - 1];
      }
    }
  }

  lemma {:induction false} BlankLenPrefix(v: string, x: string)
    requires x == [] || IsLineBreak(x[0])
    ensures BlankLen(v + x) == BlankLen(v)
    decreases |v|
  {
    if v == [] {
      assert v + x == x;
    } else {
      assert (v + x)[0] == v[0] && (v + x)[1..] == v[1..] + x;
      BlankLenPrefix(v[1..], x);
    }
  }

  // ---------------------------------------------------------------------
  // All five passes

  /** The lines after the five passes, one `BlankOut` per pass. */
  function Passes(lines: seq<string>): seq<string> {
    BlankOut(Practical, BlankOut(Batch, BlankOut(Email, BlankOut(Id, BlankOut(Name, lines)))))
  }

  /** An emptied line is no header line, so later passes leave it empty. */
  lemma EmptyNotHeader(f: Field)
    ensures !IsHeaderLine(f, [])
  {
  }

  /** Helper: the lines left by one pass still hold no line break and, when
      they were tidy, are still tidy. */
  lemma BlankOutClean(f: Field, confined: bool, lines: seq<string>)
    requires forall i | 0 <= i < |lines| :: NoBreak(lines[i])
    requires !confined ==> forall i | 0 <= i < |lines| :: Tidy(lines[i])
    ensures |BlankOut(f, lines)| == |lines|
    ensures forall i | 0 <= i < |lines| :: NoBreak(BlankOut(f, lines)[i])
    ensures !confined ==> forall i | 0 <= i < |lines| :: Tidy(BlankOut(f, lines)[i])
  {
    assert Tidy([]);
  }

  /** The five passes one after the other empty exactly the lines that are a
      header line of some field. */
  lemma PassesStripped(lines: seq<string>)
    ensures Passes(lines) == Stripped(lines)
  {
    EmptyNotHeader(Id);
    EmptyNotHeader(Email);
    EmptyNotHeader(Batch);
    EmptyNotHeader(Practical);
  }

  /** The five removals together empty every header line and keep every
      other line, under the conditions of `RemoveLines`. */
  lemma RemoveHeadersLines(confined: bool, lines: seq<string>)
    requires |lines| >= 1
    requires forall i | 0 <= i < |lines| :: NoBreak(lines[i])
    requires !confined ==> forall i | 0 <= i < |lines| :: Tidy(lines[i])
    ensures RemoveHeaders(confined, Join(lines, "\n")) == Join(Stripped(lines), "\n")
  {
    var l1 := BlankOut(Name, lines);
    RemoveLines(Name, confined, lines);
    BlankOutClean(Name, confined, lines);
    var l2 := BlankOut(Id, l1);
    RemoveLines(Id, confined, l1);
    BlankOutClean(Id, confined, l1);
    var l3 := BlankOut(Email, l2);
    RemoveLines(Email, confined, l2);
    BlankOutClean(Email, confined, l2);
    var l4 := BlankOut(Batch, l3);
    RemoveLines(Batch, confined, l3);
    BlankOutClean(Batch, confined, l3);
    RemoveLines(Practical, confined, l4);
    PassesStripped(lines);
  }

  // ---------------------------------------------------------------------
  // Collapsing blank lines

  /** No three line feeds in a row. */
  predicate NoTriple(s: string) {
    forall i | 0 <= i < |s| - 2 :: !(s[i] == '\n' && s[i + 1] == '\n' && s[i + 2] == '\n')
  }

  /** The text without its line feeds. */
  function DropFeeds(s: string): string
    decreases |s|
  {
    if s == [] then [] else (if s[0] == '\n' then [] else [s[0]]) + DropFeeds(s[1..])
  }

  lemma {:induction false} NewlineRunShape(s: string)
    ensures forall i | 0 <= i < NewlineRun(s) :: s[i] == '\n'
    ensures NewlineRun(s) == |s| || s[NewlineRun(s)] != '\n'
    decreases |s|
  {
    if s != [] && s[0] == '\n' {
      NewlineRunShape(s[1..]);
      forall i | 0 < i < NewlineRun(s)
        ensures s[i] == '\n'
      {
        assert s[i] == s[1..][i - 1];
      }
    }
  }

  /** Helper: a suffix of a text without three line feeds in a row has none
      either. */
  lemma NoTripleFrom(s: string, k: nat)
    requires NoTriple(s) && k <= |s|
    ensures NoTriple(s[k..])
  {
    var t := s[k..];
    forall i | 0 <= i < |t| - 2
      ensures !(t[i] == '\n' && t[i + 1] == '\n' && t[i + 2] == '\n')
    {
      assert t[i] == s[k + i] && t[i + 1] == s[k + i + 1] && t[i + 2] == s[k + i + 2];
    }
  }

  /** Helper: nor has any slice of it. */
  lemma NoTripleSlice(s: string, a: nat, b: nat)
    requires NoTriple(s) && a <= b <= |s|
    ensures NoTriple(s[a..b])
  {
    var t := s[a..b];
    forall i | 0 <= i < |t| - 2
      ensures !(t[i] == '\n' && t[i + 1] == '\n' && t[i + 2] == '\n')
    {
      assert t[i] == s[a + i] && t[i + 1] == s[a + i + 1] && t[i + 2] == s[a + i + 2];
    }
  }

  /** Helper: a text without three line feeds in a row starts with at most
      two. */
  lemma RunShort(s: string)
    requires NoTriple(s)
    ensures NewlineRun(s) < 3
  {
    NewlineRunShape(s);
    if |s| >= 3 {
      assert !(s[0] == '\n' && s[1] == '\n' && s[2] == '\n');
    }
  }

  /** A character other than a line feed in front keeps the property. */
  lemma NoTripleCons(c: char, r: string)
    requires c != '\n' && NoTriple(r)
    ensures NoTriple([c] + r)
  {
    var t := [c] + r;
    forall i | 0 < i < |t| - 2
      ensures !(t[i] == '\n' && t[i + 1] == '\n' && t[i + 2] == '\n')
    {
      assert t[i] == r[i - 1] && t[i + 1] == r[i] && t[i + 2] == r[i + 1];
    }
  }

  /** At most two characters in front of a text that does not start with a
      line feed keep the property. */
  lemma NoTripleRun(p: string, r: string)
    requires |p| <= 2 && NoTriple(r) && (r == [] || r[0] != '\n')
    ensures NoTriple(p + r)
  {
    var t := p + r;
    forall i | 0 <= i < |t| - 2
      ensures !(t[i] == '\n' && t[i + 1] == '\n' && t[i + 2] == '\n')
    {
      if i >= |p| {
        assert t[i] == r[i - |p|] && t[i + 1] == r[i - |p| + 1] && t[i + 2] == r[i - |p| + 2];
      } else {
        assert t[|p|] == r[0];
      }
    }
  }

  /** Helper: the first character other than a line feed is kept. */
  lemma CollapseHead(s: string)
    requires s == [] || s[0] != '\n'
    ensures Collapse(s) == [] || Collapse(s)[0] != '\n'
  {
  }

  /** After collapsing, no three line feeds are left in a row. */
  lemma {:induction false} CollapseNoTriple(s: string)
    ensures NoTriple(Collapse(s))
    decreases |s|
  {
    if s != [] {
      if s[0] != '\n' {
        CollapseNoTriple(s[1..]);
        NoTripleCons(s[0], Collapse(s[1..]));
      } else {
        var k := NewlineRun(s);
        NewlineRunShape(s);
        CollapseNoTriple(s[k..]);
        CollapseHead(s[k..]);
        NoTripleRun(if k >= 3 then "\n\n" else s[..k], Collapse(s[k..]));
      }
    }
  }

  /** A text without three line feeds in a row is left as it is. */
  lemma {:induction false} CollapseIdle(s: string)
    requires NoTriple(s)
    ensures Collapse(s) == s
    decreases |s|
  {
    if s != [] {
      if s[0] != '\n' {
        NoTripleFrom(s, 1);
        CollapseIdle(s[1..]);
        assert [s[0]] + s[1..] == s;
      } else {
        var k := NewlineRun(s);
        RunShort(s);
        NoTripleFrom(s, k);
        CollapseIdle(s[k..]);
        assert s[..k] + s[k..] == s;
      }
    }
  }

  /** A run of `k` line feeds. */
  function Feeds(k: nat): (r: string)
    ensures |r| == k && forall i | 0 <= i < k :: r[i] == '\n'
  {
    seq(k, _ => '\n')
  }

  /** Helper: the run at the start of `Feeds(k) + q` is exactly `k` long. */
  lemma {:induction false} NewlineRunFeeds(k: nat, q: string)
    requires q == [] || q[0] != '\n'
    ensures NewlineRun(Feeds(k) + q) == k
    decreases k
  {
    var s := Feeds(k) + q;
    if k == 0 {
      assert s == q;
    } else {
      assert s[0] == '\n';
      assert s[1..] == Feeds(k - 1) + q;
      NewlineRunFeeds(k - 1, q);
    }
  }

  /** A whole run of line feeds is handled at once: three or more become
      exactly two, and a run of one or two is kept as it is. */
  lemma CollapseRun(k: nat, q: string)
    requires q == [] || q[0] != '\n'
    ensures Collapse(Feeds(k) + q) == (if k >= 3 then "\n\n" else Feeds(k)) + Collapse(q)
  {
    var s := Feeds(k) + q;
    if k == 0 {
      assert s == q;
    } else {
      NewlineRunFeeds(k, q);
      assert s[0] == '\n';
      assert s[..k] == Feeds(k) && s[k..] == q;
    }
  }

  /** Helper: dropping line feeds distributes over concatenation. */
  lemma {:induction false} DropFeedsConcat(a: string, b: string)
    ensures DropFeeds(a + b) == DropFeeds(a) + DropFeeds(b)
    decreases |a|
  {
    if a == [] {
      assert a + b == b;
    } else {
      assert (a + b)[0] == a[0] && (a + b)[1..] == a[1..] + b;
      DropFeedsConcat(a[1..], b);
    }
  }

  /** Helper: a run of line feeds leaves nothing. */
  lemma {:induction false} DropFeedsRun(p: string)
    requires forall i | 0 <= i < |p| :: p[i] == '\n'
    ensures DropFeeds(p) == []
    decreases |p|
  {
    if p != [] {
      DropFeedsRun(p[1..]);
    }
  }

  /** Collapsing changes nothing but runs of line feeds: every other
      character is kept, in order. */
  lemma {:induction false} CollapseKeepsText(s: string)
    ensures DropFeeds(Collapse(s)) == DropFeeds(s)
    decreases |s|
  {
    if s != [] {
      if s[0] != '\n' {
        CollapseKeepsText(s[1..]);
        DropFeedsConcat([s[0]], Collapse(s[1..]));
      } else {
        var k := NewlineRun(s);
        NewlineRunShape(s);
        var p := if k >= 3 then "\n\n" else s[..k];
        CollapseKeepsText(s[k..]);
        DropFeedsConcat(p, Collapse(s[k..]));
        DropFeedsRun(p);
        DropFeedsRun(s[..k]);
        assert s == s[..k] + s[k..];
        DropFeedsConcat(s[..k], s[k..]);
      }
    }
  }

  /** The cleaned text has no three line feeds in a row and starts and ends
      with a character other than whitespace. */
  lemma CleanShape(confined: bool, s: string)
    ensures NoTriple(Clean(confined, s))
    ensures Clean(confined, s) == [] || (!IsSpace(Clean(confined, s)[0]) && !IsSpace(Clean(confined, s)[|Clean(confined, s)| - 1]))
  {
    var x := Collapse(RemoveHeaders(confined, s));
    CollapseNoTriple(RemoveHeaders(confined, s));
    TrimNoTriple(x);
    TrimEdges(x);
  }

  /** Helper: trimming keeps the property. */
  lemma TrimNoTriple(x: string)
    requires NoTriple(x)
    ensures NoTriple(Trim(x))
  {
    TrimSlice(x);
    NoTripleSlice(x, SpanLen(x), SpanLen(x) + |Trim(x)|);
  }

  // ---------------------------------------------------------------------
  // A header with an empty value

  /** Helper: the header `Name:` with nothing after the colon. */
  lemma BareNameColon(rest: string)
    ensures "Name:" + rest == "Name" + [':'] + rest
    ensures KeyColon(Name, true, "Name:" + rest) == Some(4)
  {
    BareNameKey();
    KeyColonOf(Name, true, "Name", rest);
  }

  /** Helper: after the colon, the whitespace of `\s*` runs over the line
      feed and `.+` takes the whole next line. */
  lemma NextLineValue(v: string)
    requires v != [] && !IsSpace(v[0]) && NoBreak(v)
    ensures AfterColon(false, "\n" + v) == Some(1 + |v|)
  {
    assert "\n" + v == "\n" + v + [];
    LineValueOf("\n", v, []);
  }

  /** As written, `Name:` with an empty value takes the next line with it:
      `\s*` after the colon crosses the line feed and `.+` matches the next
      line, so every pass together leaves nothing of `Name:\nHello`. */
  lemma BlankValueSwallows(v: string)
    requires v != [] && !IsSpace(v[0]) && NoBreak(v)
    ensures RemoveHeaders(false, "Name:\n" + v) == []
    ensures Clean(false, "Name:\n" + v) == []
  {
    var s := "Name:\n" + v;
    BareNameColon("\n" + v);
    assert s == "Name:" + ("\n" + v);
    assert s[5..] == "\n" + v;
    NextLineValue(v);
    RemoveSkip(Name, false, s, |s|);
  }

  /** Helper: a line without a colon is no header line. */
  lemma NoColonNoHeader(w: string)
    requires ':' !in w
    ensures !AnyHeader(w)
  {
    IndexOfShape(w, ':');
  }

  /** Helper: a line that ends at its first colon is no header line. */
  lemma BareNameNoHeader(f: Field)
    ensures !IsHeaderLine(f, "Name:")
  {
    KeyColonOf(f, true, "Name", []);
    assert "Name" + [':'] + [] == "Name:";
  }

  /** Helper: one line feed between two lines without any. */
  lemma OneBreak(a: string, b: string)
    requires NoBreak(a) && NoBreak(b)
    ensures NoTriple(a + "\n" + b)
  {
    var t := a + "\n" + b;
    forall i | 0 <= i < |t| - 2
      ensures !(t[i] == '\n' && t[i + 1] == '\n' && t[i + 2] == '\n')
    {
      if i < |a| {
        assert t[i] == a[i];
      } else {
        assert t[i + 1] == b[i - |a|];
      }
    }
  }

  /** Confined to its line, `Name:` with an empty value is no header: the
      text is kept as it is. */
  lemma ConfinedKeepsNextLine(v: string)
    requires v != [] && NoBreak(v) && ':' !in v && !IsSpace(v[|v| - 1])
    ensures RemoveHeaders(true, "Name:\n" + v) == "Name:\n" + v
    ensures Clean(true, "Name:\n" + v) == "Name:\n" + v
  {
    var lines := ["Name:", v];
    var s := "Name:\n" + v;
    assert Join(lines, "\n") == s;
    RemoveHeadersLines(true, lines);
    BareNameNoHeader(Name);
    BareNameNoHeader(Id);
    BareNameNoHeader(Email);
    BareNameNoHeader(Batch);
    BareNameNoHeader(Practical);
    NoColonNoHeader(v);
    assert Stripped(lines) == lines;
    OneBreak("Name:", v);
    assert "Name:" + "\n" + v == s;
    CollapseIdle(s);
    TrimmedIsFixed(s);
  }
}
