/** The two student-header extractors of test-grader-fix.js.

    Both read the text line by line and fill five fields, all empty at the
    start. The old extractor looks at the first 20 lines, tests each
    upper-cased line for loose substrings such as `NAME:`, and lets the last
    line that hits a field win; its value is the text between the first and
    second colon, trimmed. The new extractor looks at the first 10 lines,
    matches each trimmed line against strict patterns anchored at its start
    (the keys of `HeaderKeys`), and lets the first line that matches a field
    win. */
module StudentInfo {
  import opened Wrappers
  import opened Text
  import opened HeaderKeys

  /** The five fields, in the order the extractors test them. */
  datatype Info = Info(name: string, id: string, email: string, batch: string, practical: string)

  const Blank := Info([], [], [], [], [])

  const Order := [Name, Id, Email, Batch, Practical]

  function Get(info: Info, f: Field): string {
    match f
    case Name => info.name
    case Id => info.id
    case Email => info.email
    case Batch => info.batch
    case Practical => info.practical
  }

  /** Assigning one field leaves the other four as they were. */
  function Set(info: Info, f: Field, v: string): (r: Info)
    ensures Get(r, f) == v
    ensures forall g | g != f :: Get(r, g) == Get(info, g)
  {
    match f
    case Name => info.(name := v)
    case Id => info.(id := v)
    case Email => info.(email := v)
    case Batch => info.(batch := v)
    case Practical => info.(practical := v)
  }

  /** `text.split('\n').slice(0, n)`. */
  function Window(text: string, n: nat): (lines: seq<string>)
    ensures |lines| <= n
  {
    var all := Split(text, '\n');
    if |all| <= n then all else all[..n]
  }

  // ---------------------------------------------------------------------
  // The new extractor

  const NewWindow := 10

  /** The capture of `^<key>\s*:\s*(.+)$` (flag `i`) on a trimmed line. */
  function NewCapture(f: Field, t: string): Option<string> {
    match KeyColon(f, false, t)
    case None => None
    case Some(c) => EndValue(t[c + 1..])
  }

  /** The `else if` chain: the first field in `fields` that matches and is
      still empty receives the trimmed capture. */
  function Chain(info: Info, t: string, fields: seq<Field>): Info
    decreases |fields|
  {
    if fields == [] then info
    else
      var f := fields[0];
      match NewCapture(f, t)
      case Some(v) =>
        if Get(info, f) == [] then Set(info, f, Trim(v)) else Chain(info, t, fields[1..])
      case None => Chain(info, t, fields[1..])
  }

  /** One iteration of the loop of the new extractor. */
  function NewStep(info: Info, line: string): Info {
    Chain(info, Trim(line), Order)
  }

  function FoldNew(info: Info, lines: seq<string>): Info
    decreases |lines|
  {
    if lines == [] then info else FoldNew(NewStep(info, lines[0]), lines[1..])
  }

  /** `extractStudentInfoNEW`. */
  function ExtractNew(text: string): Info {
    FoldNew(Blank, Window(text, NewWindow))
  }

  // ---------------------------------------------------------------------
  // The old extractor

  const OldWindow := 20

  /** The loose substring test of each branch, on the upper-cased line. */
  predicate OldHit(f: Field, upper: string) {
    match f
    case Name => Occurs("STUDENT_NAME:", upper) || Occurs("NAME:", upper)
    case Id => Occurs("STUDENT_ID:", upper) || Occurs("ID:", upper)
    case Email => Occurs("STUDENT_EMAIL:", upper) || Occurs("EMAIL:", upper)
    case Batch => Occurs("BATCH:", upper)
    case Practical => Occurs("PRACTICAL:", upper)
  }

  /** The branch of the `else if` chain a line takes, if any. */
  function OldBranch(upper: string): Option<Field> {
    if OldHit(Name, upper) then Some(Name)
    else if OldHit(Id, upper) then Some(Id)
    else if OldHit(Email, upper) then Some(Email)
    else if OldHit(Batch, upper) then Some(Batch)
    else if OldHit(Practical, upper) then Some(Practical)
    else None
  }

  /** Whether the old extractor assigns field `f` from `line`; every test
      ends in a colon, so such a line has one. */
  predicate Hits(f: Field, line: string)
    ensures Hits(f, line) ==> ':' in line
  {
    BranchColon(line);
    OldBranch(UpperAll(line)) == Some(f)
  }

  /** `line.split(':')[1].trim()`. */
  function OldValue(line: string): string
    requires ':' in line
  {
    SplitShape(line, ':');
    Trim(Split(line, ':')[1])
  }

  /** One iteration of the loop of the old extractor. */
  function OldStep(info: Info, line: string): Info {
    match OldBranch(UpperAll(line))
    case None => info
    case Some(f) =>
      assert Hits(f, line);
      Set(info, f, OldValue(line))
  }

  function FoldOld(info: Info, lines: seq<string>): Info
    decreases |lines|
  {
    if lines == [] then info else FoldOld(OldStep(info, lines[0]), lines[1..])
  }

  /** `extractStudentInfoOLD`. */
  function ExtractOld(text: string): Info {
    FoldOld(Blank, Window(text, OldWindow))
  }

  // ---------------------------------------------------------------------
  // Windows

  /** Lines after the tenth never reach the new extractor. */
  lemma NewWindowOnly(head: seq<string>, tail: seq<string>)
    requires |head| == NewWindow
    requires forall i | 0 <= i < |head| :: '\n' !in head[i]
    requires forall i | 0 <= i < |tail| :: '\n' !in tail[i]
    ensures ExtractNew(Join(head + tail, "\n")) == ExtractNew(Join(head, "\n"))
  {
    WindowOfJoin(head, tail, NewWindow);
  }

  /** Lines after the twentieth never reach the old extractor. */
  lemma OldWindowOnly(head: seq<string>, tail: seq<string>)
    requires |head| == OldWindow
    requires forall i | 0 <= i < |head| :: '\n' !in head[i]
    requires forall i | 0 <= i < |tail| :: '\n' !in tail[i]
    ensures ExtractOld(Join(head + tail, "\n")) == ExtractOld(Join(head, "\n"))
  {
    WindowOfJoin(head, tail, OldWindow);
  }

  /** Helper: the window of joined lines is the first `n` of them. */
  lemma WindowOfJoin(head: seq<string>, tail: seq<string>, n: nat)
    requires |head| == n >= 1
    requires forall i | 0 <= i < |head| :: '\n' !in head[i]
    requires forall i | 0 <= i < |tail| :: '\n' !in tail[i]
    ensures Window(Join(head + tail, "\n"), n) == head
    ensures Window(Join(head, "\n"), n) == head
  {
    var all := head + tail;
    AppendClean(head, tail);
    SplitJoin(all, '\n');
    SplitJoin(head, '\n');
    assert all[..n] == head;
  }

  /** Helper: lines without line breaks, put together. */
  lemma AppendClean(head: seq<string>, tail: seq<string>)
    requires forall i | 0 <= i < |head| :: '\n' !in head[i]
    requires forall i | 0 <= i < |tail| :: '\n' !in tail[i]
    ensures forall i | 0 <= i < |head + tail| :: '\n' !in (head + tail)[i]
  {
    var all := head + tail;
    forall i | 0 <= i < |all|
      ensures '\n' !in all[i]
    {
      if i >= |head| {
        assert all[i] == tail[i - |head|];
      }
    }
  }

  // ---------------------------------------------------------------------
  // The new extractor: one line

  /** On a trimmed line with a key, the capture is everything after the
      colon, trimmed, and there is none when that is empty or holds a
      carriage return. */
  lemma NewCaptureIs(f: Field, t: string, c: nat)
    requires t == [] || !IsSpace(t[|t| - 1])
    requires KeyColon(f, false, t) == Some(c)
    ensures var u := Trim(t[c + 1..]);
      NewCapture(f, t) == if u != [] && NoBreak(u) then Some(u) else None
  {
    var u := t[c + 1..];
    if u != [] {
      assert u[|u| - 1] == t[|t| - 1];
    }
    EndValueTrimmed(u);
  }

  /** A capture is non-empty, trimmed and free of line breaks. */
  lemma CaptureClean(f: Field, line: string, v: string)
    requires NewCapture(f, Trim(line)) == Some(v)
    ensures v != [] && Trim(v) == v && NoBreak(v)
  {
    var t := Trim(line);
    TrimEdges(line);
    var c := KeyColon(f, false, t).value;
    NewCaptureIs(f, t, c);
    TrimEdges(t[c + 1..]);
    TrimmedIsFixed(v);
  }

  /** Only a line whose first character is, ignoring case, the first letter
      of a key can match: the patterns are anchored at the line start. */
  lemma NewAnchored(f: Field, t: string)
    requires NewCapture(f, t).Some?
    ensures t != [] && Upper(t[0]) in "SREBPA"
  {
    var c := KeyColon(f, false, t).value;
    KeyColonShape(f, false, t, c);
    var w := UpperAll(t[..c]);
    TrimEndShape(w);
    KeyInitial(f, false, TrimEnd(w));
    assert TrimEnd(w)[0] == w[0];
  }

  /** A trimmed line matches the pattern of at most one field. */
  lemma CaptureUnique(f: Field, g: Field, t: string)
    requires NewCapture(f, t).Some? && NewCapture(g, t).Some?
    ensures f == g
  {
    var c := KeyColon(f, false, t).value;
    KeysDisjoint(f, g, TrimEnd(UpperAll(t[..c])));
  }

  /** What the `else if` chain does to one field, when no other field's
      pattern can match together with it. */
  lemma {:induction false} ChainField(info: Info, t: string, fields: seq<Field>, f: Field)
    requires forall g | g != f :: NewCapture(f, t).Some? ==> NewCapture(g, t).None?
    ensures Get(Chain(info, t, fields), f) ==
      if f in fields && Get(info, f) == [] && NewCapture(f, t).Some?
      then Trim(NewCapture(f, t).value) else Get(info, f)
    decreases |fields|
  {
    if fields != [] {
      var g := fields[0];
      ChainField(info, t, fields[1..], f);
      assert f in fields <==> f == g || f in fields[1..];
      if g != f && NewCapture(g, t).Some? {
        assert NewCapture(f, t).None?;
      }
    }
  }

  /** One line sets field `f` exactly when its pattern matches and the field
      is still empty; the value is the capture. */
  lemma StepField(info: Info, line: string, f: Field)
    ensures var cap := NewCapture(f, Trim(line));
      Get(NewStep(info, line), f) ==
        if Get(info, f) == [] && cap.Some? then cap.value else Get(info, f)
  {
    var t := Trim(line);
    forall g | g != f
      ensures NewCapture(f, t).Some? ==> NewCapture(g, t).None?
    {
      if NewCapture(f, t).Some? && NewCapture(g, t).Some? {
        CaptureUnique(f, g, t);
      }
    }
    ChainField(info, t, Order, f);
    if NewCapture(f, t).Some? {
      CaptureClean(f, line, NewCapture(f, t).value);
    }
  }

  /** One line changes at most one field. */
  lemma NewStepOne(info: Info, line: string, f: Field, g: Field)
    requires Get(NewStep(info, line), f) != Get(info, f)
    requires Get(NewStep(info, line), g) != Get(info, g)
    ensures f == g
  {
    StepField(info, line, f);
    StepField(info, line, g);
    CaptureUnique(f, g, Trim(line));
  }

  // ---------------------------------------------------------------------
  // The new extractor: first match wins

  /** A field that holds a value keeps it to the end. */
  lemma {:induction false} NewKeeps(info: Info, lines: seq<string>, f: Field)
    requires Get(info, f) != []
    ensures Get(FoldNew(info, lines), f) == Get(info, f)
    decreases |lines|
  {
    if lines != [] {
      StepField(info, lines[0], f);
      NewKeeps(NewStep(info, lines[0]), lines[1..], f);
    }
  }

  /** A field no line matches keeps what it held. */
  lemma {:induction false} NewNone(info: Info, lines: seq<string>, f: Field)
    requires forall j | 0 <= j < |lines| :: NewCapture(f, Trim(lines[j])).None?
    ensures Get(FoldNew(info, lines), f) == Get(info, f)
    decreases |lines|
  {
    if lines != [] {
      StepField(info, lines[0], f);
      assert forall j | 0 <= j < |lines| - 1 :: lines[1..][j] == lines[j + 1];
      NewNone(NewStep(info, lines[0]), lines[1..], f);
    }
  }

  /** An empty field receives the capture of the first line that matches. */
  lemma {:induction false} NewFirst(info: Info, lines: seq<string>, f: Field, i: nat, v: string)
    requires i < |lines| && Get(info, f) == []
    requires NewCapture(f, Trim(lines[i])) == Some(v)
    requires forall j | 0 <= j < i :: NewCapture(f, Trim(lines[j])).None?
    ensures Get(FoldNew(info, lines), f) == v
    decreases i
  {
    var next := NewStep(info, lines[0]);
    StepField(info, lines[0], f);
    if i == 0 {
      CaptureClean(f, lines[0], v);
      NewKeeps(next, lines[1..], f);
    } else {
      var rest := lines[1..];
      assert rest[i - 1] == lines[i];
      forall j | 0 <= j < i - 1
        ensures NewCapture(f, Trim(rest[j])).None?
      {
        assert rest[j] == lines[j + 1];
      }
      NewFirst(next, rest, f, i - 1, v);
    }
  }

  /** The new extractor gives each field the capture of the first of the
      first ten lines that matches its pattern, which is non-empty, trimmed
      and on one line. */
  lemma ExtractNewFirst(text: string, f: Field, i: nat, v: string)
    requires i < |Window(text, NewWindow)|
    requires NewCapture(f, Trim(Window(text, NewWindow)[i])) == Some(v)
    requires forall j | 0 <= j < i :: NewCapture(f, Trim(Window(text, NewWindow)[j])).None?
    ensures Get(ExtractNew(text), f) == v
    ensures v != [] && Trim(v) == v && NoBreak(v)
  {
    var lines := Window(text, NewWindow);
    NewFirst(Blank, lines, f, i, v);
    CaptureClean(f, lines[i], v);
  }

  /** A field that none of the first ten lines matches stays empty. */
  lemma ExtractNewMissing(text: string, f: Field)
    requires forall j | 0 <= j < |Window(text, NewWindow)| ::
      NewCapture(f, Trim(Window(text, NewWindow)[j])).None?
    ensures Get(ExtractNew(text), f) == []
  {
    NewNone(Blank, Window(text, NewWindow), f);
  }

  // ---------------------------------------------------------------------
  // The old extractor

  /** Helper: every loose test ends in a colon. */
  lemma BranchColon(line: string)
    ensures OldBranch(UpperAll(line)).Some? ==> ':' in line
  {
    var u := UpperAll(line);
    if OldBranch(u).Some? {
      if Occurs("STUDENT_NAME:", u) {
        OccursChar("STUDENT_NAME:", u, 12);
      } else if Occurs("NAME:", u) {
        OccursChar("NAME:", u, 4);
      } else if Occurs("STUDENT_ID:", u) {
        OccursChar("STUDENT_ID:", u, 10);
      } else if Occurs("ID:", u) {
        OccursChar("ID:", u, 2);
      } else if Occurs("STUDENT_EMAIL:", u) {
        OccursChar("STUDENT_EMAIL:", u, 13);
      } else if Occurs("EMAIL:", u) {
        OccursChar("EMAIL:", u, 5);
      } else if Occurs("BATCH:", u) {
        OccursChar("BATCH:", u, 5);
      } else {
        OccursChar("PRACTICAL:", u, 9);
      }
      UpperColon(line);
    }
  }

  /** Helper: upper-casing makes no colon. */
  lemma UpperColon(line: string)
    requires ':' in UpperAll(line)
    ensures ':' in line
  {
    var k :| 0 <= k < |line| && UpperAll(line)[k] == ':';
    assert line[k] == ':';
  }

  /** Helper: every character of a text that occurs in `s` is in `s`. */
  lemma OccursChar(p: string, s: string, i: nat)
    requires Occurs(p, s) && i < |p|
    ensures p[i] in s
  {
    var j := FindSub(s, p).value;
    StartsWithSlice(s[j..], p);
    assert s[j + i] == s[j..][..|p|][i];
  }

  /** An upper-case letter missing from a text in both cases is missing from
      its upper-cased form. */
  lemma UpperMissing(s: string, c: char)
    requires 'A' <= c <= 'Z' && c !in s && (c as int + 32) as char !in s
    ensures c !in UpperAll(s)
  {
    forall k | 0 <= k < |s|
      ensures UpperAll(s)[k] != c
    {
      assert s[k] in s;
    }
  }

  /** The old value is the text between the first and the second colon (or
      the end), trimmed. */
  lemma OldValuePieces(a: string, b: string, more: string)
    requires ':' !in a && ':' !in b && (more == [] || more[0] == ':')
    ensures OldValue(a + [':'] + (b + more)) == Trim(b)
  {
    SplitTwo(a, b, more);
  }

  /** Helper: the second piece of a split. */
  lemma SplitTwo(a: string, b: string, more: string)
    requires ':' !in a && ':' !in b && (more == [] || more[0] == ':')
    ensures |Split(a + [':'] + (b + more), ':')| >= 2
    ensures Split(a + [':'] + (b + more), ':')[1] == b
  {
    var s := a + [':'] + (b + more);
    IndexOfAfter(a, ':', b + more);
    assert s[|a| + 1..] == b + more;
    if more == [] {
      IndexOfShape(b, ':');
      assert b + more == b;
    } else {
      IndexOfAfter(b, ':', more[1..]);
      assert b + more == b + [':'] + more[1..];
      assert (b + more)[..|b|] == b;
    }
  }

  /** What one line does to field `f` in the old extractor: a hit
      overwrites it, whatever it held. */
  lemma OldStepField(info: Info, line: string, f: Field)
    ensures Get(OldStep(info, line), f) == if Hits(f, line) then OldValue(line) else Get(info, f)
  {
  }

  /** A field no line hits keeps what it held. */
  lemma {:induction false} OldNone(info: Info, lines: seq<string>, f: Field)
    requires forall j | 0 <= j < |lines| :: !Hits(f, lines[j])
    ensures Get(FoldOld(info, lines), f) == Get(info, f)
    decreases |lines|
  {
    if lines != [] {
      OldStepField(info, lines[0], f);
      assert forall j | 0 <= j < |lines| - 1 :: lines[1..][j] == lines[j + 1];
      OldNone(OldStep(info, lines[0]), lines[1..], f);
    }
  }

  /** The last line that hits a field decides it: last match wins. */
  lemma {:induction false} OldLast(info: Info, lines: seq<string>, f: Field, i: nat)
    requires i < |lines| && Hits(f, lines[i])
    requires forall j | i < j < |lines| :: !Hits(f, lines[j])
    ensures Get(FoldOld(info, lines), f) == OldValue(lines[i])
    decreases i
  {
    NoHitsTail(lines, f, i);
    if i == 0 {
      OldLastHere(info, lines, f);
    } else {
      assert lines[1..][i - 1] == lines[i];
      OldLast(OldStep(info, lines[0]), lines[1..], f, i - 1);
    }
  }

  /** Helper: the first line hits and no later one does. */
  lemma OldLastHere(info: Info, lines: seq<string>, f: Field)
    requires lines != [] && Hits(f, lines[0])
    requires forall j | 0 <= j < |lines| - 1 :: !Hits(f, lines[1..][j])
    ensures Get(FoldOld(info, lines), f) == OldValue(lines[0])
  {
    OldStepField(info, lines[0], f);
    OldNone(OldStep(info, lines[0]), lines[1..], f);
  }

  /** Helper: the lines after `i` that miss, in the tail. */
  lemma NoHitsTail(lines: seq<string>, f: Field, i: nat)
    requires i < |lines| && forall j | i < j < |lines| :: !Hits(f, lines[j])
    ensures forall j | i <= j < |lines| - 1 :: !Hits(f, lines[1..][j])
  {
    forall j | i <= j < |lines| - 1
      ensures !Hits(f, lines[1..][j])
    {
      assert lines[1..][j] == lines[j + 1];
    }
  }

  /** The old extractor gives each field the value of the last of the first
      twenty lines that hits it. */
  lemma ExtractOldLast(text: string, f: Field, i: nat)
    requires i < |Window(text, OldWindow)| && Hits(f, Window(text, OldWindow)[i])
    requires forall j | i < j < |Window(text, OldWindow)| :: !Hits(f, Window(text, OldWindow)[j])
    ensures Get(ExtractOld(text), f) == OldValue(Window(text, OldWindow)[i])
  {
    OldLast(Blank, Window(text, OldWindow), f, i);
  }

  /** A field that none of the first twenty lines hits stays empty. */
  lemma ExtractOldMissing(text: string, f: Field)
    requires forall j | 0 <= j < |Window(text, OldWindow)| :: !Hits(f, Window(text, OldWindow)[j])
    ensures Get(ExtractOld(text), f) == []
  {
    OldNone(Blank, Window(text, OldWindow), f);
  }

  // ---------------------------------------------------------------------
  // The regression sample

  /** The lines of the sample header of test-grader-fix.js: a proper header,
      then a body whose response mentions another name on its thirteenth
      line. The text ends with a line break, so the last line is empty. */
  const SampleLines: seq<string> := [
    "STUDENT_NAME: Ajay",
    "STUDENT_ID: 2024CS004",
    "STUDENT_EMAIL: ajay@example.com",
    "BATCH: 2024",
    "PRACTICAL: 1",
    "",
    "# Practical 1: " + "Basic Prompt Engineering",
    "",
    "### Prompt 1: " + "Information Extraction",
    "**Prompt:** \"Extract info: " + "'John Smith, age 30, " + "lives in New York.'\"",
    "",
    "**Response:**",
    "- Name: John Smith",
    "- Age: 30",
    "- Location: New York",
    ""
  ]

  const Sample := Join(SampleLines, "\n")

  /** The new extractor takes the name from the header. */
  lemma SampleNew()
    ensures ExtractNew(Sample).name == "Ajay"
  {
    SampleSplit();
    assert Window(Sample, NewWindow)[0] == SampleLines[0];
    SampleNameCapture();
    ExtractNewFirst(Sample, Name, 0, "Ajay");
  }

  /** Helper: the sample splits back into its lines. */
  lemma SampleSplit()
    ensures Split(Sample, '\n') == SampleLines
  {
    SampleLinesClean();
    SplitJoin(SampleLines, '\n');
  }

  /** Helper: no sample line holds a line break. */
  lemma SampleLinesClean()
    ensures forall i | 0 <= i < |SampleLines| :: '\n' !in SampleLines[i]
  {
    HeaderLinesClean();
    TitleLinesClean();
    PromptLineClean();
    ResponseLinesClean();
  }

  lemma HeaderLinesClean()
    ensures forall i | 0 <= i < 6 :: '\n' !in SampleLines[i]
  {
  }

  lemma TitleLinesClean()
    ensures forall i | 6 <= i < 9 :: '\n' !in SampleLines[i]
  {
    TitleLineClean();
    SectionLineClean();
  }

  lemma TitleLineClean()
    ensures '\n' !in SampleLines[6]
  {
    LineClean("# Practical 1: ");
    LineClean("Basic Prompt Engineering");
  }

  lemma SectionLineClean()
    ensures '\n' !in SampleLines[8]
  {
    LineClean("### Prompt 1: ");
    LineClean("Information Extraction");
  }

  /** Helper: a sample line piece free of line breaks. */
  lemma LineClean(p: string)
    requires forall i | 0 <= i < |p| :: p[i] != '\n'
    ensures '\n' !in p
  {
  }

  lemma PromptLineClean()
    ensures '\n' !in SampleLines[9]
  {
    LineClean("**Prompt:** \"Extract info: ");
    LineClean("'John Smith, age 30, ");
    LineClean("lives in New York.'\"");
  }

  lemma ResponseLinesClean()
    ensures forall i | 10 <= i < |SampleLines| :: '\n' !in SampleLines[i]
  {
  }

  /** Helper: the first sample line matches the name pattern. */
  lemma SampleNameCapture()
    ensures NewCapture(Name, Trim("STUDENT_NAME: Ajay")) == Some("Ajay")
  {
    var t := "STUDENT_NAME" + [':'] + " Ajay";
    SampleNameParts();
    NameSpellings(Name, false, '_');
    KeyColonOf(Name, false, "STUDENT_NAME", " Ajay");
    NewCaptureIs(Name, t, 12);
    assert t[13..] == " Ajay";
  }

  /** Helper: the literal facts about the first sample line. */
  lemma SampleNameParts()
    ensures "STUDENT_NAME" + [':'] + " Ajay" == "STUDENT_NAME: Ajay"
    ensures Trim("STUDENT_NAME: Ajay") == "STUDENT_NAME: Ajay"
    ensures TrimEnd(UpperAll("STUDENT_NAME")) == "STUDENT_NAME" && ':' !in "STUDENT_NAME"
    ensures Trim(" Ajay") == "Ajay" && NoBreak("Ajay")
  {
    SampleLineTrimmed();
    SampleKeyUpper();
    SampleAjay();
  }

  lemma SampleLineTrimmed()
    ensures Trim("STUDENT_NAME: Ajay") == "STUDENT_NAME: Ajay"
  {
    TrimmedIsFixed("STUDENT_NAME: Ajay");
  }

  lemma SampleKeyUpper()
    ensures TrimEnd(UpperAll("STUDENT_NAME")) == "STUDENT_NAME" && ':' !in "STUDENT_NAME"
  {
    assert UpperAll("STUDENT_NAME") == "STUDENT_NAME";
  }

  lemma SampleAjay()
    ensures Trim(" Ajay") == "Ajay" && NoBreak("Ajay")
  {
  }

  /** The old extractor takes the name from the response in the body: the
      loose `NAME:` test hits line 13, and no later line mentions a name. */
  lemma SampleOld()
    ensures ExtractOld(Sample).name == "John Smith"
  {
    SampleSplit();
    assert Window(Sample, OldWindow) == SampleLines;
    SampleOldHit();
    SampleOldMisses();
    ExtractOldLast(Sample, Name, 12);
    SampleOldValue();
  }

  /** Helper: the value of line 13. */
  lemma SampleOldValue()
    ensures OldValue(SampleLines[12]) == "John Smith"
  {
    OldValuePieces("- Name", " John Smith", []);
    SampleValueParts();
  }

  /** Helper: the literal facts about line 13. */
  lemma SampleValueParts()
    ensures SampleLines[12] == "- Name" + [':'] + (" John Smith" + [])
    ensures ':' !in "- Name" && ':' !in " John Smith"
    ensures Trim(" John Smith") == "John Smith"
  {
    SampleValueLine();
    SampleValueTrim();
  }

  lemma SampleValueLine()
    ensures SampleLines[12] == "- Name" + [':'] + (" John Smith" + [])
  {
    assert " John Smith" + [] == " John Smith";
  }

  lemma SampleValueTrim()
    ensures ':' !in "- Name" && ':' !in " John Smith"
    ensures Trim(" John Smith") == "John Smith"
  {
  }

  /** Helper: line 13 hits the name branch. */
  lemma SampleOldHit()
    ensures Hits(Name, SampleLines[12])
  {
    SampleUpper();
    OccursIn("- ", "NAME:", " JOHN SMITH");
  }

  /** Helper: line 13 upper-cased. */
  lemma SampleUpper()
    ensures UpperAll(SampleLines[12]) == "- " + "NAME:" + " JOHN SMITH"
  {
  }

  /** Helper: a text occurs where it is put. */
  lemma OccursIn(a: string, p: string, b: string)
    ensures Occurs(p, a + p + b)
  {
    var s := a + p + b;
    assert s[|a|..] == p + b;
    StartsWithConcat(p, b);
    assert At(s, p, |a|);
  }

  /** Helper: the lines after it never hit the name branch. */
  lemma SampleOldMisses()
    ensures forall j | 12 < j < |SampleLines| :: !Hits(Name, SampleLines[j])
  {
    forall j | 12 < j < |SampleLines|
      ensures !Hits(Name, SampleLines[j])
    {
      NoNameWithoutM(SampleLines[j]);
    }
  }

  /** Both tests of the name branch need an `M`, so a line without one in
      either case never hits it. */
  lemma NoNameWithoutM(line: string)
    requires 'M' !in line && 'm' !in line
    ensures !Hits(Name, line)
  {
    UpperMissing(line, 'M');
    NoNameHit(UpperAll(line));
  }

  /** Helper: without an `M` neither name test of the chain matches. */
  lemma NoNameHit(u: string)
    requires 'M' !in u
    ensures !OldHit(Name, u)
  {
    if Occurs("NAME:", u) {
      OccursChar("NAME:", u, 2);
    }
    if Occurs("STUDENT_NAME:", u) {
      OccursChar("STUDENT_NAME:", u, 10);
    }
  }
}
