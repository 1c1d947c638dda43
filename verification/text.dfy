/** Character classes and the string helpers the scripts borrow from their
    runtimes: whitespace trimming, splitting on one character, joining,
    locating and replacing substrings, ASCII upper-casing.

    Whitespace is the ASCII set that Python's `str.strip()` / `\s` and
    JavaScript's `trim()` / `\s` agree on; line breaks are the ASCII line
    terminators of JavaScript regular expressions. */
module Text {
  import opened Wrappers

  /** Space, or one of tab, line feed, vertical tab, form feed and carriage
      return (the contiguous range U+0009..U+000D). */
  predicate IsSpace(c: char) {
    c == ' ' || '\t' <= c <= '\r'
  }

  /** The characters `.` refuses and `^`/`$` (multi-line) stop at. */
  predicate IsLineBreak(c: char) {
    c == '\n' || c == '\r'
  }

  predicate IsDigit(c: char) {
    '0' <= c <= '9'
  }

  predicate AllSpace(s: string) {
    forall i | 0 <= i < |s| :: IsSpace(s[i])
  }

  /** Length of the whitespace run that starts `s` (what a greedy `\s*` eats). */
  function SpanLen(s: string): (n: nat)
    ensures n <= |s|
    decreases |s|
  {
    if s != [] && IsSpace(s[0]) then 1 + SpanLen(s[1..]) else 0
  }

  /** The run is all whitespace and stops at the first other character. */
  lemma {:induction false} SpanLenShape(s: string)
    ensures AllSpace(s[..SpanLen(s)])
    ensures SpanLen(s) == |s| || !IsSpace(s[SpanLen(s)])
    decreases |s|
  {
    if s != [] && IsSpace(s[0]) {
      SpanLenShape(s[1..]);
      var m := SpanLen(s[1..]);
      assert s[..1 + m] == [s[0]] + s[1..][..m];
    }
  }

  /** The whitespace run stops at the first character that is not
      whitespace. */
  lemma {:induction false} SpanLenBefore(s: string, i: nat)
    requires i < |s| && !IsSpace(s[i])
    ensures SpanLen(s) <= i
    decreases i
  {
    if i > 0 && IsSpace(s[0]) {
      assert s[1..][i - 1] == s[i];
      SpanLenBefore(s[1..], i - 1);
    }
  }

  /** `s` without its trailing whitespace. */
  function TrimEnd(s: string): (r: string)
    ensures |r| <= |s|
    decreases |s|
  {
    if s != [] && IsSpace(s[|s| - 1]) then TrimEnd(s[..|s| - 1]) else s
  }

  /** What `TrimEnd` keeps is a prefix ending in a non-blank, and what it
      drops is whitespace. */
  lemma {:induction false} TrimEndShape(s: string)
    ensures TrimEnd(s) == s[..|TrimEnd(s)|]
    ensures AllSpace(s[|TrimEnd(s)|..])
    ensures TrimEnd(s) == [] || !IsSpace(TrimEnd(s)[|TrimEnd(s)| - 1])
    decreases |s|
  {
    if s != [] && IsSpace(s[|s| - 1]) {
      var t := s[..|s| - 1];
      TrimEndShape(t);
      var r := TrimEnd(t);
      assert t[..|r|] == s[..|r|];
      assert s[|r|..] == t[|r|..] + [s[|s| - 1]];
    }
  }

  /** `str.strip()` / `String.prototype.trim()`: `s` without its leading and
      trailing whitespace. */
  function Trim(s: string): (r: string)
    ensures |r| <= |s|
  {
    TrimEnd(s[SpanLen(s)..])
  }

  /** The trim is the slice of `s` between a leading and a trailing run of
      whitespace. */
  lemma TrimSlice(s: string)
    ensures SpanLen(s) + |Trim(s)| <= |s|
    ensures Trim(s) == s[SpanLen(s)..SpanLen(s) + |Trim(s)|]
    ensures AllSpace(s[..SpanLen(s)]) && AllSpace(s[SpanLen(s) + |Trim(s)|..])
  {
    var n := SpanLen(s);
    var t := s[n..];
    var r := TrimEnd(t);
    assert Trim(s) == r;
    assert AllSpace(s[..n]) by {
      SpanLenShape(s);
    }
    assert r == s[n..n + |r|] && AllSpace(s[n + |r|..]) by {
      TrimEndShape(t);
      SliceOfSuffix(s, n, |r|);
    }
  }

  /** Helper: slicing a suffix of `s` is slicing `s`. */
  lemma SliceOfSuffix(s: string, n: nat, k: nat)
    requires n + k <= |s|
    ensures s[n..][..k] == s[n..n + k] && s[n..][k..] == s[n + k..]
  {
  }

  /** The trim neither starts nor ends with whitespace. */
  lemma TrimEdges(s: string)
    ensures Trim(s) == [] || (!IsSpace(Trim(s)[0]) && !IsSpace(Trim(s)[|Trim(s)| - 1]))
  {
    var n := SpanLen(s);
    var t := s[n..];
    SpanLenShape(s);
    TrimEndShape(t);
    var r := TrimEnd(t);
    if r != [] {
      assert r[0] == t[0] == s[n];
    }
  }

  /** A string without whitespace at either end is its own trim. */
  lemma TrimmedIsFixed(s: string)
    requires s == [] || (!IsSpace(s[0]) && !IsSpace(s[|s| - 1]))
    ensures Trim(s) == s
  {
    assert s[0..] == s;
  }

  /** A string trims to nothing exactly when it is all whitespace. */
  lemma TrimEmpty(s: string)
    ensures Trim(s) == [] <==> AllSpace(s)
  {
    var n := SpanLen(s);
    TrimSlice(s);
    if Trim(s) == [] {
      forall i | 0 <= i < |s| ensures IsSpace(s[i]) {
        if i < n {
          assert s[i] == s[..n][i];
        } else {
          assert s[i] == s[n..][i - n];
        }
      }
    } else {
      TrimEdges(s);
      assert Trim(s)[0] == s[n];
    }
  }

  /** Whether `s` begins with `p` (`startswith`, and a regular expression's
      literal text matched at a position). */
  function StartsWith(s: string, p: string): (b: bool)
    ensures b ==> |p| <= |s|
  {
    p == [] || (s != [] && s[0] == p[0] && StartsWith(s[1..], p[1..]))
  }

  /** Helper: the middle and the front of a three-part concatenation. */
  lemma SliceMid(p: string, x: string, q: string)
    ensures |p| + |x| <= |p + x + q|
    ensures (p + x + q)[|p|..|p| + |x|] == x && (p + x + q)[..|p|] == p
  {
  }

  /** Helper: the head and tail of a concatenation with a non-empty front. */
  lemma Uncons(a: string, b: string)
    requires a != []
    ensures (a + b)[0] == a[0] && (a + b)[1..] == a[1..] + b
  {
  }

  /** Helper: putting a head back on its tail. */
  lemma Recons(a: string, x: string)
    requires a != []
    ensures [a[0]] + (a[1..] + x) == a + x
  {
    assert a == [a[0]] + a[1..];
  }

  /** Helper: appending nothing. */
  lemma AppendEmpty(c: string)
    ensures c + [] == c && [] + c == c
  {
  }

  /** Helper: the head and tail of a text made of one character and more. */
  lemma HeadText(p: string, c: char, x: string)
    requires p == [c] + x
    ensures StartsWith(p, [c]) && |p| == |x| + 1 && p[0] == c && p[1..] == x
  {
  }

  /** `StartsWith` is Dafny's prefix relation. */
  lemma {:induction false} StartsWithPrefix(s: string, p: string)
    ensures StartsWith(s, p) <==> p <= s
  {
    if p != [] && s != [] {
      StartsWithPrefix(s[1..], p[1..]);
      assert p <= s <==> (s[0] == p[0] && p[1..] <= s[1..]);
    }
  }

  /** Helper: a text starting with `p` begins with exactly `p`. */
  lemma StartsWithSlice(s: string, p: string)
    requires StartsWith(s, p)
    ensures |p| <= |s| && s[..|p|] == p
  {
    StartsWithPrefix(s, p);
  }

  /** Text starts with a prefix followed by anything. */
  lemma StartsWithConcat(p: string, x: string)
    ensures StartsWith(p + x, p)
  {
    StartsWithPrefix(p + x, p);
  }

  /** Index of the first `c` in `s`. */
  function IndexOf(s: string, c: char): (r: Option<nat>)
    ensures r.Some? ==> r.value < |s|
    decreases |s|
  {
    if s == [] then None
    else if s[0] == c then Some(0)
    else
      match IndexOf(s[1..], c)
      case None => None
      case Some(k) => Some(k + 1)
  }

  /** `IndexOf` finds nothing exactly when `c` is absent, and otherwise a `c`
      with none before it. */
  lemma {:induction false} IndexOfShape(s: string, c: char)
    ensures IndexOf(s, c).None? <==> c !in s
    ensures IndexOf(s, c).Some? ==> s[IndexOf(s, c).value] == c && c !in s[..IndexOf(s, c).value]
    decreases |s|
  {
    if s != [] && s[0] != c {
      IndexOfShape(s[1..], c);
      assert s == [s[0]] + s[1..];
      if IndexOf(s[1..], c).Some? {
        var k := IndexOf(s[1..], c).value;
        assert s[..k + 1] == [s[0]] + s[1..][..k];
      }
    }
  }

  /** The first `c` in `a + [c] + b` is the one after `a` when `a` has none. */
  lemma {:induction false} IndexOfAfter(a: string, c: char, b: string)
    requires c !in a
    ensures IndexOf(a + [c] + b, c) == Some(|a|)
    decreases |a|
  {
    var s := a + [c] + b;
    if a == [] {
      assert s[0] == c;
    } else {
      assert s[0] == a[0] && a[0] in a;
      assert s[1..] == a[1..] + [c] + b;
      assert c !in a[1..];
      IndexOfAfter(a[1..], c, b);
    }
  }

  /** Text appended after a `c` does not move the first `c`. */
  lemma {:induction false} IndexOfPrefix(a: string, c: char, b: string)
    requires c in a
    ensures IndexOf(a + b, c) == IndexOf(a, c)
    decreases |a|
  {
    var s := a + b;
    assert s[0] == a[0];
    if a[0] != c {
      assert s[1..] == a[1..] + b;
      assert c in a[1..] by {
        var k :| 0 <= k < |a| && a[k] == c;
        assert a[1..][k - 1] == c;
      }
      IndexOfPrefix(a[1..], c, b);
    }
  }

  /** `s` cut at a delimiter: the text before it and the text after it. */
  datatype Halves = Halves(before: string, after: string)

  /** `s` cut at its first `c`. */
  function CutAt(s: string, c: char): (r: Option<Halves>)
    ensures r.Some? ==> |r.value.before| + |r.value.after| < |s|
    decreases |s|
  {
    if s == [] then None
    else if s[0] == c then Some(Halves([], s[1..]))
    else
      match CutAt(s[1..], c)
      case None => None
      case Some(h) => Some(Halves([s[0]] + h.before, h.after))
  }

  /** There is a cut exactly when `c` occurs, and it is at the first `c`. */
  lemma {:induction false} CutAtShape(s: string, c: char)
    ensures CutAt(s, c).None? <==> c !in s
    ensures CutAt(s, c).Some? ==> c !in CutAt(s, c).value.before
    ensures CutAt(s, c).Some? ==> s == CutAt(s, c).value.before + [c] + CutAt(s, c).value.after
    decreases |s|
  {
    if s != [] && s[0] != c {
      CutAtShape(s[1..], c);
      assert s == [s[0]] + s[1..];
      if CutAt(s[1..], c).Some? {
        var h := CutAt(s[1..], c).value;
        ConsParts(s, h.before, c, h.after);
      }
    }
  }

  /** Helper: a text whose tail is `a c b` is its head, then `a c b`. */
  lemma ConsParts(s: string, a: string, c: char, b: string)
    requires s != [] && s[1..] == a + [c] + b
    ensures s == [s[0]] + a + [c] + b
  {
    assert s == [s[0]] + s[1..];
  }

  /** With a `c`-free `a`, `a + [c] + b` is cut into `a` and `b`. */
  lemma {:induction false} CutAtFirst(a: string, c: char, b: string)
    requires c !in a
    ensures CutAt(a + [c] + b, c) == Some(Halves(a, b))
    decreases |a|
  {
    var s := a + [c] + b;
    if a == [] {
      assert s[0] == c && s[1..] == b;
    } else {
      assert s[0] == a[0] && a[0] in a;
      assert s[1..] == a[1..] + [c] + b;
      assert c !in a[1..];
      CutAtFirst(a[1..], c, b);
      assert [a[0]] + a[1..] == a;
    }
  }

  /** A delimited stretch: the text before the opening delimiter, the text
      between the two delimiters, and the text after the closing one. */
  datatype Stretch = Stretch(before: string, inside: string, after: string)

  /** The first delimited stretch of `s`: from the first `c` to the next one. */
  function FindPair(s: string, c: char): (r: Option<Stretch>)
    ensures r.Some? ==> |r.value.after| + 2 <= |s|
  {
    match CutAt(s, c)
    case None => None
    case Some(h) =>
      match CutAt(h.after, c)
      case None => None
      case Some(k) => Some(Stretch(h.before, k.before, k.after))
  }

  /** A stretch found puts the text back together, with no `c` before it or
      inside it. */
  lemma FindPairShape(s: string, c: char)
    ensures FindPair(s, c).Some? ==>
      var t := FindPair(s, c).value;
      s == t.before + [c] + t.inside + [c] + t.after && c !in t.before && c !in t.inside
  {
    CutAtShape(s, c);
    if CutAt(s, c).Some? {
      var h := CutAt(s, c).value;
      CutAtShape(h.after, c);
      if CutAt(h.after, c).Some? {
        var k := CutAt(h.after, c).value;
        Regroup5(h.before, [c], k.before, [c], k.after);
      }
    }
  }

  /** With `c`-free `a` and `m`, the first stretch of `a c m c b` is `m`. */
  lemma FindPairAt(a: string, c: char, m: string, b: string)
    requires c !in a && c !in m
    ensures FindPair(a + [c] + m + [c] + b, c) == Some(Stretch(a, m, b))
  {
    Regroup5(a, [c], m, [c], b);
    CutAtFirst(a, c, m + [c] + b);
    CutAtFirst(m, c, b);
  }

  /** Helper: regrouping a five-part concatenation around its second part. */
  lemma Regroup5(a: string, x: string, m: string, y: string, b: string)
    ensures a + x + m + y + b == a + x + (m + y + b)
  {
  }

  /** A single `c` starts no stretch. */
  lemma FindPairSingle(a: string, c: char, b: string)
    requires c !in a && c !in b
    ensures FindPair(a + [c] + b, c).None?
  {
    CutAtFirst(a, c, b);
    CutAtShape(b, c);
  }

  /** Without any `c` there is no stretch. */
  lemma FindPairAbsent(s: string, c: char)
    requires c !in s
    ensures FindPair(s, c).None?
  {
    CutAtShape(s, c);
  }

  /** `s.split(d)` in Python and JavaScript: the pieces between occurrences
      of `d`; there is always at least one, and more than one exactly when `d`
      occurs. */
  function Split(s: string, d: char): (parts: seq<string>)
    ensures |parts| >= 1
    decreases |s|
  {
    match IndexOf(s, d)
    case None => [s]
    case Some(k) => [s[..k]] + Split(s[k + 1..], d)
  }

  /** The pieces of a split hold no `d`, and there is more than one exactly
      when `d` occurs. */
  lemma {:induction false} SplitShape(s: string, d: char)
    ensures forall i | 0 <= i < |Split(s, d)| :: d !in Split(s, d)[i]
    ensures |Split(s, d)| > 1 <==> d in s
    decreases |s|
  {
    IndexOfShape(s, d);
    if IndexOf(s, d).Some? {
      var k := IndexOf(s, d).value;
      SplitShape(s[k + 1..], d);
      var parts := [s[..k]] + Split(s[k + 1..], d);
      assert Split(s, d) == parts;
      assert s[k] in s;
      assert forall i | 1 <= i < |parts| :: parts[i] == Split(s[k + 1..], d)[i - 1];
    }
  }

  /** `sep.join(parts)` / `parts.join(sep)`. */
  function Join(parts: seq<string>, sep: string): string
    decreases |parts|
  {
    if |parts| == 0 then []
    else if |parts| == 1 then parts[0]
    else parts[0] + sep + Join(parts[1..], sep)
  }

  /** Joining the pieces of a split with the same character gives back the text. */
  lemma {:induction false} JoinSplit(s: string, d: char)
    ensures Join(Split(s, d), [d]) == s
    decreases |s|
  {
    IndexOfShape(s, d);
    match IndexOf(s, d)
    case None =>
    case Some(k) =>
      var rest := Split(s[k + 1..], d);
      JoinSplit(s[k + 1..], d);
      var parts := [s[..k]] + rest;
      assert Split(s, d) == parts;
      assert parts[1..] == rest;
      assert Join(parts, [d]) == s[..k] + [d] + Join(rest, [d]);
      assert s == s[..k] + [d] + s[k + 1..];
  }

  /** Splitting a join of `d`-free pieces gives back the pieces. */
  lemma {:induction false} SplitJoin(parts: seq<string>, d: char)
    requires |parts| >= 1
    requires forall i | 0 <= i < |parts| :: d !in parts[i]
    ensures Split(Join(parts, [d]), d) == parts
    decreases |parts|
  {
    if |parts| == 1 {
      IndexOfShape(parts[0], d);
    } else {
      var rest := Join(parts[1..], [d]);
      SplitJoin(parts[1..], d);
      var s := parts[0] + [d] + rest;
      assert Join(parts, [d]) == s;
      IndexOfAfter(parts[0], d, rest);
      assert s[..|parts[0]|] == parts[0];
      assert s[|parts[0]| + 1..] == rest;
      assert parts == [parts[0]] + parts[1..];
    }
  }

  /** Whether `p` occurs in `s` at index `j`. */
  predicate At(s: string, p: string, j: nat) {
    j <= |s| && StartsWith(s[j..], p)
  }

  /** Helper: occurrences in the tail are occurrences one further on. */
  lemma AtTail(s: string, p: string)
    requires s != []
    ensures forall j | 1 <= j <= |s| :: At(s, p, j) == At(s[1..], p, j - 1)
  {
    assert forall j | 1 <= j <= |s| :: s[j..] == s[1..][j - 1..];
  }

  /** Index of the first occurrence of `p` in `s` (`indexOf` / `str.find`). */
  function FindSub(s: string, p: string): (r: Option<nat>)
    ensures r.Some? ==> At(s, p, r.value)
    ensures r.Some? ==> forall j | 0 <= j < r.value :: !At(s, p, j)
    ensures r.None? ==> forall j | 0 <= j <= |s| :: !At(s, p, j)
    decreases |s|
  {
    if StartsWith(s, p) then
      assert s[0..] == s;
      Some(0)
    else if s == [] then None
    else
      AtTail(s, p);
      assert s[0..] == s;
      match FindSub(s[1..], p)
      case None => None
      case Some(k) => Some(k + 1)
  }

  predicate Occurs(p: string, s: string) {
    FindSub(s, p).Some?
  }

  /** Every non-overlapping occurrence of `pat`, left to right, replaced by
      `rep` (a global regular-expression replace with a literal pattern). */
  function ReplaceAll(s: string, pat: string, rep: string): string
    requires pat != []
    decreases |s|
  {
    if s == [] then []
    else if StartsWith(s, pat) then rep + ReplaceAll(s[|pat|..], pat, rep)
    else [s[0]] + ReplaceAll(s[1..], pat, rep)
  }

  /** Replacing a pattern by itself changes nothing. */
  lemma {:induction false} ReplaceAllSelf(s: string, pat: string)
    requires pat != []
    ensures ReplaceAll(s, pat, pat) == s
    decreases |s|
  {
    if s == [] {
    } else if StartsWith(s, pat) {
      ReplaceAllSelf(s[|pat|..], pat);
      StartsWithPrefix(s, pat);
      assert s == pat + s[|pat|..];
    } else {
      ReplaceAllSelf(s[1..], pat);
      assert s == [s[0]] + s[1..];
    }
  }

  /** A replace whose pattern does not occur changes nothing. */
  lemma {:induction false} ReplaceAllAbsent(s: string, pat: string, rep: string)
    requires pat != []
    requires !Occurs(pat, s)
    ensures ReplaceAll(s, pat, rep) == s
    decreases |s|
  {
    if s != [] {
      assert s[0..] == s;
      AtTail(s, pat);
      ReplaceAllAbsent(s[1..], pat, rep);
      assert s == [s[0]] + s[1..];
    }
  }

  /** ASCII upper-casing (`toUpperCase` on ASCII text). */
  function Upper(c: char): char {
    if 'a' <= c <= 'z' then (c as int - 32) as char else c
  }

  function UpperAll(s: string): (r: string)
    ensures |r| == |s|
    ensures forall i | 0 <= i < |s| :: r[i] == Upper(s[i])
  {
    seq(|s|, i requires 0 <= i < |s| => Upper(s[i]))
  }

  /** Case-insensitive test that `s` starts, at `p`, with the upper-case word `w`. */
  predicate WordAt(s: string, p: nat, w: string) {
    p + |w| <= |s| && forall i | 0 <= i < |w| :: Upper(s[p + i]) == w[i]
  }

  /** Upper-casing works character by character. */
  lemma UpperAllConcat(a: string, b: string)
    ensures UpperAll(a + b) == UpperAll(a) + UpperAll(b)
  {
  }
}
