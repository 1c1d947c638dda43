/** The three conversion tools side by side on the same template literals:
    where they agree and where their outputs differ. */
module CrossCheck {
  import opened Rewrite
  import ConvertTemplates
  import FixTemplates
  import FixBackticks

  /** A template literal that is one hole: the Python tool keeps the empty
      literals `"" + (x) + ""`, while both JavaScript tools reduce it to
      `(x)`. */
  lemma LoneHoleAcrossTools(x: string)
    requires Plain(x) && x != []
    ensures ConvertTemplates.ConvertFile("`${" + x + "}`") == "\"\" + (" + x + ") + \"\""
    ensures FixTemplates.ConvertFile("`${" + x + "}`") == "(" + x + ")"
    ensures FixBackticks.ConvertAsWritten("`${" + x + "}`") == "(" + x + ")"
    ensures ConvertTemplates.ConvertFile("`${" + x + "}`") != FixTemplates.ConvertFile("`${" + x + "}`")
  {
    FixBackticks.LoneHoleSpan(x);
    ConvertTemplates.ConvertFileSpan("${" + x + "}");
    ConvertTemplates.ConvertLiteralLoneHole(x);
    FixTemplates.ConvertFileLoneHole(x);
    FixBackticks.ConvertLoneHole(x);
    assert |"\"\" + (" + x + ") + \"\""| != |"(" + x + ")"|;
  }

  /** A template literal of plain text: all three tools give the same
      double-quoted string. */
  lemma PlainSpanAcrossTools(c: string)
    requires Plain(c)
    ensures ConvertTemplates.ConvertFile("`" + c + "`") == "\"" + c + "\""
    ensures FixTemplates.ConvertFile("`" + c + "`") == "\"" + c + "\""
    ensures FixBackticks.ConvertAsWritten("`" + c + "`") == "\"" + c + "\""
  {
    PlainFacts(c);
    PlainMore(c);
    ConvertTemplates.ConvertFileSpan(c);
    ConvertTemplates.ConvertLiteralPlain(c);
    FixTemplates.ConvertFilePlainSpan(c);
    FixBackticks.ConvertPlainSpan(c);
  }
}
