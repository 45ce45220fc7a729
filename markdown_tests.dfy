/** The unit tests of src/app/panel/markdown.rs, restated as lemmas about the
    model. */
module MarkdownTests {
  import opened TextUtil
  import opened MarkdownInline
  import opened MarkdownBlocks

  lemma StripHeadingExamples()
    ensures StripHeading("# Hello", 1) == Some("Hello")
    ensures StripHeading("## World", 2) == Some("World")
    ensures StripHeading("### Test", 3) == Some("Test")
    ensures StripHeading("#NoSpace", 1) == None
    ensures StripHeading("# ", 1) == Some("")
    ensures StripHeading("## x", 1) == None
  {
  }

  lemma RuleCounts()
    ensures Count("---", '-') == 3 && Count("***", '*') == 3 && Count("___", '_') == 3
    ensures Count("----", '-') == 4 && Count("- - -", '-') == 3
  {
  }

  lemma RuleExample(s: string)
    requires s in {"---", "***", "___", "----", "- - -"}
    ensures IsHorizontalRule(s)
  {
    TrimOfTrimmed(s);
    RuleCounts();
  }

  lemma NotRuleExample(s: string)
    requires s in {"--", "abc"}
    ensures !IsHorizontalRule(s)
  {
    TrimOfTrimmed(s);
  }

  lemma OrderedItemExamples(num: string, rest: string)
    requires (num, rest) in {("1", "First item"), ("10", "Tenth item")}
    ensures ParseOrderedItem(num + ". " + rest) == Some((num, rest))
  {
    assert IsNumeral(num);
    OrderedItemIff(num + ". " + rest, num, rest);
  }

  lemma NotOrderedItemExamples(line: string)
    requires line in {"Not a list", "a. Not ordered"}
    ensures ParseOrderedItem(line) == None
  {
  }

  /** "- - -" is a rule, not a bullet: the rule test comes first. */
  lemma RuleBeforeBullet(s: string)
    requires s == "- - -"
    ensures ClassifyLine(s) == Rule
  {
    RuleExample(s);
    TrimBlank(s);
    assert !IsBlank(s) by { assert !IsWhitespace(s[0]); }
    assert HeadingLevel(s).None? by { assert s[0] != '#'; }
  }

  lemma ExamplePlain(s: string)
    requires s == "plain text"
    ensures Tokens(s) == [Run("plain text", Plain)]
  {
    MarkerFreeLine(s);
  }

  lemma ExampleBold(s: string)
    requires s == "**bold**"
    ensures Tokens(s) == [Run("bold", Bold)]
  {
    assert s[2..6] == "bold";
    ScanClosedBold(s, 0, 6);
  }

  lemma ExampleItalic(s: string)
    requires s == "*italic*"
    ensures Tokens(s) == [Run("italic", Italic)]
  {
    assert s[1..7] == "italic";
    CharAt(s, 1, 7, '*');
    ScanAtSingleMark(s, 0);
  }

  lemma ExampleCode(s: string)
    requires s == "`code`"
    ensures Tokens(s) == [Run("code", Code)]
  {
    assert s[1..5] == "code";
    CharAt(s, 1, 5, '`');
    ScanAtSingleMark(s, 0);
  }

  const Mixed := "Hello **world** and *there*"

  lemma MixedTail()
    ensures Scan(Mixed, 15) == [Run(" and ", Plain), Run("there", Italic)]
  {
    var s := Mixed;
    assert s[15..20] == " and " && s[21..26] == "there";
    MarkerFromAt(s, 15, 20);
    CharAt(s, 21, 26, '*');
    assert Scan(s, 20) == [Run("there", Italic)];
  }

  lemma MixedBold(s: string)
    requires s == Mixed
    ensures Scan(s, 6) == [Run("world", Bold)] + Scan(s, 15)
  {
    assert s[8..13] == "world";
    ScanClosedBold(s, 6, 13);
  }

  lemma MixedHead(s: string)
    requires s == Mixed
    ensures Scan(s, 0) == [Run("Hello ", Plain)] + Scan(s, 6)
  {
    assert s[0..6] == "Hello ";
    PlainStretch(s, 0, 6);
  }

  lemma ExampleMixed(s: string)
    requires s == Mixed
    ensures Tokens(s)
      == [Run("Hello ", Plain), Run("world", Bold), Run(" and ", Plain), Run("there", Italic)]
  {
    MixedHead(s);
    MixedBold(s);
    MixedTail();
  }

  lemma ExampleMixedText(s: string)
    requires s == Mixed
    ensures Text(Tokens(s)) == "Hello " + "world" + " and " + "there"
  {
    ExampleMixed(s);
    TextOfFour(Run("Hello ", Plain), Run("world", Bold), Run(" and ", Plain), Run("there", Italic));
  }

  lemma TextOfFour(a: Run, b: Run, c: Run, d: Run)
    ensures Text([a, b, c, d]) == a.text + b.text + c.text + d.text
  {
    var runs := [a, b, c, d];
    assert Text(runs[3..]) == d.text + Text([]);
    assert Text(runs[2..]) == c.text + Text(runs[3..]);
    assert Text(runs[1..]) == b.text + Text(runs[2..]);
    assert Text(runs) == a.text + Text(runs[1..]);
  }

  lemma ExampleChinese(s: string)
    requires s == "你好 **世界**"
    ensures Tokens(s) == [Run("你好 ", Plain), Run("世界", Bold)]
  {
    assert s[..3] == "你好 " && s[5..7] == "世界";
    MarkerFromAt(s, 0, 3);
    BoldCloseAt(s, 5, 7);
    assert Scan(s, 3) == [Run("世界", Bold)];
  }

  lemma ExampleChineseItalic(s: string)
    requires s == "*中文斜体*"
    ensures Tokens(s) == [Run("中文斜体", Italic)]
  {
    assert s[1..5] == "中文斜体";
    CharAt(s, 1, 5, '*');
    ScanAtSingleMark(s, 0);
  }

  lemma ExampleChineseCode(s: string)
    requires s == "`中文代码`"
    ensures Tokens(s) == [Run("中文代码", Code)]
  {
    assert s[1..5] == "中文代码";
    CharAt(s, 1, 5, '`');
    ScanAtSingleMark(s, 0);
  }

  lemma ExampleUnclosed(s: string)
    requires s == "**unclosed"
    ensures Tokens(s) == [Run("**", Plain), Run("unclosed", Plain)]
  {
    assert s[2..] == "unclosed" && s[2..|s|] == "unclosed";
    BoldCloseNone(s, 2);
    ScanUnclosedBold(s, 0);
    PlainStretch(s, 2, |s|);
  }
}
