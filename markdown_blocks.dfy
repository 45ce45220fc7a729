/** The block level of the Markdown preview (`render_markdown` and its helpers
    in src/app/panel/markdown.rs): the text is split into lines, fenced code
    is collected, and every other line becomes exactly one block. Drawing is
    reduced to the block kind and its text or runs. */
module MarkdownBlocks {
  import opened TextUtil
  import opened MarkdownInline

  datatype Block =
    | Heading(level: nat, text: string)
    | CodeBlock(text: string)
    | Rule
    | Quote(runs: seq<Run>)
    | Bullet(runs: seq<Run>)
    | Ordered(num: string, runs: seq<Run>)
    | Para(runs: seq<Run>)
    | Spacer

  // ── strip_heading ───────────────────────────────────────────────────────────

  function Hashes(n: nat): (h: string)
    ensures |h| == n && forall i :: 0 <= i < n ==> h[i] == '#'
  {
    seq(n, _ => '#')
  }

  /** A line that `strip_heading(line, n)` accepts: `n` '#' followed by a
      space or by the end of the line. */
  predicate IsHeadingOf(line: string, n: nat) {
    StartsWith(line, Hashes(n)) && (|line| == n || line[n] == ' ')
  }

  /** `strip_heading`: the text after the one space that follows the `n`
      hashes, right-trimmed; `""` when the hashes end the line. */
  function StripHeading(line: string, n: nat): (r: Option<string>)
    ensures r.Some? <==> IsHeadingOf(line, n)
    ensures r.Some? && |line| == n ==> r.value == []
    ensures r.Some? && |line| > n ==> r.value == TrimEnd(line[n + 1..])
  {
    if StartsWith(line, Hashes(n)) then
      var after := line[n..];
      if after != [] && after[0] == ' ' then Some(TrimEnd(after[1..]))
      else if after == [] then Some([])
      else None
    else None
  }

  /** A line is a heading of at most one level. */
  lemma HeadingLevelUnique(line: string, n: nat, m: nat)
    requires StripHeading(line, n).Some? && StripHeading(line, m).Some?
    ensures n == m
  {
  }

  // ── is_horizontal_rule ──────────────────────────────────────────────────────

  /** The number of bytes of the UTF-8 encoding of `c`. */
  function Utf8Width(c: char): (w: nat)
    ensures 1 <= w <= 4
  {
    if c < '\U{80}' then 1 else if c < '\U{800}' then 2 else if c < '\U{10000}' then 3 else 4
  }

  /** `str::len`: the length in bytes of the UTF-8 encoding. */
  function Utf8Len(s: string): (n: nat)
    ensures n >= |s|
  {
    if s == [] then 0 else Utf8Width(s[0]) + Utf8Len(s[1..])
  }

  function Count(s: string, c: char): (n: nat)
    ensures n <= |s|
  {
    if s == [] then 0 else (if s[0] == c then 1 else 0) + Count(s[1..], c)
  }

  predicate IsRuleChar(c: char) {
    c == '-' || c == '*' || c == '_'
  }

  /** `is_horizontal_rule`, with the byte-length test of the source. */
  function IsHorizontalRule(line: string): bool {
    var trimmed := Trim(line);
    if Utf8Len(trimmed) < 3 then false
    else
      var first := trimmed[0];
      if !IsRuleChar(first) then false
      else (forall i :: 0 <= i < |trimmed| ==> trimmed[i] == first || trimmed[i] == ' ')
           && Count(trimmed, first) >= 3
  }

  /** The byte-length test is implied by the count test: a horizontal rule
      is a trimmed line of one rule character, repeated at least three
      times, with spaces in between. */
  lemma HorizontalRuleIff(line: string)
    ensures IsHorizontalRule(line) <==>
      var t := Trim(line);
      && t != []
      && IsRuleChar(t[0])
      && (forall i :: 0 <= i < |t| ==> t[i] == t[0] || t[i] == ' ')
      && Count(t, t[0]) >= 3
  {
  }

  // ── parse_ordered_item ──────────────────────────────────────────────────────

  predicate DotSpaceAt(s: string, k: nat) {
    k + 1 < |s| && s[k] == '.' && s[k + 1] == ' '
  }

  /** `str::find(". ")`. */
  function FindDotSpace(s: string): (r: Option<nat>)
    ensures r.Some? ==> DotSpaceAt(s, r.value) && forall j :: 0 <= j < r.value ==> !DotSpaceAt(s, j)
    ensures r.None? ==> forall j :: 0 <= j < |s| ==> !DotSpaceAt(s, j)
  {
    FindDotSpaceFrom(s, 0)
  }

  function FindDotSpaceFrom(s: string, from: nat): (r: Option<nat>)
    requires from <= |s|
    ensures r.Some? ==> from <= r.value && DotSpaceAt(s, r.value)
                        && forall j :: from <= j < r.value ==> !DotSpaceAt(s, j)
    ensures r.None? ==> forall j :: from <= j < |s| ==> !DotSpaceAt(s, j)
    decreases |s| - from
  {
    if from == |s| then None
    else if DotSpaceAt(s, from) then Some(from)
    else FindDotSpaceFrom(s, from + 1)
  }

  predicate IsAsciiDigit(c: char) {
    '0' <= c <= '9'
  }

  predicate IsNumeral(s: string) {
    s != [] && forall i :: 0 <= i < |s| ==> IsAsciiDigit(s[i])
  }

  /** `parse_ordered_item`: the number before the first ". " and the text
      after it, when that number is a non-empty run of ASCII digits. */
  function ParseOrderedItem(line: string): (r: Option<(string, string)>)
    ensures r.Some? ==> IsNumeral(r.value.0) && r.value.0 + ". " + r.value.1 == line
  {
    match FindDotSpace(line)
    case None => None
    case Some(dot) =>
      var num := line[..dot];
      if IsNumeral(num) then
        assert line == num + ". " + line[dot + 2..];
        Some((num, line[dot + 2..]))
      else None
  }

  /** An ordered item is recognised exactly when the line is a numeral, ". "
      and a rest; the parse then gives that numeral and that rest back. */
  lemma OrderedItemIff(line: string, num: string, rest: string)
    ensures ParseOrderedItem(line) == Some((num, rest)) <==>
            IsNumeral(num) && line == num + ". " + rest
  {
    if IsNumeral(num) && line == num + ". " + rest {
      assert DotSpaceAt(line, |num|);
      assert forall j :: 0 <= j < |num| ==> !DotSpaceAt(line, j) by {
        forall j | 0 <= j < |num| ensures !DotSpaceAt(line, j) {
          assert line[j] == num[j];
        }
      }
      assert line[..|num|] == num;
      assert line[|num| + 2..] == rest;
    }
  }

  // ── One line outside a fence ────────────────────────────────────────────────

  /** The blank-line test `line.trim().is_empty()`. */
  predicate IsBlank(line: string) {
    Trim(line) == []
  }

  /** The first heading level from 1 to 6 that `strip_heading` accepts. */
  function HeadingLevel(line: string): (r: Option<nat>)
    ensures r.Some? ==> 1 <= r.value <= 6 && IsHeadingOf(line, r.value)
    ensures r.Some? ==> forall n :: 1 <= n < r.value ==> !IsHeadingOf(line, n)
    ensures r.None? ==> forall n :: 1 <= n <= 6 ==> !IsHeadingOf(line, n)
  {
    HeadingLevelFrom(line, 1)
  }

  function HeadingLevelFrom(line: string, n: nat): (r: Option<nat>)
    requires 1 <= n <= 7
    ensures r.Some? ==> n <= r.value <= 6 && IsHeadingOf(line, r.value)
    ensures r.Some? ==> forall m :: n <= m < r.value ==> !IsHeadingOf(line, m)
    ensures r.None? ==> forall m :: n <= m <= 6 ==> !IsHeadingOf(line, m)
    decreases 7 - n
  {
    if n == 7 then None
    else if StripHeading(line, n).Some? then Some(n)
    else HeadingLevelFrom(line, n + 1)
  }

  /** `line.strip_prefix(p)`. */
  function StripPrefix(line: string, p: string): (r: Option<string>)
    ensures r.Some? <==> StartsWith(line, p)
    ensures r.Some? ==> line == p + r.value && r.value == line[|p|..]
  {
    if StartsWith(line, p) then
      assert line == p + line[|p|..];
      Some(line[|p|..])
    else None
  }

  /** The blockquote prefix "> ", else ">": a quote is any line opening
      with '>', and one space after it is dropped too. */
  function QuoteRest(line: string): (q: Option<string>)
    ensures q.Some? <==> StartsWith(line, ">")
    ensures q.Some? ==> q.value == if StartsWith(line, "> ") then line[2..] else line[1..]
  {
    assert StartsWith(line, "> ") ==> line[..1] == line[..2][..1];
    var r := StripPrefix(line, "> ");
    if r.Some? then r else StripPrefix(line, ">")
  }

  /** The bullet prefixes "- ", "* " and "+ ", tried in that order; all
      three are two characters long. */
  function BulletRest(line: string): (q: Option<string>)
    ensures q.Some? <==> StartsWith(line, "- ") || StartsWith(line, "* ") || StartsWith(line, "+ ")
    ensures q.Some? ==> q.value == line[2..]
  {
    var r := StripPrefix(line, "- ");
    if r.Some? then r
    else
      var r2 := StripPrefix(line, "* ");
      if r2.Some? then r2 else StripPrefix(line, "+ ")
  }

  /** The block of one line outside a code fence, tried in the source's
      order: blank, headings 1 to 6, rule, quote, bullet, ordered, paragraph.
      Headings keep their raw text; the others go through the inline
      renderer. */
  function ClassifyLine(line: string): (b: Block)
    ensures b == Spacer <==> IsBlank(line)
    ensures b.Heading? ==> !IsBlank(line) && 1 <= b.level <= 6
                           && StripHeading(line, b.level) == Some(b.text)
    ensures !IsBlank(line) && HeadingLevel(line).Some?
            ==> b == Heading(HeadingLevel(line).value, StripHeading(line, HeadingLevel(line).value).value)
    ensures b == Rule <==> !IsBlank(line) && HeadingLevel(line).None? && IsHorizontalRule(line)
  {
    if IsBlank(line) then Spacer
    else
      match HeadingLevel(line)
      case Some(n) => Heading(n, StripHeading(line, n).value)
      case None =>
        if IsHorizontalRule(line) then Rule
        else match QuoteRest(line)
          case Some(rest) => Quote(RenderInlineText(rest))
          case None =>
            match BulletRest(line)
            case Some(rest) => Bullet(RenderInlineText(rest))
            case None =>
              match ParseOrderedItem(line)
              case Some((num, rest)) => Ordered(num, RenderInlineText(rest))
              case None => Para(RenderInlineText(line))
  }

  /** A line that is not blank, not a heading and not a rule: it is then a
      quote, a bullet, an ordered item or a paragraph. */
  predicate PastRule(line: string) {
    !IsBlank(line) && HeadingLevel(line).None? && !IsHorizontalRule(line)
  }

  predicate HasBulletPrefix(line: string) {
    StartsWith(line, "- ") || StartsWith(line, "* ") || StartsWith(line, "+ ")
  }

  /** The order of the remaining tests: a line opening with '>' is a quote;
      else one opening with a bullet prefix is a bullet; else one that parses
      as an ordered item is one; every other line is a paragraph. */
  lemma ClassifyPriority(line: string)
    ensures var b := ClassifyLine(line);
      && (b.Quote? <==> PastRule(line) && StartsWith(line, ">"))
      && (b.Quote? ==> b.runs == RenderInlineText(if StartsWith(line, "> ") then line[2..] else line[1..]))
      && (b.Bullet? <==> PastRule(line) && !StartsWith(line, ">") && HasBulletPrefix(line))
      && (b.Bullet? ==> b.runs == RenderInlineText(line[2..]))
      && (b.Ordered? <==> PastRule(line) && !StartsWith(line, ">") && !HasBulletPrefix(line)
                          && ParseOrderedItem(line).Some?)
      && (b.Ordered? ==> b.num == ParseOrderedItem(line).value.0
                         && b.runs == RenderInlineText(ParseOrderedItem(line).value.1))
      && (b.Para? <==> PastRule(line) && !StartsWith(line, ">") && !HasBulletPrefix(line)
                       && ParseOrderedItem(line).None?)
      && (b.Para? ==> b.runs == RenderInlineText(line))
  {
  }

  // ── render_markdown ─────────────────────────────────────────────────────────

  /** A fence line: "```" after any leading whitespace. */
  predicate IsFence(line: string) {
    StartsWith(TrimStart(line), "```")
  }

  /** What the fence pass hands on: a closed fence with the lines it
      buffered, or a line to classify. */
  datatype Segment = Fenced(code: seq<string>) | Line(text: string)

  /** The fence pass over `lines`, inside a fence or not, with `buf` the code
      lines collected since the fence opened. A fence still open at the end
      yields nothing. */
  function Segments(lines: seq<string>, inCode: bool, buf: seq<string>): seq<Segment>
    decreases |lines|
  {
    if lines == [] then []
    else
      var line := lines[0];
      if IsFence(line) then
        if inCode then [Fenced(buf)] + Segments(lines[1..], false, [])
        else Segments(lines[1..], true, buf)
      else if inCode then Segments(lines[1..], true, buf + [line])
      else [Line(line)] + Segments(lines[1..], false, buf)
  }

  /** A closed fence becomes one code block of its lines joined by "\n". */
  function BlockOf(seg: Segment): Block {
    match seg
    case Fenced(code) => CodeBlock(Join(code, "\n"))
    case Line(text) => ClassifyLine(text)
  }

  function Blocks(segs: seq<Segment>): (bs: seq<Block>)
    ensures |bs| == |segs|
  {
    if segs == [] then [] else [BlockOf(segs[0])] + Blocks(segs[1..])
  }

  /** The blocks of a whole document. */
  function Render(content: string): seq<Block> {
    Blocks(Segments(Lines(content), false, []))
  }

  lemma {:induction false} BlocksAppend(a: seq<Segment>, b: seq<Segment>)
    ensures Blocks(a + b) == Blocks(a) + Blocks(b)
    decreases |a|
  {
    if a != [] {
      assert (a + b)[0] == a[0] && (a + b)[1..] == a[1..] + b;
      BlocksAppend(a[1..], b);
      AppendAssoc([BlockOf(a[0])], Blocks(a[1..]), Blocks(b));
    } else {
      assert a + b == b;
    }
  }

  lemma {:induction false} BlocksAt(segs: seq<Segment>, i: nat)
    requires i < |segs|
    ensures Blocks(segs)[i] == BlockOf(segs[i])
    decreases i
  {
    if i > 0 {
      BlocksAt(segs[1..], i - 1);
    }
  }

  /** `render_markdown`: one pass over the lines with an `inCodeBlock` flag
      and a `codeLines` buffer, emitting each block as soon as it is known. */
  method RenderMarkdown(content: string) returns (blocks: seq<Block>)
    ensures blocks == Render(content)
  {
    var lines := Lines(content);
    blocks := [];
    var inCodeBlock := false;
    var codeLines: seq<string> := [];
    for k := 0 to |lines|
      invariant blocks + Blocks(Segments(lines[k..], inCodeBlock, codeLines)) == Render(content)
    {
      var line := lines[k];
      assert lines[k..][0] == line && lines[k..][1..] == lines[k + 1..];
      if IsFence(line) {
        if inCodeBlock {
          var codeText := Join(codeLines, "\n");
          var rest := Segments(lines[k + 1..], false, []);
          BlocksAppend([Fenced(codeLines)], rest);
          AppendAssoc(blocks, [CodeBlock(codeText)], Blocks(rest));
          codeLines := [];
          inCodeBlock := false;
          blocks := blocks + [CodeBlock(codeText)];
        } else {
          inCodeBlock := true;
        }
        continue;
      }
      if inCodeBlock {
        codeLines := codeLines + [line];
        continue;
      }
      var rest := Segments(lines[k + 1..], false, codeLines);
      BlocksAppend([Line(line)], rest);
      var block := ClassifyLine(line);
      AppendAssoc(blocks, [block], Blocks(rest));
      blocks := blocks + [block];
    }
  }

  // ── Properties of the block pass ───────────────────────────────────────────

  predicate NoFence(lines: seq<string>) {
    forall i :: 0 <= i < |lines| ==> !IsFence(lines[i])
  }

  /** Outside a fence, a stretch without fence lines is handed on line by
      line. */
  lemma {:induction false} LinesPassThrough(lines: seq<string>, buf: seq<string>)
    requires NoFence(lines)
    ensures Segments(lines, false, buf) == seq(|lines|, i requires 0 <= i < |lines| => Line(lines[i]))
    decreases |lines|
  {
    if lines != [] {
      assert !IsFence(lines[0]);
      LinesPassThrough(lines[1..], buf);
    }
  }

  /** Without fences every line gives exactly one block: its classification. */
  lemma OneBlockPerLine(lines: seq<string>)
    requires NoFence(lines)
    ensures |Blocks(Segments(lines, false, []))| == |lines|
    ensures forall i :: 0 <= i < |lines| ==> Blocks(Segments(lines, false, []))[i] == ClassifyLine(lines[i])
  {
    LinesPassThrough(lines, []);
    var segs := Segments(lines, false, []);
    forall i | 0 <= i < |lines|
      ensures Blocks(segs)[i] == ClassifyLine(lines[i])
    {
      BlocksAt(segs, i);
    }
  }

  /** Inside a fence, lines without a fence are buffered verbatim and never
      classified: nothing is handed on before the fence closes. */
  lemma {:induction false} FenceBuffers(body: seq<string>, rest: seq<string>, buf: seq<string>)
    requires NoFence(body)
    ensures Segments(body + rest, true, buf) == Segments(rest, true, buf + body)
    decreases |body|
  {
    if body == [] {
      assert body + rest == rest && buf + body == buf;
    } else {
      assert (body + rest)[0] == body[0] && (body + rest)[1..] == body[1..] + rest;
      FenceBuffers(body[1..], rest, buf + [body[0]]);
      assert buf + [body[0]] + body[1..] == buf + body;
    }
  }

  /** An opening fence, lines without a fence and a closing fence give
      exactly one code block holding those lines joined by "\n" (the empty
      string for no lines); the pass then continues outside the fence. */
  lemma FencedCode(open: string, body: seq<string>, close: string, rest: seq<string>)
    requires IsFence(open) && IsFence(close) && NoFence(body)
    ensures Blocks(Segments([open] + body + [close] + rest, false, []))
         == [CodeBlock(Join(body, "\n"))] + Blocks(Segments(rest, false, []))
  {
    var lines := [open] + body + [close] + rest;
    assert lines[0] == open && lines[1..] == body + ([close] + rest);
    FenceBuffers(body, [close] + rest, []);
    assert [] + body == body;
    assert ([close] + rest)[1..] == rest;
    BlocksAppend([Fenced(body)], Segments(rest, false, []));
  }

  /** A fence still open at the end of the input emits nothing. */
  lemma UnterminatedFence(open: string, body: seq<string>)
    requires IsFence(open) && NoFence(body)
    ensures Blocks(Segments([open] + body, false, [])) == []
  {
    assert ([open] + body)[1..] == body;
    FenceBuffers(body, [], []);
    assert body + [] == body;
  }

  /** The pass never makes more blocks than there are lines. */
  lemma {:induction false} AtMostOneBlockPerLine(lines: seq<string>, inCode: bool, buf: seq<string>)
    ensures |Segments(lines, inCode, buf)| <= |lines|
    decreases |lines|
  {
    if lines != [] {
      AtMostOneBlockPerLine(lines[1..], false, []);
      AtMostOneBlockPerLine(lines[1..], true, buf);
      AtMostOneBlockPerLine(lines[1..], true, buf + [lines[0]]);
      AtMostOneBlockPerLine(lines[1..], false, buf);
    }
  }
}
