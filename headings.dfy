/** The two heading tests of the program side by side: the preview's
    `strip_heading` (src/app/panel/markdown.rs) and the outline's prefix test
    in `parse_outline` (src/app/file_manager.rs). Every preview heading is an
    outline heading of the same level, but not the other way round. */
module HeadingDialects {
  import opened TextUtil
  import opened MarkdownBlocks
  import opened FileManager

  /** A line of `n` hashes followed by a space or the end of the line is an
      outline heading of level `n` whose title is the trimmed rest. */
  lemma OutlineOfPreviewHeading(line: string, n: nat)
    requires 1 <= n <= 6 && IsHeadingOf(line, n)
    ensures OutlineHeading(line) == Some((n, Trim(line[n..])))
  {
    forall i | 0 <= i < n ensures line[i] == '#' {
      assert line[i] == line[..n][i];
    }
    assert OutlineHeading(line).Some?;
    var k := OutlineHeading(line).value.0;
    forall i | 0 <= i < k ensures line[i] == '#' {
      assert line[i] == line[..k][i];
    }
  }

  /** The outline trims the space after the hashes that the preview skips. */
  lemma TitleAfterSpace(line: string, n: nat)
    requires n < |line| && line[n] == ' '
    ensures Trim(line[n..]) == TrimStart(TrimEnd(line[n + 1..]))
  {
    assert line[n..] == [' '] + line[n + 1..];
    TrimLeading(' ', line[n + 1..]);
    TrimEndsCommute(line[n + 1..]);
  }

  /** A line the preview draws as a heading is listed in the outline at the
      same level; the outline title is the preview text with its leading
      whitespace trimmed as well. */
  lemma PreviewHeadingInOutline(line: string)
    requires ClassifyLine(line).Heading?
    ensures var b := ClassifyLine(line);
      OutlineHeading(line) == Some((b.level, TrimStart(b.text)))
  {
    var b := ClassifyLine(line);
    OutlineOfPreviewHeading(line, b.level);
    if |line| > b.level {
      TitleAfterSpace(line, b.level);
    } else {
      assert line[b.level..] == [];
    }
  }

  /** "##tag" is an outline heading of level 2 but not a preview heading:
      the outline does not look for a space after two or more hashes. */
  lemma TagLine(line: string)
    requires line == "##tag"
    ensures OutlineHeading(line) == Some((2, "tag"))
    ensures !ClassifyLine(line).Heading?
  {
    assert line[2..] == "tag";
    assert TrimStart("tag") == "tag" && TrimEnd("tag") == "tag";
    assert !IsBlank(line) by {
      TrimBlank(line);
      assert !IsWhitespace(line[0]);
    }
    assert HeadingLevel(line).None? by {
      assert line[2] == 't';
    }
  }

  /** A line that opens with seven hashes: the outline takes the first six
      and keeps the rest in the title; the preview has no heading of level 7. */
  lemma SevenHashesAnyLine(line: string)
    requires |line| >= 7 && forall i :: 0 <= i < 7 ==> line[i] == '#'
    ensures OutlineHeading(line) == Some((6, Trim(line[6..])))
    ensures !ClassifyLine(line).Heading?
  {
    assert StartsWith(line, "######") by {
      assert line[..6] == "######";
    }
    assert !IsBlank(line) by {
      TrimBlank(line);
      assert !IsWhitespace(line[0]);
    }
    assert forall n :: 1 <= n <= 6 ==> !IsHeadingOf(line, n) by {
      forall n | 1 <= n <= 6 ensures !IsHeadingOf(line, n) {
        assert line[n] == '#';
      }
    }
  }

  /** "####### x": the outline title is "# x". */
  lemma SevenHashes(line: string)
    requires line == "####### x"
    ensures OutlineHeading(line) == Some((6, "# x"))
    ensures !ClassifyLine(line).Heading?
  {
    SevenHashesAnyLine(line);
    assert line[6..] == "# x";
    assert TrimStart("# x") == "# x" && TrimEnd("# x") == "# x";
  }
}
