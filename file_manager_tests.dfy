/** The outline tests of src/app.rs and the heading examples of the outline
    scanner, as lemmas about the model. */
module FileManagerTests {
  import opened TextUtil
  import opened FileManager

  lemma EmptyOutline()
    ensures Outline("") == []
  {
  }

  /** Two lines of text without a heading give an empty outline. */
  lemma NoHeadings(a: string, b: string)
    requires a == "Just some text" && b == "No headings here."
    ensures Outline(a + "\n" + b) == []
  {
    assert IndexOf(a, '\n') == |a| && IndexOf(b, '\n') == |b|;
    LineThen(a, b);
    LastLine(b);
    HeadingsSkip(a, [b]);
    HeadingsSkip(b, []);
  }

  lemma Level1(title: string)
    requires IsTrimmed(title)
    ensures OutlineHeading("# " + title) == Some((1, title))
  {
    assert ("# " + title)[1..] == [' '] + title;
    TrimLeading(' ', title);
    TrimOfTrimmed(title);
  }

  lemma Level2(title: string)
    requires IsTrimmed(title) && (title == [] || title[0] != '#')
    ensures OutlineHeading("## " + title) == Some((2, title))
  {
    assert ("## " + title)[2..] == [' '] + title;
    TrimLeading(' ', title);
    TrimOfTrimmed(title);
  }

  lemma ChapterHeadings(t1: string, t2: string, t3: string, t4: string)
    requires t1 == "Chapter 1" && t2 == "Scene 1" && t3 == "Scene 2" && t4 == "Chapter 2"
    ensures Headings(["# " + t1, "## " + t2, "## " + t3, "# " + t4]) == [(1, t1), (2, t2), (2, t3), (1, t4)]
  {
    Level1(t1);
    Level2(t2);
    Level2(t3);
    Level1(t4);
    HeadingsOfFour("# " + t1, "## " + t2, "## " + t3, "# " + t4, (1, t1), (2, t2), (2, t3), (1, t4));
  }

  /** Four heading lines give their four entries in order. */
  lemma HeadingsOfFour(l1: string, l2: string, l3: string, l4: string, h1: Flat, h2: Flat, h3: Flat, h4: Flat)
    requires OutlineHeading(l1) == Some(h1) && OutlineHeading(l2) == Some(h2)
    requires OutlineHeading(l3) == Some(h3) && OutlineHeading(l4) == Some(h4)
    ensures Headings([l1, l2, l3, l4]) == [h1, h2, h3, h4]
  {
    HeadingsTake(l4, [], h4);
    HeadingsTake(l3, [l4], h3);
    HeadingsTake(l2, [l3, l4], h2);
    HeadingsTake(l1, [l2, l3, l4], h1);
    assert [l1, l2, l3, l4] == [l1] + [l2, l3, l4];
    assert [l2, l3, l4] == [l2] + [l3, l4];
    assert [l3, l4] == [l3] + [l4];
    assert [l4] == [l4] + [];
  }

  lemma NestChapters(flat: seq<Flat>)
    requires flat == [(1, "Chapter 1"), (2, "Scene 1"), (2, "Scene 2"), (1, "Chapter 2")]
    ensures var o := Nest(flat, 1);
      && |o| == 2 && o[0].title == "Chapter 1" && |o[0].children| == 2
      && o[0].children[0].title == "Scene 1" && o[1].title == "Chapter 2" && o[1].children == []
  {
    assert RunEnd(flat, 1, 3) == 3;
    assert RunEnd(flat, 1, 1) == 3;
    var inner := flat[1..3];
    assert RunEnd(inner, 2, 1) == 1;
    assert Nest(inner[1..], 2) == [OutlineEntry(2, "Scene 2", [])];
    assert Nest(flat[3..], 1) == [OutlineEntry(1, "Chapter 2", [])];
  }

  /** "# Chapter 1\n## Scene 1\n## Scene 2\n# Chapter 2\n": two chapters,
      the first with both scenes as children, the second with none. */
  lemma ChapterOutline(t1: string, t2: string, t3: string, t4: string)
    requires t1 == "Chapter 1" && t2 == "Scene 1" && t3 == "Scene 2" && t4 == "Chapter 2"
    ensures var o := Outline(Terminated(["# " + t1, "## " + t2, "## " + t3, "# " + t4]));
      && |o| == 2 && o[0].title == "Chapter 1" && |o[0].children| == 2
      && o[0].children[0].title == "Scene 1" && o[1].title == "Chapter 2" && o[1].children == []
  {
    var ls := ["# " + t1, "## " + t2, "## " + t3, "# " + t4];
    assert forall i :: 0 <= i < |ls| ==> IsPlainLine(ls[i]);
    LinesOfTerminated(ls);
    ChapterHeadings(t1, t2, t3, t4);
    NestChapters([(1, t1), (2, t2), (2, t3), (1, t4)]);
  }

  /** "# A\n### B": B has no level-2 opener and is dropped. */
  lemma OrphanDropped()
    ensures Nest([(1, "A"), (3, "B")], 1) == [OutlineEntry(1, "A", [])]
  {
    var flat: seq<Flat> := [(1, "A"), (3, "B")];
    assert RunEnd(flat, 1, 1) == 2;
    assert flat[1..2] == [(3, "B")];
    assert Nest([(3, "B")], 2) == [];
  }

  /** One "#" needs a space or the end of the line after it. */
  lemma NoSpaceAfterOneHash(line: string)
    requires line == "#NoSpace"
    ensures OutlineHeading(line) == None
  {
    assert line[1] == 'N';
  }

  /** A plain "stem.ext" file name has extension "ext". */
  lemma ExtensionOfPlainName(stem: string, ext: string)
    requires stem != [] && ext != [] && '.' !in ext && '/' !in stem && '/' !in ext
    ensures Extension(stem + "." + ext) == Some(ext)
  {
    var name := stem + "." + ext;
    assert name[|stem|] == '.';
    assert '/' !in name by {
      forall j | 0 <= j < |name| ensures name[j] != '/' {
        if j < |stem| { assert name[j] == stem[j]; }
        else if j > |stem| { assert name[j] == ext[j - |stem| - 1]; }
      }
    }
    FileNameAlone(name);
    ExtensionOfName(name, stem, ext);
  }

  /** "test.md" is Markdown. */
  lemma OpenMarkdownFile(stem: string, ext: string)
    requires stem == "test" && ext == "md"
    ensures IsMarkdown(NewOpenFile(stem + "." + ext, ""))
  {
    ExtensionOfPlainName(stem, ext);
  }

  /** "test.json" is not Markdown, and is JSON. */
  lemma OpenJsonFile(stem: string, ext: string)
    requires stem == "test" && ext == "json"
    ensures !IsMarkdown(NewOpenFile(stem + "." + ext, "")) && IsJson(NewOpenFile(stem + "." + ext, ""))
  {
    ExtensionOfPlainName(stem, ext);
  }

  /** "test.md" is titled "test.md", and "● test.md" once modified. */
  lemma OpenFileTitle(name: string)
    requires name == "test.md"
    ensures Title(NewOpenFile(name, "")) == "test.md"
    ensures Title(NewOpenFile(name, "").(modified := true)) == "● test.md"
  {
    FileNameAlone(name);
  }
}
