# text-tool core in Dafny

A verified model of the core of text-tool, a desktop writing tool for novels.
The core has four parts:

- **Markdown intelligence:**
  - the outline extractor that turns headings into a tree;
  - the block renderer of the preview;
  - the inline tokenizer that splits one line into plain, bold, italic and code runs.
- **Open files:** the title and kind of a file open in an editor pane.
- **Application state:**
  - the two editor panes with their bounded undo stacks;
  - the lists of characters, chapters and foreshadowing entries, with their selection;
  - the related-chapters field.
- **Planning panels:**
  - the chapter-structure tree, addressed by paths of child indices;
  - the world-objects panel, with its reverse lookup of the structure nodes that link an object.

The files follow the program's modules:

| file | module | models |
|---|---|---|
| text.dfy | TextUtil | `str::trim`, `str::lines`, `str::split` and `join`, as the Rust standard library defines them |
| seq_util.dfy | SeqUtil | `Vec::remove` and `Vec::swap` on sequence values |
| markdown_inline.dfy | MarkdownInline | `build_inline_job`, and the fast path of `render_inline_text` |
| markdown_blocks.dfy | MarkdownBlocks | `render_markdown`, `strip_heading`, `is_horizontal_rule`, `parse_ordered_item` |
| markdown_tests.dfy | MarkdownTests | the unit tests of markdown.rs |
| file_manager.dfy | FileManager | `parse_outline`, `nest_entries`, and `OpenFile::new` / `title` / `is_markdown` / `is_json` |
| file_manager_tests.dfy | FileManagerTests | the outline and open-file tests |
| headings.dfy | HeadingDialects | how the outline's heading test and the preview's heading test relate |
| app.dfy | App | the editing state of `TextToolApp` and the undo stacks |
| structure.dfy | Structure | the structure tree and its panel |
| world_objects.dfy | WorldObjects | the world-objects panel and the reverse-link walk |

Code that updates state in place is written as methods of a class:

- `App.TextToolApp`, `Structure.StructurePanel` and `WorldObjects.ObjectsPanel` hold the fields of the application that each part uses.
- Every method states the new state outright.
- Recursive walks and scanning loops are methods with loop invariants. Each is proved equal to a specification function, and the lemmas state what those functions mean:
  - `BuildInlineJob`;
  - `RenderMarkdown`;
  - `ParseOutline` and `NestEntries`;
  - `Walk`;
  - `VisibleObjects`.

Where the code and the design description of the program disagree, the model follows the code:

- **Outline headings:** the outline takes any line that starts with "##" up to "######" as a heading, with or without a space after the hashes. Only the one-hash case demands a space or the end of the line.
  - `HeadingDialects.TagLine` shows that "##tag" is an outline heading of level 2 but not a preview heading.
  - `HeadingDialects.SevenHashes` shows that "####### x" is an outline heading of level 6 with the title "# x", but not a preview heading.
  - `HeadingDialects.PreviewHeadingInOutline` shows that every preview heading is an outline heading of the same level.
- **Fast path:** the fast path of `render_inline_text` matches the full scan on every non-empty line. On the empty line it draws one empty plain label where the scan draws nothing, and the visible text is the same (`MarkdownInline.FastPathAgrees`).
- **Blank object links:** linking an object to a structure node does not check for a blank name: a blank input is linked as the empty name (`Structure.StructurePanel.LinkSelectedObject`), as src/app/panel/outline.rs:235-236 and 310-317 do.
- **Unclosed fence:** a code fence left open at the end of the document draws nothing (`MarkdownBlocks.UnterminatedFence`).

## Model

| member | source | states |
|---|---|---|
| TextUtil.TrimStartSpec | src/app/file_manager.rs:60 | `trim_start` removes exactly the leading Unicode whitespace: the result is a suffix, what was dropped is whitespace, and the result starts with a non-whitespace character or is empty |
| TextUtil.TrimEndSpec | src/app/panel/markdown.rs:133 | `trim_end` removes exactly the trailing whitespace: the result is a prefix, what was dropped is whitespace, and the result ends with a non-whitespace character or is empty |
| TextUtil.TrimSpec | src/app/file_manager.rs:60 | `trim` leaves no whitespace at either end |
| TextUtil.TrimOfTrimmed | src/app.rs:984-986 | a string with no whitespace at its ends is its own trim |
| TextUtil.TrimEndsCommute | src/app/panel/markdown.rs:146 | trimming the start and then the end gives the same result as the other order |
| TextUtil.TrimBlank | src/app/panel/markdown.rs:55 | a line trims to nothing exactly when it is all whitespace |
| TextUtil.IndexOf | src/app/panel/markdown.rs:21 | the first position of a character, or the length when it does not occur |
| TextUtil.LineThen | src/app/panel/markdown.rs:21 | `lines` yields a line ended by "\n" (and not "\r\n") as it is, then the lines of the rest |
| TextUtil.LinesOfTerminated | src/app/file_manager.rs:58 | `lines` gives back exactly the lines of a text whose every line is ended by "\n" |
| TextUtil.LinesOfJoin | src/app/panel/markdown.rs:21 | `lines` inverts joining with "\n" |
| TextUtil.LineStep | src/app/panel/markdown.rs:21 | `lines` cuts at the first "\n" and strips one "\r" before it |
| TextUtil.LastLine | src/app/panel/markdown.rs:21 | a non-empty text without "\n" is one line |
| TextUtil.SplitWhere | src/app.rs:984 | `split` on a set of separators gives at least one piece |
| TextUtil.SplitWhereNoSep | src/app.rs:984 | no piece of a split holds a separator |
| TextUtil.SplitThen | src/app.rs:984 | a separator and a last piece after a text add exactly that piece to its split |
| TextUtil.SplitOfJoin | src/app.rs:981-984 | splitting a join of separator-free pieces gives the pieces back |
| SeqUtil.RemoveAt | src/app.rs:615 | `Vec::remove(i)` shifts the items after `i` down by one and keeps the ones before |
| SeqUtil.SwapSpec | src/app.rs:724 | `Vec::swap` exchanges the two items, keeps all others, preserves the multiset, and undoes itself |
| MarkdownInline.BoldCloseFrom | src/app/panel/markdown.rs:222-228 | the search for a closing "**" stops at a "**" or when fewer than two bytes remain |
| MarkdownInline.BoldCloseFirst | src/app/panel/markdown.rs:222-228 | no "**" lies before the place the search stops, so it finds the first one |
| MarkdownInline.BoldCloseNone | src/app/panel/markdown.rs:220-241 | with no marker after the opening "**" the search finds no closing one |
| MarkdownInline.CharFrom | src/app/panel/markdown.rs:252-254 | the search for the closing marker stops at an occurrence or at the end |
| MarkdownInline.CharFromFirst | src/app/panel/markdown.rs:252-254 | the marker does not occur before the place the search stops, so it finds the first one |
| MarkdownInline.MarkerFrom | src/app/panel/markdown.rs:287-289 | a plain stretch stops at a '*' or '`', or at the end |
| MarkdownInline.MarkerFromFree | src/app/panel/markdown.rs:287-289 | a plain stretch holds no marker, so it runs to the next one |
| MarkdownInline.Emit | src/app/panel/markdown.rs:205-211 | a span becomes a run exactly when it is not empty |
| MarkdownInline.FirstSpan | src/app/panel/markdown.rs:213-290 | each step of the scan keeps a slice of the text at or after the cursor and moves the cursor forward |
| MarkdownInline.FirstSpanDrops | src/app/panel/markdown.rs:213-290 | what a step skips before and after the kept slice is marker characters only |
| MarkdownInline.SpanWellFormed | src/app/panel/markdown.rs:213-290 | the run of one step is well formed |
| MarkdownInline.ScanWellFormed | src/app/panel/markdown.rs:213-290 | every run is non-empty; plain runs hold no marker except the literal "**" of an unclosed bold; code runs hold no '`' and italic runs no '*' |
| MarkdownInline.PlainStretch | src/app/panel/markdown.rs:287-289 | a marker-free stretch up to a marker or the end is one plain run |
| MarkdownInline.ScanClosedBold | src/app/panel/markdown.rs:214-238 | "**", marker-free text and "**" give one bold run of the text, and the scan resumes after the closing "**" |
| MarkdownInline.ScanUnclosedBold | src/app/panel/markdown.rs:239-245 | an opening "**" without a closing one is a literal plain "**" run, and the scan resumes after it |
| MarkdownInline.ScanAtSingleMark | src/app/panel/markdown.rs:247-286 | a single '*' or '`' opens an italic or code run up to the same marker, or to the end if it is not closed |
| MarkdownInline.StepText | src/app/panel/markdown.rs:213-290 | the text of the scan is the slice kept by the first step, then the text of the rest |
| MarkdownInline.SpanDeletes | src/app/panel/markdown.rs:213-290 | dropping markers around a kept slice still deletes only markers |
| MarkdownInline.BoldSpan | src/app/panel/markdown.rs:214-246 | the bold branch consumes at least the opening "**", and its runs plus the scan from where it stops are the scan from the opening |
| MarkdownInline.DelimitedSpan | src/app/panel/markdown.rs:248-286 | the code and italic branches, likewise |
| MarkdownInline.MarkupSpan | src/app/panel/markdown.rs:213-290 | at a marker, the runs are the pending plain run, then the run of the step at the marker, and the cursor moves to where that step resumes |
| MarkdownInline.MarkupStep | src/app/panel/markdown.rs:213-290 | those runs followed by the scan from the new cursor are the scan from where the pending plain text began |
| MarkdownInline.Advance | src/app/panel/markdown.rs:213-290 | one turn of the cursor loop moves the cursor forward and keeps the loop invariant: the runs so far plus the scan of what remains are the runs of the line |
| MarkdownInline.BuildInlineJob | src/app/panel/markdown.rs:192-298 | the cursor loop produces exactly the runs of the specification scan |
| MarkdownInline.RenderInlineText | src/app/panel/markdown.rs:172-184 | a line without markers is one plain run of the whole line; any other line goes through the scan |
| MarkdownInline.MarkerFreeLine | src/app/panel/markdown.rs:172-180 | on a non-empty line without markers the scan gives that one plain run |
| MarkdownInline.FastPathAgrees | src/app/panel/markdown.rs:172-184 | the fast path gives the scan's runs on every non-empty line, and the same text on every line |
| MarkdownInline.ScanDeletesMarkers | src/app/panel/markdown.rs:213-290 | the text of the runs is the scanned text with some marker characters deleted and nothing else changed |
| MarkdownInline.TokensDeleteOnlyMarkers | src/app/panel/markdown.rs:192-298 | the shown text of a line is the line with only markers deleted: the same non-marker characters in the same order, and never longer |
| MarkdownInline.NonMarkers | src/app/panel/markdown.rs:192-298 | the non-marker characters of a text hold no marker and are no more than the text |
| MarkdownInline.DeletesKeepsNonMarkers | src/app/panel/markdown.rs:192-298 | deleting markers keeps the non-marker characters and never lengthens the text |
| MarkdownBlocks.StripHeading | src/app/panel/markdown.rs:128-142 | a line is accepted at level n exactly when it is n '#' followed by a space or the end; the text is then what follows the space, right-trimmed, or "" |
| MarkdownBlocks.HeadingLevelUnique | src/app/panel/markdown.rs:128-142 | a line is a heading of at most one level |
| MarkdownBlocks.HeadingLevel | src/app/panel/markdown.rs:61-77 | the heading chain picks the first level from 1 to 6 that accepts the line, and none when no level does |
| MarkdownBlocks.Utf8Len | src/app/panel/markdown.rs:147 | the byte length of a text is at least its number of characters |
| MarkdownBlocks.HorizontalRuleIff | src/app/panel/markdown.rs:145-156 | a rule is exactly a trimmed line whose first character is '-', '*' or '_', with only that character and spaces, and at least three of that character; the byte-length test adds nothing |
| MarkdownBlocks.FindDotSpace | src/app/panel/markdown.rs:160 | `find(". ")` gives the first occurrence, or none when there is none |
| MarkdownBlocks.ParseOrderedItem | src/app/panel/markdown.rs:159-167 | a parsed item is a non-empty ASCII numeral, ". ", and the rest, and they put the line back together |
| MarkdownBlocks.OrderedItemIff | src/app/panel/markdown.rs:159-167 | the parse gives (num, rest) exactly when the line is num + ". " + rest with num a non-empty numeral |
| MarkdownBlocks.StripPrefix | src/app/panel/markdown.rs:85 | `strip_prefix` succeeds exactly when the line starts with the prefix, and gives what follows it |
| MarkdownBlocks.ClassifyLine | src/app/panel/markdown.rs:54-81 | a spacer exactly for blank lines; a non-blank line with a heading level is that heading, with the text `strip_heading` gives, and a heading only at levels 1 to 6; a rule exactly for a non-blank, non-heading rule line |
| MarkdownBlocks.QuoteRest | src/app/panel/markdown.rs:84 | the quote prefix matches exactly the lines opening with '>', and drops one space after it if there is one |
| MarkdownBlocks.BulletRest | src/app/panel/markdown.rs:95-97 | the bullet prefix matches exactly the lines opening with "- ", "* " or "+ ", and leaves what follows those two characters |
| MarkdownBlocks.ClassifyPriority | src/app/panel/markdown.rs:83-120 | past the rule test, a line opening with '>' is a quote; else one with a bullet prefix is a bullet; else one that parses as an ordered item is one; else it is a paragraph; each in both directions, with the text each renders |
| MarkdownBlocks.Blocks | src/app/panel/markdown.rs:21-122 | one block per segment of the fence pass |
| MarkdownBlocks.RenderMarkdown | src/app/panel/markdown.rs:16-123 | the line loop with its in-code-block flag and line buffer gives the blocks of the specification pass |
| MarkdownBlocks.LinesPassThrough | src/app/panel/markdown.rs:21-48 | outside a fence, lines that are not fences are handed on one by one |
| MarkdownBlocks.OneBlockPerLine | src/app/panel/markdown.rs:49-121 | without fences every line gives exactly one block, its own classification |
| MarkdownBlocks.FenceBuffers | src/app/panel/markdown.rs:49-52 | inside a fence, lines that are not fences are buffered verbatim |
| MarkdownBlocks.FencedCode | src/app/panel/markdown.rs:23-47 | an opening fence, non-fence lines and a closing fence give one code block of those lines joined by "\n", and the pass goes on outside the fence |
| MarkdownBlocks.UnterminatedFence | src/app/panel/markdown.rs:23-52 | a fence still open at the end of the document gives no block |
| MarkdownBlocks.AtMostOneBlockPerLine | src/app/panel/markdown.rs:21-122 | the pass never gives more blocks than lines |
| MarkdownTests.StripHeadingExamples | src/app/panel/markdown.rs:307-313 | the `strip_heading` test cases |
| MarkdownTests.RuleExample | src/app/panel/markdown.rs:316-321 | the lines the rule test accepts are rules |
| MarkdownTests.NotRuleExample | src/app/panel/markdown.rs:322-323 | "--" and "abc" are not rules |
| MarkdownTests.OrderedItemExamples | src/app/panel/markdown.rs:328-334 | "1. First item" and "10. Tenth item" parse into their numeral and rest |
| MarkdownTests.NotOrderedItemExamples | src/app/panel/markdown.rs:336-337 | "Not a list" and "a. Not ordered" are not ordered items |
| MarkdownTests.RuleBeforeBullet | src/app/panel/markdown.rs:79-98 | "- - -" is drawn as a rule, not as a bullet |
| MarkdownTests.ExamplePlain | src/app/panel/markdown.rs:341-347 | "plain text" is one plain run |
| MarkdownTests.ExampleBold | src/app/panel/markdown.rs:350-354 | "**bold**" is one bold run "bold" |
| MarkdownTests.ExampleItalic | src/app/panel/markdown.rs:357-362 | "*italic*" is one italic run |
| MarkdownTests.ExampleCode | src/app/panel/markdown.rs:365-369 | "`code`" is one code run |
| MarkdownTests.ExampleMixed | src/app/panel/markdown.rs:372-377 | the mixed line gives plain "Hello ", bold "world", plain " and ", italic "there" |
| MarkdownTests.ExampleMixedText | src/app/panel/markdown.rs:372-377 | its text is "Hello world and there" |
| MarkdownTests.ExampleChinese | src/app/panel/markdown.rs:380-385 | multi-byte text before a bold span is kept whole |
| MarkdownTests.ExampleChineseItalic | src/app/panel/markdown.rs:388-393 | a multi-byte italic span |
| MarkdownTests.ExampleChineseCode | src/app/panel/markdown.rs:396-400 | a multi-byte code span |
| MarkdownTests.ExampleUnclosed | src/app/panel/markdown.rs:403-408 | an unclosed "**" stays as literal text |
| FileManager.OutlineHeading | src/app/file_manager.rs:59-73 | a line is a heading exactly when it starts with '#' followed by '#', a space or the end; the level is the number of leading '#' up to six, and the title is the trimmed rest |
| FileManager.Headings | src/app/file_manager.rs:57-74 | the flat list has at most one entry per line, each of level 1 to 6 |
| FileManager.RunEnd | src/app/file_manager.rs:85-88 | the children of an entry are the longest following run of deeper entries |
| FileManager.RunEndAt | src/app/file_manager.rs:85-88 | the run ends exactly at the first entry that is not deeper, or at the end |
| FileManager.NestOpenerAt | src/app/file_manager.rs:84-94 | an opener at depth d becomes one node whose children nest its run, followed by the nodes of what comes after the run |
| FileManager.ParseOutline | src/app/file_manager.rs:56-76 | the line loop gives the outline of the specification |
| FileManager.NestEntries | src/app/file_manager.rs:78-104 | the nesting loop, with its skip and break cases, gives the specification nesting |
| FileManager.NestLevelled | src/app/file_manager.rs:90-94 | every node built at depth d has level d, and its children d + 1, recursively |
| FileManager.OpenerKeepsOrder | src/app/file_manager.rs:90-94 | if the run after an opener and what follows it keep their order, so does the whole list |
| FileManager.NestKeepsOrder | src/app/file_manager.rs:78-104 | the pre-order walk of the outline is the flat heading list with some entries left out, in document order |
| FileManager.OutlineLevelsBounded | src/app/file_manager.rs:56-104 | every outline node is a heading of the document, with a level from 1 to 6, so the `u8` depth never overflows |
| FileManager.NestNeverBreaks | src/app/file_manager.rs:78-104 | with no entry above depth d, `nest_entries` equals the recursion without its `break` branch, whose demand that no entry be above the depth holds again in every recursive call |
| FileManager.OutlineNeverBreaks | src/app/file_manager.rs:75-104 | from `parse_outline`, at depth 1 over headings of level 1 to 6, the `break` branch never fires at any depth |
| FileManager.NestLossless | src/app/file_manager.rs:78-104 | for headings that skip no level, the pre-order walk of the outline is exactly the flat list |
| FileManager.NewOpenFile | src/app/file_manager.rs:116-118 | a new open file has the given path and content and is not modified |
| FileManager.Components | src/app/file_manager.rs:127 | the normal components of a path are non-empty, not ".", and hold no '/' |
| FileManager.FileName | src/app/file_manager.rs:127 | a file name is a non-empty component other than "." and "..", without '/' |
| FileManager.LastDot | src/app/file_manager.rs:139 | the position of the last '.' of a name, or none |
| FileManager.Extension | src/app/file_manager.rs:139 | an extension exists only with a file name and holds no '.' |
| FileManager.FileNameAlone | src/app/file_manager.rs:127 | a bare name is its own file name |
| FileManager.FileNameInDir | src/app/file_manager.rs:127 | the directories before a name do not change its file name |
| FileManager.ExtensionOfName | src/app/file_manager.rs:137-149 | a name stem + "." + ext, with a non-empty stem and no '.' in ext, has extension ext |
| FileManager.HiddenFileNoExtension | src/app/file_manager.rs:137-149 | a name whose only '.' is its first character has no extension |
| FileManager.TitleInDir | src/app/file_manager.rs:126-135 | the title is the file name, with "● " in front while modified |
| FileManager.TitleWithoutName | src/app/file_manager.rs:126-135 | a path without a file name is titled "untitled", marked while modified |
| FileManager.KindsExclusive | src/app/file_manager.rs:137-149 | no file is both Markdown and JSON, and Markdown means extension "md" or "markdown" |
| FileManagerTests.EmptyOutline | src/app.rs:1644-1647 | the empty text has an empty outline |
| FileManagerTests.NoHeadings | src/app.rs:1662-1666 | text without headings has an empty outline |
| FileManagerTests.Level1 | src/app/file_manager.rs:69-72 | "# " + a trimmed title is a level-1 heading with that title |
| FileManagerTests.Level2 | src/app/file_manager.rs:67-68 | "## " + a trimmed title is a level-2 heading with that title |
| FileManagerTests.ChapterHeadings | src/app.rs:1650-1659 | the test document's flat heading list |
| FileManagerTests.NestChapters | src/app.rs:1650-1659 | nesting that list gives two roots, the first with the two scenes |
| FileManagerTests.ChapterOutline | src/app.rs:1650-1659 | the test document's outline: two chapters, two scenes under the first, none under the second |
| FileManagerTests.OrphanDropped | src/app/file_manager.rs:96-98 | a heading two levels below its predecessor is dropped from the outline |
| FileManagerTests.NoSpaceAfterOneHash | src/app/file_manager.rs:69-72 | "#NoSpace" is not a heading |
| FileManagerTests.ExtensionOfPlainName | src/app/file_manager.rs:137-149 | a name stem + "." + ext without '/' and with no '.' in ext has the extension ext |
| FileManagerTests.OpenMarkdownFile | src/app.rs:1669-1674 | "test.md" is Markdown |
| FileManagerTests.OpenJsonFile | src/app.rs:1669-1674 | "test.json" is JSON and not Markdown |
| FileManagerTests.OpenFileTitle | src/app.rs:1677-1682 | the title of "test.md" is "test.md", and "● test.md" once modified |
| HeadingDialects.OutlineOfPreviewHeading | src/app/file_manager.rs:59-73 | n hashes, 1 to 6, then a space or the end make an outline heading of level n with the trimmed rest as title |
| HeadingDialects.TitleAfterSpace | src/app/file_manager.rs:60 | trimming the rest after the hashes is trimming what follows the space the preview skips |
| HeadingDialects.PreviewHeadingInOutline | src/app/panel/markdown.rs:61-77 | a line the preview draws as a heading is an outline heading of the same level, with the left-trimmed text |
| HeadingDialects.TagLine | src/app/file_manager.rs:67-68 | "##tag" is an outline heading of level 2 but not a preview heading |
| HeadingDialects.SevenHashesAnyLine | src/app/file_manager.rs:59-68 | a line opening with seven hashes is an outline heading of level 6 whose title keeps the extra hashes, and no preview heading |
| HeadingDialects.SevenHashes | src/app/file_manager.rs:59-60 | seven hashes: the outline takes six and keeps the seventh in the title; the preview draws no heading |
| App.PushUndoSpec | src/app.rs:1385-1391 | an edit that changed the text pushes the old text on top, drops the oldest entry once past 200, and keeps the stack within 200; an edit that changed nothing leaves the stack alone |
| App.RepairKeepsItem | src/app.rs:614-621 | after a deletion the selection is cleared exactly when the selected item went, and otherwise it still names the same item |
| App.TrimEach | src/app.rs:985 | every piece trimmed, in order |
| App.NonEmpty | src/app.rs:986 | only non-empty pieces kept, each one of the input |
| App.NonEmptyAppend | src/app.rs:986 | the filter distributes over concatenation, so the kept pieces keep their order |
| App.NonEmptyOne | src/app.rs:986 | a single piece is kept exactly when it is not empty |
| App.NonEmptyMembers | src/app.rs:986 | the pieces kept are exactly the non-empty pieces of the input |
| App.SplitRelatedEntries | src/app.rs:983-987 | every related chapter the split keeps is non-empty, trimmed and free of separators |
| App.TrimEachOfTrimmed | src/app.rs:985 | trimming trimmed pieces changes nothing |
| App.NonEmptyOfNonEmpty | src/app.rs:986 | filtering non-empty pieces changes nothing |
| App.SplitRelatedOfJoin | src/app.rs:981-987 | showing a list of entries joined with "、" and splitting it again gives the list back |
| App.SplitAtDoubleComma | src/app.rs:984 | splitting "x,,y" leaves an empty piece between x and y |
| App.SplitRelatedDropsEmpty | src/app.rs:983-987 | "x,,y" gives the two entries x and y: the empty piece between the separators is dropped |
| App.SplitRelatedStable | src/app.rs:981-987 | splitting is idempotent: re-splitting the joined result changes nothing |
| App.TextToolApp.constructor | src/app.rs:370-402 | the start state: no files, empty stacks, left pane focused, the welcome status, empty lists and inputs |
| App.TextToolApp.OpenFileInPane | src/app.rs:441-455 | a successful read puts a fresh unmodified file in the pane, clears that pane's undo stack and reports "已打开: " + path; a failed read only reports "打开失败: " + message |
| App.TextToolApp.Focus | src/app.rs:1382-1384 | the focused editor becomes the undo target |
| App.TextToolApp.EditPane | src/app.rs:1385-1393 | an edit sets the pane's text, marks it modified and pushes the old text onto the bounded stack |
| App.TextToolApp.Undo | src/app.rs:1530-1546 | Ctrl+Z pops the last-focused pane's stack into its text, marks it modified and reports which side |
| App.TextToolApp.AddCharacter | src/app.rs:628-636 | a non-blank trimmed name is appended, selected and the input cleared; a blank name changes nothing |
| App.TextToolApp.RemoveCharacter | src/app.rs:614-621 | the character goes and the selection is repaired |
| App.TextToolApp.AddChapter | src/app.rs:652-660 | as for characters, with chapter titles |
| App.TextToolApp.RemoveChapter | src/app.rs:726-733 | the chapter goes and the selection is repaired |
| App.TextToolApp.MoveChapterLeft | src/app.rs:703-725 | the chapter trades places with its left neighbour, the multiset of chapters is kept, and the selection is not touched |
| App.TextToolApp.MoveChapterRight | src/app.rs:707-725 | the chapter trades places with its right neighbour, likewise |
| App.TextToolApp.AddForeshadow | src/app.rs:923-931 | as for characters, with foreshadowing entries |
| App.TextToolApp.RemoveForeshadow | src/app.rs:959-966 | the entry goes and the selection is repaired |
| App.TextToolApp.EditRelatedChapters | src/app.rs:981-987 | the selected entry's related chapters become the split of the edited line; nothing else changes |
| Structure.ReplaceAt | src/app/panel/outline.rs:78 | writing through the node reference keeps the number of roots |
| Structure.ReplaceAtHits | src/app/panel/outline.rs:78 | after a write the path leads to the new node |
| Structure.ReplaceAtMisses | src/app/panel/outline.rs:78 | a write leaves every path apart from it as it was |
| Structure.ReplaceAtSame | src/app/panel/outline.rs:312-316 | writing back the node that is there changes nothing |
| Structure.ChildOfParent | src/app/panel/outline.rs:413-416 | a node at a deeper path is child `last` of the node at the path's prefix |
| Structure.ChildPath | src/app/panel/outline.rs:80-83 | the parent path extended by a child index leads to that child |
| Structure.RemovedViaParent | src/app/panel/outline.rs:407-417 | removing through the parent is the removal followed from the root |
| Structure.RemovedSpec | src/app/panel/outline.rs:413-416 | the parent now has its child list without child `last`, and every node apart from the parent's path is unchanged |
| Structure.MovedUpViaParent | src/app/panel/outline.rs:419-432 | moving through the parent is the move followed from the root |
| Structure.MovedUpSpec | src/app/panel/outline.rs:426-430 | the parent's children are swapped at idx-1 and idx, its multiset of children is kept, and every node apart from the parent's path is unchanged |
| Structure.MovedUpFirst | src/app/panel/outline.rs:420-422 | moving up a first child changes nothing |
| Structure.LinkObjectSpec | src/app/panel/outline.rs:310-318 | linking makes the name present, keeps what was there, adds no duplicate and is idempotent |
| Structure.StructurePanel.RemoveNodeAt | src/app/panel/outline.rs:407-417 | `remove_node_at`: an empty path changes nothing, a one-index path removes that root if in range, a deeper path removes child `last` of an existing parent if in range |
| Structure.StructurePanel.MoveNodeUp | src/app/panel/outline.rs:419-432 | `move_node_up`: nothing for an empty path or index 0; otherwise a swap with the previous sibling, checked against the child count below the root, required in range at the root |
| Structure.StructurePanel.AddRoot | src/app/panel/outline.rs:46-50 | a non-blank trimmed title is appended as a root, selected as [old count] and the field cleared |
| Structure.StructurePanel.AddChild | src/app/panel/outline.rs:77-85 | only if the parent exists: the child is appended and selected as the parent path plus [old child count] |
| Structure.StructurePanel.RemoveNode | src/app/panel/outline.rs:86-91 | the node is removed, and the selection is cleared exactly when the removed path is a prefix of it, otherwise kept without renumbering |
| Structure.StructurePanel.MoveUp | src/app/panel/outline.rs:92-104 | the node moves up, and the selection follows only when it was exactly the moved path |
| Structure.StructurePanel.LinkSelectedObject | src/app/panel/outline.rs:310-318 | the trimmed name is linked to the selected node unless already there, and the input is always cleared |
| WorldObjects.PreOrderAppend | src/app/panel/characters.rs:315-320 | the walk of two lists of siblings is the walk of the first, then of the second |
| WorldObjects.PreOrderOne | src/app/panel/characters.rs:316-319 | a node is visited before its descendants |
| WorldObjects.LinkingTitlesBounded | src/app/panel/characters.rs:316 | each node gives at most one title however often it links the name, and exactly the linking nodes give titles |
| WorldObjects.PreOrderHasPath | src/app/panel/characters.rs:315-320 | every node the walk visits is reached by some path |
| WorldObjects.PathInPreOrder | src/app/panel/characters.rs:315-320 | every node some path reaches is visited |
| WorldObjects.ReverseLinksSpec | src/app/panel/characters.rs:312-324 | a title is reported exactly when a node at some depth links the name and has that title; never more titles than nodes; no roots, no titles |
| WorldObjects.Walk | src/app/panel/characters.rs:315-321 | the recursive walk appends to `out` exactly the pre-order titles of the linking nodes |
| WorldObjects.CollectNodesLinkingObject | src/app/panel/characters.rs:312-324 | the result is the pre-order list of titles of the nodes linking the name |
| WorldObjects.ObjectsPanel.ClickAllChip | src/app/panel/characters.rs:29-32 | the "全部" chip clears the filter |
| WorldObjects.ObjectsPanel.ClickKindChip | src/app/panel/characters.rs:33-43 | a kind chip sets its kind as the filter, or clears the filter if it already was |
| WorldObjects.ObjectsPanel.VisibleObjects | src/app/panel/characters.rs:48-53 | the listed indices are increasing and are exactly the objects of the filter's kind, or all objects without a filter |
| WorldObjects.ObjectsPanel.AddObject | src/app/panel/characters.rs:84-92 | a non-blank trimmed name becomes a new last object of the chosen kind, selected, with the input cleared; a blank name changes nothing |
| WorldObjects.ObjectsPanel.RemoveObject | src/app/panel/characters.rs:97-104 | the object goes; the selection is cleared if it was it, one less if after it, else kept, so it still names the same object |
| WorldObjects.ObjectsPanel.AddLink | src/app/panel/characters.rs:262-287 | with an existing selected object and a non-blank trimmed name, a link to a node or an object per the toggle, with the chosen relation and the trimmed note, is appended and both inputs cleared; otherwise nothing changes |

## Left out

- Drawing: egui layout, colours, font sizes and widgets are not modelled. A block keeps its kind and its text or runs, and a run keeps its style tag.
- I/O: reading and writing files, dialogs, the project tree and the JSON / Markdown sync and export are not modelled. A file read is a parameter of `OpenFileInPane` that holds either the text or the error message. `OpenFile::save` is not modelled.
- serde serialization of the data model is not modelled.
- `count_progress` (src/app/panel/outline.rs:434-438) is not modelled: it depends on `leaf_count` and `done_count`, which are not part of this model.
- Labels, icons and colour tables of src/app/models.rs: only the enum variants are mirrored.
- The context files src/app/mod.rs, src/app/panel_novel.rs, src/app/panel_outline.rs, src/app/ui_helpers.rs and src/app/panel_llm.rs are not part of this model.
- `StructNode`, `node_at_mut`, `WorldObject`, `ObjectKind`, `ObjectLink`, `LinkTarget` and `WorldObject::new` are not part of this model's sources, so these assumptions stand in for them:
  - a structure node holds a title, its children and the names of linked objects, and its kind, done flag, tag and node links are not modelled;
  - `node_at_mut` follows a path of child indices and gives nothing for an empty path or any index out of range;
  - an object holds a name, a kind, a description, a background and its links, and a new object has the last three empty;
  - an object kind is its position in `ObjectKind::all()`.
- Structure.StructurePanel.AddRoot: the kind chosen for a new node, and the "新…" default title of a child added from a node's context menu, are not modelled, because the node kind is not part of this model. `AddChild` takes the title as a parameter.
- App.TextToolApp.MoveChapterLeft: the selection stays on the index, not on the moved chapter, as in the code.
- MarkdownInline.BuildInlineJob: one turn of the loop is the helper method `Advance`; the `flush_plain!` macro and the three branches of the loop are the helper methods `MarkupSpan`, `BoldSpan` and `DelimitedSpan`.
- Strings are sequences of Unicode scalar values, not UTF-8 bytes. The tokenizer's markers are ASCII, so a byte cursor and a character cursor stop at the same places. `Utf8Len` gives the byte length where the code tests `len()`.
- `to_string_lossy` and `to_str` on file names are the identity: paths are strings here.
- FileManager.FileName: paths follow Unix rules ('/' separators, no prefixes or drive letters).
- Editing an object's fields in place (kind, name, description, background) and removing a single link are direct widget bindings and are not modelled.
- The autocomplete hints of the link editor are not modelled: they only display.
