/** The editing state of the application in src/app.rs: the two editor panes
    with their bounded undo stacks, and the character, chapter and
    foreshadowing lists with their selections. Drawing is left out; each
    method is what one user action does to the state. */
module App {
  import opened TextUtil
  import opened SeqUtil
  import opened FileManager

  // ── Data of the lists ───────────────────────────────────────────────────────

  datatype RelationKind = Friend | Enemy | Family | OtherRelation
  datatype Relationship = Relationship(target: string, kind: RelationKind)
  datatype Character = Character(name: string, traits: string, background: string,
                                 relationships: seq<Relationship>)

  datatype ChapterTag = Normal | Climax | ForeshadowTag | Transition
  datatype Chapter = Chapter(title: string, tag: ChapterTag, summary: string,
                             wordCount: nat, done: bool)

  datatype Foreshadow = Foreshadow(name: string, description: string,
                                   relatedChapters: seq<string>, resolved: bool)

  /** `Character::new`. */
  function NewCharacter(name: string): Character {
    Character(name, [], [], [])
  }

  /** `Chapter::new`. */
  function NewChapter(title: string): Chapter {
    Chapter(title, Normal, [], 0, false)
  }

  /** `Foreshadow::new`. */
  function NewForeshadow(name: string): Foreshadow {
    Foreshadow(name, [], [], false)
  }

  /** The outcome of reading a file: its text or the error message. */
  datatype ReadResult = Read(text: string) | Failed(message: string)

  // ── Bounded undo ────────────────────────────────────────────────────────────

  const UndoLimit: nat := 200

  /** The undo stack after an edit turned `prev` into `cur`: `prev` goes to
      the back unless nothing changed, and the front (oldest) entry is
      dropped once there are more than `UndoLimit`. */
  function PushUndo(stack: seq<string>, prev: string, cur: string): seq<string> {
    if prev == cur then stack
    else
      var pushed := stack + [prev];
      if |pushed| > UndoLimit then pushed[1..] else pushed
  }

  /** A push keeps the stack within the limit, puts `prev` on top and keeps
      the newest of the older entries, dropping only the oldest one and only
      when the stack was full. */
  lemma PushUndoSpec(stack: seq<string>, prev: string, cur: string)
    requires |stack| <= UndoLimit
    ensures var r := PushUndo(stack, prev, cur);
      && |r| <= UndoLimit
      && (prev == cur ==> r == stack)
      && (prev != cur ==> r != [] && r[|r| - 1] == prev
                          && r[..|r| - 1] == (if |stack| == UndoLimit then stack[1..] else stack))
  {
    var r := PushUndo(stack, prev, cur);
    if prev != cur && |stack| == UndoLimit {
      assert r == stack[1..] + [prev];
    }
  }

  // ── Lists with a selection ──────────────────────────────────────────────────

  /** The selection after item `idx` is removed: cleared if it was `idx`,
      moved down one if it was after it, otherwise unchanged. */
  function RepairSelection(sel: Option<nat>, idx: nat): Option<nat> {
    if sel == Some(idx) then None
    else if sel.Some? && sel.value > idx then Some(sel.value - 1)
    else sel
  }

  /** The repaired selection is cleared exactly when the selected item went,
      and otherwise still names the same item. */
  lemma RepairKeepsItem<T>(xs: seq<T>, sel: Option<nat>, idx: nat)
    requires idx < |xs|
    ensures var r := RepairSelection(sel, idx);
      && (r.None? <==> sel.None? || sel == Some(idx))
      && (sel.Some? && sel.value < |xs| && sel.value != idx ==>
            r.Some? && r.value < |RemoveAt(xs, idx)| && RemoveAt(xs, idx)[r.value] == xs[sel.value])
  {
  }

  // ── Related chapters ────────────────────────────────────────────────────────

  /** The separators of the related-chapters field: full-width comma,
      enumeration comma, ASCII comma. */
  predicate IsRelatedSeparator(c: char) {
    c == '，' || c == '、' || c == ','
  }

  function TrimEach(pieces: seq<string>): (r: seq<string>)
    ensures |r| == |pieces|
    ensures forall i :: 0 <= i < |r| ==> r[i] == Trim(pieces[i])
  {
    if pieces == [] then [] else [Trim(pieces[0])] + TrimEach(pieces[1..])
  }

  function NonEmpty(pieces: seq<string>): (r: seq<string>)
    ensures forall i :: 0 <= i < |r| ==> r[i] != [] && r[i] in pieces
  {
    if pieces == [] then []
    else if pieces[0] == [] then NonEmpty(pieces[1..])
    else [pieces[0]] + NonEmpty(pieces[1..])
  }

  /** Filtering distributes over concatenation, so the kept pieces stay in
      their order. */
  lemma {:induction false} NonEmptyAppend(a: seq<string>, b: seq<string>)
    ensures NonEmpty(a + b) == NonEmpty(a) + NonEmpty(b)
    decreases |a|
  {
    if a == [] {
      assert a + b == b;
    } else {
      assert (a + b)[0] == a[0] && (a + b)[1..] == a[1..] + b;
      NonEmptyAppend(a[1..], b);
      AppendAssoc([a[0]], NonEmpty(a[1..]), NonEmpty(b));
    }
  }

  /** A single piece is kept exactly when it is not empty. */
  lemma NonEmptyOne(p: string)
    ensures NonEmpty([p]) == if p == [] then [] else [p]
  {
    assert [p][1..] == [];
  }

  /** The filter keeps exactly the non-empty pieces. */
  lemma {:induction false} NonEmptyMembers(pieces: seq<string>)
    ensures forall p :: p in NonEmpty(pieces) <==> p in pieces && p != []
    decreases |pieces|
  {
    if pieces != [] {
      NonEmptyMembers(pieces[1..]);
      assert forall p :: p in pieces <==> p == pieces[0] || p in pieces[1..];
    }
  }

  /** The related chapters typed as one line: split on any separator, each
      piece trimmed, empty pieces dropped, order kept. */
  function SplitRelated(text: string): seq<string> {
    NonEmpty(TrimEach(SplitWhere(text, IsRelatedSeparator)))
  }

  /** A related-chapters entry as the split leaves it. */
  predicate IsEntry(s: string) {
    s != [] && IsTrimmed(s) && forall j :: 0 <= j < |s| ==> !IsRelatedSeparator(s[j])
  }

  /** Trimming a piece without separators gives a trimmed piece without
      separators. */
  lemma TrimmedPiece(piece: string)
    requires forall j :: 0 <= j < |piece| ==> !IsRelatedSeparator(piece[j])
    ensures IsTrimmed(Trim(piece))
    ensures forall j :: 0 <= j < |Trim(piece)| ==> !IsRelatedSeparator(Trim(piece)[j])
  {
    TrimSpec(piece);
    TrimStartSpec(piece);
    var t := TrimStart(piece);
    TrimEndSpec(t);
    forall j | 0 <= j < |Trim(piece)| ensures !IsRelatedSeparator(Trim(piece)[j]) {
      assert Trim(piece)[j] == t[j] == piece[|piece| - |t| + j];
    }
  }

  /** Every entry of the split is non-empty, trimmed and free of separators. */
  lemma SplitRelatedEntries(text: string)
    ensures forall i :: 0 <= i < |SplitRelated(text)| ==> IsEntry(SplitRelated(text)[i])
  {
    var pieces := SplitWhere(text, IsRelatedSeparator);
    SplitWhereNoSep(text, IsRelatedSeparator);
    var trimmed := TrimEach(pieces);
    forall i | 0 <= i < |trimmed|
      ensures IsTrimmed(trimmed[i]) && forall j :: 0 <= j < |trimmed[i]| ==> !IsRelatedSeparator(trimmed[i][j])
    {
      TrimmedPiece(pieces[i]);
    }
  }

  lemma {:induction false} TrimEachOfTrimmed(pieces: seq<string>)
    requires forall i :: 0 <= i < |pieces| ==> IsTrimmed(pieces[i])
    ensures TrimEach(pieces) == pieces
  {
    if pieces != [] {
      TrimOfTrimmed(pieces[0]);
      TrimEachOfTrimmed(pieces[1..]);
    }
  }

  lemma {:induction false} NonEmptyOfNonEmpty(pieces: seq<string>)
    requires forall i :: 0 <= i < |pieces| ==> pieces[i] != []
    ensures NonEmpty(pieces) == pieces
  {
    if pieces != [] {
      NonEmptyOfNonEmpty(pieces[1..]);
    }
  }

  /** The editor shows the list joined with "、"; splitting that text gives
      the same list back. */
  lemma SplitRelatedOfJoin(entries: seq<string>)
    requires forall i :: 0 <= i < |entries| ==> IsEntry(entries[i])
    ensures SplitRelated(Join(entries, "、")) == entries
  {
    if entries == [] {
      assert SplitWhere([], IsRelatedSeparator) == [[]];
    } else {
      SplitOfJoin(entries, '、', IsRelatedSeparator);
      TrimEachOfTrimmed(entries);
      NonEmptyOfNonEmpty(entries);
    }
  }

  /** Two separators in a row leave an empty piece, and the split drops
      it: "x,,y" gives the two entries x and y. */
  lemma SplitRelatedDropsEmpty(x: string, y: string)
    requires IsEntry(x) && IsEntry(y)
    ensures SplitRelated(x + ",," + y) == [x, y]
  {
    var empty: string := [];
    var pieces := [x, empty, y];
    SplitAtDoubleComma(x, y);
    TrimOfTrimmed(empty);
    TrimEachOfTrimmed(pieces);
    NonEmptyAppend([x], [empty, y]);
    NonEmptyAppend([empty], [y]);
    NonEmptyOne(x);
    NonEmptyOne(empty);
    NonEmptyOne(y);
    assert [x] + [empty, y] == pieces && [empty] + [y] == [empty, y];
  }

  lemma SplitAtDoubleComma(x: string, y: string)
    requires IsEntry(x) && IsEntry(y)
    ensures SplitWhere(x + ",," + y, IsRelatedSeparator) == [x, [], y]
  {
    var pieces: seq<string> := [x, [], y];
    assert Join(pieces, ",") == x + ",," + y by {
      assert Join(pieces[2..], ",") == y;
      assert Join(pieces[1..], ",") == [] + "," + y;
    }
    SplitOfJoin(pieces, ',', IsRelatedSeparator);
  }

  /** Editing nothing in the field keeps the list: splitting is idempotent
      through the joined display. */
  lemma SplitRelatedStable(text: string)
    ensures SplitRelated(Join(SplitRelated(text), "、")) == SplitRelated(text)
  {
    SplitRelatedEntries(text);
    SplitRelatedOfJoin(SplitRelated(text));
  }

  // ── The application state ───────────────────────────────────────────────────

  class TextToolApp {
    var leftFile: Option<OpenFile>
    var rightFile: Option<OpenFile>
    var leftUndo: seq<string>
    var rightUndo: seq<string>
    var lastFocusedLeft: bool
    var status: string

    var characters: seq<Character>
    var selectedChar: Option<nat>
    var newCharName: string

    var chapters: seq<Chapter>
    var selectedChap: Option<nat>
    var newChapTitle: string

    var foreshadows: seq<Foreshadow>
    var selectedFs: Option<nat>
    var newFsName: string

    /** Both undo stacks stay within the limit. */
    predicate Valid()
      reads this
    {
      |leftUndo| <= UndoLimit && |rightUndo| <= UndoLimit
    }

    constructor ()
      ensures Valid()
      ensures leftFile == None && rightFile == None && leftUndo == [] && rightUndo == []
      ensures lastFocusedLeft && status == "欢迎使用 Text Tool"
      ensures characters == [] && selectedChar == None && newCharName == []
      ensures chapters == [] && selectedChap == None && newChapTitle == []
      ensures foreshadows == [] && selectedFs == None && newFsName == []
    {
      leftFile, rightFile := None, None;
      leftUndo, rightUndo := [], [];
      lastFocusedLeft := true;
      status := "欢迎使用 Text Tool";
      characters, selectedChar, newCharName := [], None, [];
      chapters, selectedChap, newChapTitle := [], None, [];
      foreshadows, selectedFs, newFsName := [], None, [];
    }

    // ── Editor panes ──────────────────────────────────────────────────────────

    /** `open_file_in_pane`: on a successful read the pane gets the file,
        unmodified, and an empty undo stack; on a failure only the status
        changes. */
    method OpenFileInPane(path: string, left: bool, read: ReadResult)
      requires Valid()
      modifies this`leftFile, this`rightFile, this`leftUndo, this`rightUndo, this`status
      ensures Valid()
      ensures read.Failed? ==>
        && leftFile == old(leftFile) && rightFile == old(rightFile)
        && leftUndo == old(leftUndo) && rightUndo == old(rightUndo)
        && status == "打开失败: " + read.message
      ensures read.Read? ==> status == "已打开: " + path
      ensures read.Read? && left ==>
        && leftFile == Some(NewOpenFile(path, read.text)) && leftUndo == []
        && rightFile == old(rightFile) && rightUndo == old(rightUndo)
      ensures read.Read? && !left ==>
        && rightFile == Some(NewOpenFile(path, read.text)) && rightUndo == []
        && leftFile == old(leftFile) && leftUndo == old(leftUndo)
    {
      match read
      case Read(text) =>
        var f := NewOpenFile(path, text);
        if left {
          leftFile := Some(f);
          leftUndo := [];
        } else {
          rightFile := Some(f);
          rightUndo := [];
        }
        status := "已打开: " + path;
      case Failed(message) =>
        status := "打开失败: " + message;
    }

    /** The editor of a pane takes the focus. */
    method Focus(left: bool)
      modifies this`lastFocusedLeft
      ensures lastFocusedLeft == left
    {
      lastFocusedLeft := left;
    }

    /** The editor of a pane reports a change that left its text as `cur`:
        the text before goes onto that pane's undo stack (see `PushUndo`)
        and the file is marked modified. Without an open file there is no
        editor and nothing changes. */
    method EditPane(left: bool, cur: string)
      requires Valid()
      modifies this`leftFile, this`rightFile, this`leftUndo, this`rightUndo
      ensures Valid()
      ensures left && old(leftFile).Some? ==>
        && leftFile == Some(old(leftFile).value.(content := cur, modified := true))
        && leftUndo == PushUndo(old(leftUndo), old(leftFile).value.content, cur)
        && rightFile == old(rightFile) && rightUndo == old(rightUndo)
      ensures !left && old(rightFile).Some? ==>
        && rightFile == Some(old(rightFile).value.(content := cur, modified := true))
        && rightUndo == PushUndo(old(rightUndo), old(rightFile).value.content, cur)
        && leftFile == old(leftFile) && leftUndo == old(leftUndo)
      ensures (if left then old(leftFile) else old(rightFile)).None? ==>
        && leftFile == old(leftFile) && rightFile == old(rightFile)
        && leftUndo == old(leftUndo) && rightUndo == old(rightUndo)
    {
      if left {
        if leftFile.Some? {
          var prev := leftFile.value.content;
          PushUndoSpec(leftUndo, prev, cur);
          leftUndo := PushUndo(leftUndo, prev, cur);
          leftFile := Some(leftFile.value.(content := cur, modified := true));
        }
      } else {
        if rightFile.Some? {
          var prev := rightFile.value.content;
          PushUndoSpec(rightUndo, prev, cur);
          rightUndo := PushUndo(rightUndo, prev, cur);
          rightFile := Some(rightFile.value.(content := cur, modified := true));
        }
      }
    }

    /** Ctrl+Z: the back of the undo stack of the last focused pane is
        popped, even when that pane has no file; with a file, its text
        becomes the popped entry and it is marked modified. The other pane
        and its stack are untouched. */
    method Undo()
      requires Valid()
      modifies this`leftFile, this`rightFile, this`leftUndo, this`rightUndo, this`status
      ensures Valid()
      ensures lastFocusedLeft ==>
        && rightFile == old(rightFile) && rightUndo == old(rightUndo)
        && (old(leftUndo) == [] ==> leftUndo == [] && leftFile == old(leftFile) && status == old(status))
        && (old(leftUndo) != [] ==>
              && leftUndo == old(leftUndo)[..|old(leftUndo)| - 1]
              && (old(leftFile).None? ==> leftFile == None && status == old(status))
              && (old(leftFile).Some? ==>
                    && leftFile == Some(old(leftFile).value.(content := old(leftUndo)[|old(leftUndo)| - 1], modified := true))
                    && status == "撤销 (左侧)"))
      ensures !lastFocusedLeft ==>
        && leftFile == old(leftFile) && leftUndo == old(leftUndo)
        && (old(rightUndo) == [] ==> rightUndo == [] && rightFile == old(rightFile) && status == old(status))
        && (old(rightUndo) != [] ==>
              && rightUndo == old(rightUndo)[..|old(rightUndo)| - 1]
              && (old(rightFile).None? ==> rightFile == None && status == old(status))
              && (old(rightFile).Some? ==>
                    && rightFile == Some(old(rightFile).value.(content := old(rightUndo)[|old(rightUndo)| - 1], modified := true))
                    && status == "撤销 (右侧)"))
    {
      if lastFocusedLeft {
        if leftUndo != [] {
          var prev := leftUndo[|leftUndo| - 1];
          leftUndo := leftUndo[..|leftUndo| - 1];
          if leftFile.Some? {
            leftFile := Some(leftFile.value.(content := prev, modified := true));
            status := "撤销 (左侧)";
          }
        }
      } else if rightUndo != [] {
        var prev := rightUndo[|rightUndo| - 1];
        rightUndo := rightUndo[..|rightUndo| - 1];
        if rightFile.Some? {
          rightFile := Some(rightFile.value.(content := prev, modified := true));
          status := "撤销 (右侧)";
        }
      }
    }

    // ── Characters ────────────────────────────────────────────────────────────

    /** Adds a character named by the trimmed input and selects it; a blank
        input changes nothing. */
    method AddCharacter()
      modifies this`characters, this`selectedChar, this`newCharName
      ensures var name := Trim(old(newCharName));
        if name == [] then
          characters == old(characters) && selectedChar == old(selectedChar) && newCharName == old(newCharName)
        else
          && characters == old(characters) + [NewCharacter(name)]
          && selectedChar == Some(|old(characters)|) && characters[selectedChar.value].name == name
          && newCharName == []
    {
      var name := Trim(newCharName);
      if name != [] {
        var idx := |characters|;
        characters := characters + [NewCharacter(name)];
        selectedChar := Some(idx);
        newCharName := [];
      }
    }

    /** Deletes character `idx` from the list and repairs the selection. */
    method RemoveCharacter(idx: nat)
      requires idx < |characters|
      modifies this`characters, this`selectedChar
      ensures characters == RemoveAt(old(characters), idx)
      ensures selectedChar == RepairSelection(old(selectedChar), idx)
    {
      characters := characters[..idx] + characters[idx + 1..];
      if selectedChar == Some(idx) {
        selectedChar := None;
      } else if selectedChar.Some? && selectedChar.value > idx {
        selectedChar := Some(selectedChar.value - 1);
      }
    }

    // ── Chapters ──────────────────────────────────────────────────────────────

    /** Adds a chapter titled by the trimmed input and selects it; a blank
        input changes nothing. */
    method AddChapter()
      modifies this`chapters, this`selectedChap, this`newChapTitle
      ensures var title := Trim(old(newChapTitle));
        if title == [] then
          chapters == old(chapters) && selectedChap == old(selectedChap) && newChapTitle == old(newChapTitle)
        else
          && chapters == old(chapters) + [NewChapter(title)]
          && selectedChap == Some(|old(chapters)|) && chapters[selectedChap.value].title == title
          && newChapTitle == []
    {
      var title := Trim(newChapTitle);
      if title != [] {
        var idx := |chapters|;
        chapters := chapters + [NewChapter(title)];
        selectedChap := Some(idx);
        newChapTitle := [];
      }
    }

    /** Deletes chapter `idx` and repairs the selection. */
    method RemoveChapter(idx: nat)
      requires idx < |chapters|
      modifies this`chapters, this`selectedChap
      ensures chapters == RemoveAt(old(chapters), idx)
      ensures selectedChap == RepairSelection(old(selectedChap), idx)
    {
      chapters := chapters[..idx] + chapters[idx + 1..];
      if selectedChap == Some(idx) {
        selectedChap := None;
      } else if selectedChap.Some? && selectedChap.value > idx {
        selectedChap := Some(selectedChap.value - 1);
      }
    }

    /** "← 左移" on chapter `i`: it trades places with its left neighbour.
        The selection index is left as it was. */
    method MoveChapterLeft(i: nat)
      requires 0 < i < |chapters|
      modifies this`chapters
      ensures chapters == Swap(old(chapters), i - 1, i)
      ensures multiset(chapters) == multiset(old(chapters))
    {
      SwapSpec(chapters, i - 1, i);
      chapters := Swap(chapters, i - 1, i);
    }

    /** "右移 →" on chapter `i`: it trades places with its right neighbour.
        The selection index is left as it was. */
    method MoveChapterRight(i: nat)
      requires i + 1 < |chapters|
      modifies this`chapters
      ensures chapters == Swap(old(chapters), i, i + 1)
      ensures multiset(chapters) == multiset(old(chapters))
    {
      SwapSpec(chapters, i, i + 1);
      chapters := Swap(chapters, i, i + 1);
    }

    // ── Foreshadowing ─────────────────────────────────────────────────────────

    /** Adds a foreshadowing entry named by the trimmed input and selects
        it; a blank input changes nothing. */
    method AddForeshadow()
      modifies this`foreshadows, this`selectedFs, this`newFsName
      ensures var name := Trim(old(newFsName));
        if name == [] then
          foreshadows == old(foreshadows) && selectedFs == old(selectedFs) && newFsName == old(newFsName)
        else
          && foreshadows == old(foreshadows) + [NewForeshadow(name)]
          && selectedFs == Some(|old(foreshadows)|) && foreshadows[selectedFs.value].name == name
          && newFsName == []
    {
      var name := Trim(newFsName);
      if name != [] {
        var idx := |foreshadows|;
        foreshadows := foreshadows + [NewForeshadow(name)];
        selectedFs := Some(idx);
        newFsName := [];
      }
    }

    /** Deletes foreshadowing entry `idx` and repairs the selection. */
    method RemoveForeshadow(idx: nat)
      requires idx < |foreshadows|
      modifies this`foreshadows, this`selectedFs
      ensures foreshadows == RemoveAt(old(foreshadows), idx)
      ensures selectedFs == RepairSelection(old(selectedFs), idx)
    {
      foreshadows := foreshadows[..idx] + foreshadows[idx + 1..];
      if selectedFs == Some(idx) {
        selectedFs := None;
      } else if selectedFs.Some? && selectedFs.value > idx {
        selectedFs := Some(selectedFs.value - 1);
      }
    }

    /** The related-chapters field of the selected entry was edited to
        `text`: the list becomes its split. Without a selected entry in range
        nothing changes. */
    method EditRelatedChapters(text: string)
      modifies this`foreshadows
      ensures selectedFs.Some? && selectedFs.value < |old(foreshadows)| ==>
        foreshadows == old(foreshadows)[selectedFs.value :=
          old(foreshadows)[selectedFs.value].(relatedChapters := SplitRelated(text))]
      ensures !(selectedFs.Some? && selectedFs.value < |old(foreshadows)|) ==> foreshadows == old(foreshadows)
    {
      if selectedFs.Some? && selectedFs.value < |foreshadows| {
        var i := selectedFs.value;
        foreshadows := foreshadows[i := foreshadows[i].(relatedChapters := SplitRelated(text))];
      }
    }
  }
}
