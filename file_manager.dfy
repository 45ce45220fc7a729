/** The outline extractor and the open-file helpers of
    src/app/file_manager.rs: Markdown heading lines become a tree nested by
    level, and an open file reports its tab title and its kind. */
module FileManager {
  import opened TextUtil

  datatype OutlineEntry = OutlineEntry(level: nat, title: string, children: seq<OutlineEntry>)

  /** A heading as `parse_outline` collects it before nesting. */
  type Flat = (nat, string)

  // ── parse_outline ───────────────────────────────────────────────────────────

  /** The heading test of `parse_outline`: prefixes "######" down to "##" are
      taken without looking at what follows; a single "#" must be followed
      by a space or end the line. The title is the rest, trimmed. */
  function OutlineHeading(line: string): (r: Option<Flat>)
    ensures r.Some? ==> 1 <= r.value.0 <= 6 && StartsWith(line, seq(r.value.0, _ => '#'))
                        && r.value.1 == Trim(line[r.value.0..])
    ensures r.Some? ==> r.value.0 == 6 || r.value.0 == |line| || line[r.value.0] != '#'
    ensures r.Some? <==> |line| >= 1 && line[0] == '#' && (|line| == 1 || line[1] == '#' || line[1] == ' ')
  {
    if StartsWith(line, "######") then Some((6, Trim(line[6..])))
    else if StartsWith(line, "#####") then Some((5, Trim(line[5..])))
    else if StartsWith(line, "####") then Some((4, Trim(line[4..])))
    else if StartsWith(line, "###") then Some((3, Trim(line[3..])))
    else if StartsWith(line, "##") then Some((2, Trim(line[2..])))
    else if StartsWith(line, "#") then
      var rest := line[1..];
      if (rest != [] && rest[0] == ' ') || rest == [] then Some((1, Trim(rest))) else None
    else None
  }

  /** The flat heading list of a sequence of lines, in order. */
  function Headings(lines: seq<string>): (flat: seq<Flat>)
    ensures |flat| <= |lines|
    ensures forall i :: 0 <= i < |flat| ==> 1 <= flat[i].0 <= 6
  {
    if lines == [] then []
    else
      var rest := Headings(lines[1..]);
      match OutlineHeading(lines[0])
      case Some(h) => [h] + rest
      case None => rest
  }

  /** A heading line contributes its entry. */
  lemma HeadingsTake(line: string, rest: seq<string>, h: Flat)
    requires OutlineHeading(line) == Some(h)
    ensures Headings([line] + rest) == [h] + Headings(rest)
  {
    assert ([line] + rest)[1..] == rest;
  }

  /** A line that does not open with "#" contributes nothing. */
  lemma HeadingsSkip(line: string, rest: seq<string>)
    requires line == [] || line[0] != '#'
    ensures Headings([line] + rest) == Headings(rest)
  {
    assert ([line] + rest)[1..] == rest;
  }

  // ── nest_entries ────────────────────────────────────────────────────────────

  /** The end of the run of entries deeper than `d` that starts at `from`. */
  function RunEnd(flat: seq<Flat>, d: nat, from: nat): (j: nat)
    requires from <= |flat|
    ensures from <= j <= |flat|
    ensures forall k :: from <= k < j ==> flat[k].0 > d
    ensures j < |flat| ==> flat[j].0 <= d
    decreases |flat| - from
  {
    if from == |flat| || flat[from].0 <= d then from else RunEnd(flat, d, from + 1)
  }

  /** `nest_entries(flat, d)`: each entry of level `d` becomes a node whose
      children nest the run of deeper entries after it; a deeper entry with
      no opener of level `d` before it is skipped; a shallower entry ends the
      list. */
  function Nest(flat: seq<Flat>, d: nat): seq<OutlineEntry>
    decreases |flat|
  {
    if flat == [] then []
    else if flat[0].0 == d then
      var j := RunEnd(flat, d, 1);
      [OutlineEntry(d, flat[0].1, Nest(flat[1..j], d + 1))] + Nest(flat[j..], d)
    else if flat[0].0 > d then Nest(flat[1..], d)
    else []
  }

  /** The outline of a Markdown text. */
  function Outline(markdown: string): seq<OutlineEntry> {
    Nest(Headings(Lines(markdown)), 1)
  }

  /** `parse_outline`: collect the headings line by line, then nest them. */
  method ParseOutline(markdown: string) returns (outline: seq<OutlineEntry>)
    ensures outline == Outline(markdown)
  {
    var lines := Lines(markdown);
    var entries: seq<Flat> := [];
    for k := 0 to |lines|
      invariant entries + Headings(lines[k..]) == Headings(lines)
    {
      assert lines[k..][0] == lines[k] && lines[k..][1..] == lines[k + 1..];
      match OutlineHeading(lines[k])
      case Some(h) =>
        AppendAssoc(entries, [h], Headings(lines[k + 1..]));
        entries := entries + [h];
      case None =>
    }
    assert lines[|lines|..] == [];
    assert entries == Headings(lines);
    outline := NestEntries(entries, 1);
  }

  /** `nest_entries`: a cursor `i` over `flat`, an inner cursor `j` over the
      run of deeper entries, and a recursive call for that run. */
  method NestEntries(flat: seq<Flat>, depth: nat) returns (result: seq<OutlineEntry>)
    ensures result == Nest(flat, depth)
    decreases |flat|
  {
    result := [];
    var i: nat := 0;
    while i < |flat|
      invariant NestedUpTo(flat, depth, i, result)
      decreases |flat| - i
    {
      var (lvl, title) := flat[i];
      if lvl == depth {
        var j := i + 1;
        while j < |flat| && flat[j].0 > depth
          invariant i + 1 <= j <= |flat|
          invariant forall k :: i < k < j ==> flat[k].0 > depth
          decreases |flat| - j
        {
          j := j + 1;
        }
        var children := NestEntries(flat[i + 1..j], depth + 1);
        var node := OutlineEntry(depth, title, children);
        NestedOpener(flat, depth, i, j, result, children);
        result := result + [node];
        i := j;
      } else if lvl > depth {
        NestedSkip(flat, depth, i, result);
        i := i + 1;
      } else {
        break;
      }
    }
    assert flat[i..] == [] || flat[i].0 < depth;
  }

  /** The loop invariant of `NestEntries`: `result` followed by the nodes of
      what remains from `i` is the whole list. */
  predicate NestedUpTo(flat: seq<Flat>, d: nat, i: nat, result: seq<OutlineEntry>) {
    i <= |flat| && result + Nest(flat[i..], d) == Nest(flat, d)
  }

  lemma NestedOpener(flat: seq<Flat>, d: nat, i: nat, j: nat,
                     result: seq<OutlineEntry>, children: seq<OutlineEntry>)
    requires NestedUpTo(flat, d, i, result)
    requires i < j <= |flat| && flat[i].0 == d
    requires forall k :: i < k < j ==> flat[k].0 > d
    requires j < |flat| ==> flat[j].0 <= d
    requires children == Nest(flat[i + 1..j], d + 1)
    ensures NestedUpTo(flat, d, j, result + [OutlineEntry(d, flat[i].1, children)])
  {
    NestOpenerAt(flat, i, j, d);
    AppendAssoc(result, [OutlineEntry(d, flat[i].1, children)], Nest(flat[j..], d));
  }

  lemma NestedSkip(flat: seq<Flat>, d: nat, i: nat, result: seq<OutlineEntry>)
    requires NestedUpTo(flat, d, i, result) && i < |flat| && flat[i].0 > d
    ensures NestedUpTo(flat, d, i + 1, result)
  {
    NestSkipAt(flat, i, d);
  }

  /** At an opener, `Nest` makes one node of the run after it. */
  lemma NestOpenerAt(flat: seq<Flat>, i: nat, j: nat, d: nat)
    requires i < j <= |flat| && flat[i].0 == d
    requires forall k :: i < k < j ==> flat[k].0 > d
    requires j < |flat| ==> flat[j].0 <= d
    ensures Nest(flat[i..], d)
      == [OutlineEntry(d, flat[i].1, Nest(flat[i + 1..j], d + 1))] + Nest(flat[j..], d)
  {
    RunEndAt(flat[i..], d, 1, j - i);
    assert flat[i..][j - i..] == flat[j..];
    assert flat[i..][1..j - i] == flat[i + 1..j];
  }

  /** A run ends at the first entry from `from` on that is not deeper
      than `d`. */
  lemma {:induction false} RunEndAt(flat: seq<Flat>, d: nat, from: nat, j: nat)
    requires from <= j <= |flat|
    requires forall k :: from <= k < j ==> flat[k].0 > d
    requires j < |flat| ==> flat[j].0 <= d
    ensures RunEnd(flat, d, from) == j
    decreases j - from
  {
    if from < j {
      RunEndAt(flat, d, from + 1, j);
    }
  }

  /** A deeper entry with no opener before it is skipped. */
  lemma NestSkipAt(flat: seq<Flat>, i: nat, d: nat)
    requires i < |flat| && flat[i].0 > d
    ensures Nest(flat[i..], d) == Nest(flat[i + 1..], d)
  {
    assert flat[i..][1..] == flat[i + 1..];
  }

  // ── Properties of the outline ───────────────────────────────────────────────

  /** Every node of `nodes` has level `d`, and its children, recursively,
      level `d + 1`. */
  predicate LevelledAt(nodes: seq<OutlineEntry>, d: nat)
    decreases nodes
  {
    forall k :: 0 <= k < |nodes| ==>
      nodes[k].level == d && LevelledAt(nodes[k].children, d + 1)
  }

  lemma {:induction false} LevelledAppend(a: seq<OutlineEntry>, b: seq<OutlineEntry>, d: nat)
    requires LevelledAt(a, d) && LevelledAt(b, d)
    ensures LevelledAt(a + b, d)
  {
    forall k | 0 <= k < |a + b|
      ensures (a + b)[k].level == d && LevelledAt((a + b)[k].children, d + 1)
    {
      if k < |a| {
        assert (a + b)[k] == a[k];
      } else {
        assert (a + b)[k] == b[k - |a|];
      }
    }
  }

  /** Every node built at depth `d` has level `d` and its children `d + 1`. */
  lemma {:induction false} NestLevelled(flat: seq<Flat>, d: nat)
    ensures LevelledAt(Nest(flat, d), d)
    decreases |flat|
  {
    if flat == [] {
    } else if flat[0].0 == d {
      var j := RunEnd(flat, d, 1);
      NestLevelled(flat[1..j], d + 1);
      NestLevelled(flat[j..], d);
      var node := OutlineEntry(d, flat[0].1, Nest(flat[1..j], d + 1));
      assert LevelledAt([node], d);
      LevelledAppend([node], Nest(flat[j..], d), d);
    } else if flat[0].0 > d {
      NestLevelled(flat[1..], d);
    }
  }

  /** The headings of a tree in pre-order: a node before its children,
      siblings in order. */
  function Flatten(nodes: seq<OutlineEntry>): seq<Flat>
    decreases nodes
  {
    if nodes == [] then []
    else
      assert nodes[0] in nodes;
      [(nodes[0].level, nodes[0].title)] + Flatten(nodes[0].children) + Flatten(nodes[1..])
  }

  /** `a` is `b` with some elements left out, the rest in order. */
  predicate IsSubsequence(a: seq<Flat>, b: seq<Flat>)
    decreases |b|
  {
    if a == [] then true
    else if b == [] then false
    else (a[0] == b[0] && IsSubsequence(a[1..], b[1..])) || IsSubsequence(a, b[1..])
  }

  lemma {:induction false} SubsequenceOfSelf(a: seq<Flat>)
    ensures IsSubsequence(a, a)
    decreases |a|
  {
    if a != [] {
      SubsequenceOfSelf(a[1..]);
    }
  }

  /** Leaving elements out of both halves of a concatenation. */
  lemma {:induction false} SubsequenceAppend(a: seq<Flat>, b: seq<Flat>, c: seq<Flat>, d: seq<Flat>)
    requires IsSubsequence(a, b) && IsSubsequence(c, d)
    ensures IsSubsequence(a + c, b + d)
    decreases |b|
  {
    if b == [] {
      assert a == [];
      assert a + c == c && b + d == d;
    } else {
      assert (b + d)[0] == b[0] && (b + d)[1..] == b[1..] + d;
      if a != [] && a[0] == b[0] && IsSubsequence(a[1..], b[1..]) {
        SubsequenceAppend(a[1..], b[1..], c, d);
        assert (a + c)[0] == a[0] && (a + c)[1..] == a[1..] + c;
      } else if a != [] {
        SubsequenceAppend(a, b[1..], c, d);
      } else {
        SubsequenceAppend(a, b[1..], c, d);
        assert a + c == c;
        if c != [] && c[0] == b[0] {
          assert IsSubsequence(c, b[1..] + d);
        }
      }
    }
  }

  lemma {:induction false} FlattenAppend(a: seq<OutlineEntry>, b: seq<OutlineEntry>)
    ensures Flatten(a + b) == Flatten(a) + Flatten(b)
    decreases |a|
  {
    if a == [] {
      assert a + b == b;
    } else {
      assert (a + b)[0] == a[0] && (a + b)[1..] == a[1..] + b;
      FlattenAppend(a[1..], b);
    }
  }

  /** The walk of the nodes built from an opener at depth `d`: the opener,
      its subtree, then what follows its run. */
  lemma FlattenOpener(flat: seq<Flat>, d: nat)
    requires flat != [] && flat[0].0 == d
    ensures var j := RunEnd(flat, d, 1);
      Flatten(Nest(flat, d))
      == [flat[0]] + (Flatten(Nest(flat[1..j], d + 1)) + Flatten(Nest(flat[j..], d)))
  {
    var j := RunEnd(flat, d, 1);
    var children := Nest(flat[1..j], d + 1);
    var after := Nest(flat[j..], d);
    var node := OutlineEntry(d, flat[0].1, children);
    assert Nest(flat, d) == [node] + after;
    FlattenAppend([node], after);
    assert [node][1..] == [];
    assert Flatten([node]) == [(d, flat[0].1)] + Flatten(children) + Flatten([]);
    assert (d, flat[0].1) == flat[0];
  }

  lemma SubsequenceCons(x: Flat, a: seq<Flat>, b: seq<Flat>, c: seq<Flat>, e: seq<Flat>, whole: seq<Flat>)
    requires IsSubsequence(a, b) && IsSubsequence(c, e) && whole == [x] + (b + e)
    ensures IsSubsequence([x] + (a + c), whole)
  {
    SubsequenceAppend(a, b, c, e);
    assert ([x] + (a + c))[1..] == a + c;
    assert whole[1..] == b + e;
  }

  /** One opener at depth `d` whose run ends at `j`: its node, then its
      subtree, then the nodes after its run. */
  lemma OpenerKeepsOrder(flat: seq<Flat>, d: nat, j: nat)
    requires flat != [] && flat[0].0 == d && j == RunEnd(flat, d, 1)
    requires IsSubsequence(Flatten(Nest(flat[1..j], d + 1)), flat[1..j])
    requires IsSubsequence(Flatten(Nest(flat[j..], d)), flat[j..])
    ensures IsSubsequence(Flatten(Nest(flat, d)), flat)
  {
    FlattenOpener(flat, d);
    ConsSlices(flat, j);
    SubsequenceCons(flat[0], Flatten(Nest(flat[1..j], d + 1)), flat[1..j],
                    Flatten(Nest(flat[j..], d)), flat[j..], flat);
  }

  lemma ConsSlices<T>(s: seq<T>, j: nat)
    requires 1 <= j <= |s|
    ensures [s[0]] + (s[1..j] + s[j..]) == s
  {
    assert s[1..j] + s[j..] == s[1..];
  }

  /** The pre-order walk of the outline keeps the headings in document
      order, some possibly left out. */
  lemma {:induction false} NestKeepsOrder(flat: seq<Flat>, d: nat)
    ensures IsSubsequence(Flatten(Nest(flat, d)), flat)
    decreases |flat|
  {
    if flat == [] {
    } else if flat[0].0 == d {
      var j := RunEnd(flat, d, 1);
      NestKeepsOrder(flat[1..j], d + 1);
      NestKeepsOrder(flat[j..], d);
      OpenerKeepsOrder(flat, d, j);
    } else if flat[0].0 > d {
      NestKeepsOrder(flat[1..], d);
    }
  }

  lemma {:induction false} SubsequenceMembers(a: seq<Flat>, b: seq<Flat>)
    requires IsSubsequence(a, b)
    ensures forall x :: x in a ==> x in b
    decreases |b|
  {
    if a != [] {
      if a[0] == b[0] && IsSubsequence(a[1..], b[1..]) {
        SubsequenceMembers(a[1..], b[1..]);
        assert forall x :: x in a ==> x == a[0] || x in a[1..];
      } else {
        SubsequenceMembers(a, b[1..]);
      }
    }
  }

  /** Every heading in the outline of a document comes from one of its
      heading lines, so every level is between 1 and 6 and the depth passed
      down (one more than a node's level) is at most 7: the `u8` depth of
      the source never overflows. */
  lemma OutlineLevelsBounded(markdown: string)
    ensures forall e :: e in Flatten(Outline(markdown)) ==> e in Headings(Lines(markdown)) && 1 <= e.0 <= 6
  {
    var flat := Headings(Lines(markdown));
    NestKeepsOrder(flat, 1);
    SubsequenceMembers(Flatten(Outline(markdown)), flat);
  }

  /** Every entry at level `d` or deeper. */
  predicate AtLeast(flat: seq<Flat>, d: nat) {
    forall k :: 0 <= k < |flat| ==> flat[k].0 >= d
  }

  /** `nest_entries` without its `break` branch. It asks every entry to be
      at level `d` or deeper, and every recursive call, at every depth,
      meets that demand again: the run under an opener is deeper than it,
      and what follows the run is part of the input. */
  function NestNoBreak(flat: seq<Flat>, d: nat): seq<OutlineEntry>
    requires AtLeast(flat, d)
    decreases |flat|
  {
    if flat == [] then []
    else if flat[0].0 == d then
      var j := RunEnd(flat, d, 1);
      assert AtLeast(flat[1..j], d + 1) by {
        forall k | 0 <= k < j - 1 ensures flat[1..j][k].0 >= d + 1 {
          assert flat[1..j][k] == flat[k + 1];
        }
      }
      assert AtLeast(flat[j..], d) by {
        forall k | 0 <= k < |flat| - j ensures flat[j..][k].0 >= d {
          assert flat[j..][k] == flat[k + j];
        }
      }
      [OutlineEntry(d, flat[0].1, NestNoBreak(flat[1..j], d + 1))] + NestNoBreak(flat[j..], d)
    else
      assert AtLeast(flat[1..], d) by {
        forall k | 0 <= k < |flat| - 1 ensures flat[1..][k].0 >= d {
          assert flat[1..][k] == flat[k + 1];
        }
      }
      NestNoBreak(flat[1..], d)
  }

  /** With no entry above `d`, the `break` branch never fires: `Nest` is the
      recursion without it. */
  lemma {:induction false} NestNeverBreaks(flat: seq<Flat>, d: nat)
    requires AtLeast(flat, d)
    ensures Nest(flat, d) == NestNoBreak(flat, d)
    decreases |flat|
  {
    if flat != [] {
      if flat[0].0 == d {
        var j := RunEnd(flat, d, 1);
        NestNeverBreaks(flat[1..j], d + 1);
        NestNeverBreaks(flat[j..], d);
      } else {
        NestNeverBreaks(flat[1..], d);
      }
    }
  }

  /** Reached from `parse_outline`, whose levels are 1 to 6 and whose depth
      starts at 1, `nest_entries` never breaks out of its loop. */
  lemma OutlineNeverBreaks(markdown: string)
    ensures AtLeast(Headings(Lines(markdown)), 1)
    ensures Outline(markdown) == NestNoBreak(Headings(Lines(markdown)), 1)
  {
    NestNeverBreaks(Headings(Lines(markdown)), 1);
  }

  /** Headings without skipped levels: the first at level `d`, none above
      `d`, and each at most one deeper than the one before. */
  predicate WellNested(flat: seq<Flat>, d: nat) {
    && (flat != [] ==> flat[0].0 == d)
    && (forall i :: 0 <= i < |flat| ==> flat[i].0 >= d)
    && (forall i :: 0 < i < |flat| ==> flat[i].0 <= flat[i - 1].0 + 1)
  }

  /** The run under a well-nested opener is well nested one level down. */
  lemma RunWellNested(flat: seq<Flat>, d: nat)
    requires flat != [] && WellNested(flat, d)
    ensures WellNested(flat[1..RunEnd(flat, d, 1)], d + 1)
  {
    var inner := flat[1..RunEnd(flat, d, 1)];
    forall i | 0 < i < |inner| ensures inner[i].0 <= inner[i - 1].0 + 1 {
      assert inner[i] == flat[i + 1] && inner[i - 1] == flat[i];
    }
    if inner != [] {
      assert inner[0] == flat[1];
    }
  }

  /** What follows that run is well nested at the same level. */
  lemma RestWellNested(flat: seq<Flat>, d: nat)
    requires flat != [] && WellNested(flat, d)
    ensures WellNested(flat[RunEnd(flat, d, 1)..], d)
  {
    var j := RunEnd(flat, d, 1);
    var outer := flat[j..];
    forall i | 0 < i < |outer| ensures outer[i].0 <= outer[i - 1].0 + 1 {
      assert outer[i] == flat[j + i] && outer[i - 1] == flat[j + i - 1];
    }
  }

  /** Without skipped levels nothing is lost: the walk of the outline gives
      back every heading, in order. */
  lemma {:induction false} NestLossless(flat: seq<Flat>, d: nat)
    requires WellNested(flat, d)
    ensures Flatten(Nest(flat, d)) == flat
    decreases |flat|
  {
    if flat != [] {
      var j := RunEnd(flat, d, 1);
      RunWellNested(flat, d);
      RestWellNested(flat, d);
      NestLossless(flat[1..j], d + 1);
      NestLossless(flat[j..], d);
      FlattenOpener(flat, d);
      OpenerSplit(flat, j);
    }
  }

  lemma OpenerSplit(flat: seq<Flat>, j: nat)
    requires 1 <= j <= |flat|
    ensures [flat[0]] + (flat[1..j] + flat[j..]) == flat
  {
    assert flat[1..j] + flat[j..] == flat[1..];
  }

  // ── OpenFile ────────────────────────────────────────────────────────────────

  /** A file open in an editor pane. The path is a '/'-separated string. */
  datatype OpenFile = OpenFile(path: string, content: string, modified: bool)

  /** `OpenFile::new`: a freshly opened file is not modified. */
  function NewOpenFile(path: string, content: string): (f: OpenFile)
    ensures f.path == path && f.content == content && !f.modified
  {
    OpenFile(path, content, false)
  }

  predicate IsSlash(c: char) {
    c == '/'
  }

  /** The normal components of a path, as `Path::components` yields them on
      Unix: separators collapse, and "." components after the first
      position and trailing separators are not components. */
  function Components(path: string): (cs: seq<string>)
    ensures forall i :: 0 <= i < |cs| ==> cs[i] != [] && cs[i] != "." && '/' !in cs[i]
  {
    SplitWhereNoSep(path, IsSlash);
    Kept(SplitWhere(path, IsSlash))
  }

  function Kept(pieces: seq<string>): (cs: seq<string>)
    requires forall i :: 0 <= i < |pieces| ==> '/' !in pieces[i]
    ensures forall i :: 0 <= i < |cs| ==> cs[i] != [] && cs[i] != "." && '/' !in cs[i]
  {
    if pieces == [] then []
    else
      var rest := Kept(pieces[1..]);
      if pieces[0] == [] || pieces[0] == "." then rest else [pieces[0]] + rest
  }

  /** `Path::file_name`: the last component, or nothing when the path is
      empty, the root alone, or ends in "..". */
  function FileName(path: string): (r: Option<string>)
    ensures r.Some? ==> r.value != [] && r.value != "." && r.value != ".." && '/' !in r.value
  {
    var cs := Components(path);
    if cs == [] || cs[|cs| - 1] == ".." then None else Some(cs[|cs| - 1])
  }

  /** Index of the last '.' of `s`, if any. */
  function LastDot(s: string): (r: Option<nat>)
    ensures r.Some? ==> r.value < |s| && s[r.value] == '.' && '.' !in s[r.value + 1..]
    ensures r.None? ==> '.' !in s
  {
    if s == [] then None
    else if s[|s| - 1] == '.' then Some(|s| - 1)
    else
      var r := LastDot(s[..|s| - 1]);
      assert s == s[..|s| - 1] + [s[|s| - 1]];
      r
  }

  /** `Path::extension`: what follows the last '.' of the file name, unless
      the name has no '.' or its only '.' is its first character. */
  function Extension(path: string): (r: Option<string>)
    ensures r.Some? ==> FileName(path).Some? && '.' !in r.value
  {
    match FileName(path)
    case None => None
    case Some(name) =>
      match LastDot(name)
      case None => None
      case Some(k) => if k == 0 then None else Some(name[k + 1..])
  }

  /** `OpenFile::title`: the file name, "untitled" without one, and a "● "
      mark in front while there are unsaved changes. */
  function Title(f: OpenFile): string {
    var name := match FileName(f.path) case Some(n) => n case None => "untitled";
    if f.modified then "● " + name else name
  }

  /** `OpenFile::is_markdown`. */
  predicate IsMarkdown(f: OpenFile) {
    Extension(f.path) == Some("md") || Extension(f.path) == Some("markdown")
  }

  /** `OpenFile::is_json`. */
  predicate IsJson(f: OpenFile) {
    Extension(f.path) == Some("json")
  }

  /** A name that is a normal path component. */
  predicate IsNormalName(name: string) {
    name != [] && name != "." && name != ".." && '/' !in name
  }

  lemma {:induction false} KeptThen(pieces: seq<string>, name: string)
    requires forall i :: 0 <= i < |pieces| ==> '/' !in pieces[i]
    requires IsNormalName(name)
    ensures Kept(pieces + [name]) == Kept(pieces) + [name]
  {
    if pieces == [] {
      assert Kept([name]) == [name] + Kept([]);
    } else {
      assert (pieces + [name])[1..] == pieces[1..] + [name];
      KeptThen(pieces[1..], name);
    }
  }

  /** The file name of a path that is just a name is that name. */
  lemma FileNameAlone(name: string)
    requires IsNormalName(name)
    ensures FileName(name) == Some(name)
  {
    SplitNone(name, IsSlash);
    KeptThen([], name);
    assert [] + [name] == [name];
  }

  /** The directories in front of a name do not change its file name. */
  lemma FileNameInDir(dir: string, name: string)
    requires IsNormalName(name)
    ensures FileName(dir + "/" + name) == Some(name)
  {
    SplitNone(name, IsSlash);
    SplitThen(dir, '/', name, IsSlash);
    SplitWhereNoSep(dir, IsSlash);
    KeptThen(SplitWhere(dir, IsSlash), name);
  }

  /** A file name made of a stem, a '.' and a suffix without '.' has that
      suffix as its extension, whatever the stem holds. */
  lemma ExtensionOfName(path: string, stem: string, ext: string)
    requires stem != [] && '.' !in ext
    requires FileName(path) == Some(stem + "." + ext)
    ensures Extension(path) == Some(ext)
  {
    var name := stem + "." + ext;
    var k := LastDot(name).value;
    forall j | k < j < |name| ensures name[j] != '.' {
      assert name[j] == name[k + 1..][j - k - 1];
    }
    forall j | |stem| < j < |name| ensures name[j] != '.' {
      assert name[j] == ext[j - |stem| - 1];
    }
    assert name[|stem|] == '.';
    assert name[k + 1..] == ext;
  }

  /** A hidden file whose only '.' is its first character has no extension. */
  lemma HiddenFileNoExtension(path: string, ext: string)
    requires '.' !in ext
    requires FileName(path) == Some("." + ext)
    ensures Extension(path) == None
  {
  }

  /** The title of a file under a directory is its name, marked while it
      has unsaved changes. */
  lemma TitleInDir(dir: string, name: string, content: string, modified: bool)
    requires IsNormalName(name)
    ensures Title(OpenFile(dir + "/" + name, content, modified)) == (if modified then "● " + name else name)
  {
    FileNameInDir(dir, name);
  }

  /** A path without a file name is titled "untitled". */
  lemma TitleWithoutName(f: OpenFile)
    requires FileName(f.path).None?
    ensures Title(f) == (if f.modified then "● untitled" else "untitled")
  {
  }

  /** No file is both Markdown and JSON; each kind is decided by the
      extension alone. */
  lemma KindsExclusive(f: OpenFile)
    ensures !(IsMarkdown(f) && IsJson(f))
    ensures IsMarkdown(f) <==> Extension(f.path) in {Some("md"), Some("markdown")}
  {
  }
}
