/** The inline tokenizer of the Markdown preview (`build_inline_job` and the
    fast path of `render_inline_text` in src/app/panel/markdown.rs): one line
    of text becomes an ordered sequence of styled runs. Fonts and colours are
    reduced to the style tag. */
module MarkdownInline {

  datatype Style = Plain | Bold | Italic | Code

  datatype Run = Run(text: string, style: Style)

  /** The characters the scanner reacts to. Both are ASCII, so the byte
      cursor of the source stops exactly where a character cursor does. */
  predicate IsMarker(c: char) {
    c == '*' || c == '`'
  }

  predicate MarkerFree(s: string) {
    forall i :: 0 <= i < |s| ==> !IsMarker(s[i])
  }

  predicate IsBoldMark(s: string, k: nat) {
    k + 1 < |s| && s[k] == '*' && s[k + 1] == '*'
  }

  /** The concatenated text of a sequence of runs (the `LayoutJob` text). */
  function Text(runs: seq<Run>): string {
    if runs == [] then [] else runs[0].text + Text(runs[1..])
  }

  lemma {:induction false} TextAppend(a: seq<Run>, b: seq<Run>)
    ensures Text(a + b) == Text(a) + Text(b)
  {
    if a == [] {
      assert a + b == b;
    } else {
      assert (a + b)[0] == a[0];
      assert (a + b)[1..] == a[1..] + b;
      TextAppend(a[1..], b);
      assert Text(a + b) == a[0].text + (Text(a[1..]) + Text(b));
    }
  }

  // ── Search helpers: the inner loops of the scanner ─────────────────────────

  /** Where the search for a closing "**" that starts at `from` stops: at the
      first "**" at or after `from`, or where `i + 1 < len` fails. */
  function BoldCloseFrom(s: string, from: nat): (k: nat)
    requires from <= |s|
    ensures from <= k <= |s|
    ensures IsBoldMark(s, k) || k + 1 >= |s|
    decreases |s| - from
  {
    if from + 1 >= |s| || IsBoldMark(s, from) then from else BoldCloseFrom(s, from + 1)
  }

  /** No "**" starts before the place the search stops. */
  lemma {:induction false} BoldCloseFirst(s: string, from: nat)
    requires from <= |s|
    ensures forall j :: from <= j < BoldCloseFrom(s, from) ==> !IsBoldMark(s, j)
    decreases |s| - from
  {
    if !(from + 1 >= |s| || IsBoldMark(s, from)) {
      BoldCloseFirst(s, from + 1);
    }
  }

  /** Where the search for `c` that starts at `from` stops: at the first `c`
      at or after `from`, or at the end of the line. */
  function CharFrom(s: string, from: nat, c: char): (k: nat)
    requires from <= |s|
    ensures from <= k <= |s|
    ensures k < |s| ==> s[k] == c
    decreases |s| - from
  {
    if from == |s| || s[from] == c then from else CharFrom(s, from + 1, c)
  }

  /** No `c` occurs before the place the search stops. */
  lemma {:induction false} CharFromFirst(s: string, from: nat, c: char)
    requires from <= |s|
    ensures forall j :: from <= j < CharFrom(s, from, c) ==> s[j] != c
    decreases |s| - from
  {
    if !(from == |s| || s[from] == c) {
      CharFromFirst(s, from + 1, c);
    }
  }

  /** Where a plain span that starts at `from` ends: at the next marker. */
  function MarkerFrom(s: string, from: nat): (k: nat)
    requires from <= |s|
    ensures from <= k <= |s|
    ensures k < |s| ==> IsMarker(s[k])
    decreases |s| - from
  {
    if from == |s| || IsMarker(s[from]) then from else MarkerFrom(s, from + 1)
  }

  /** The stretch up to the place the search stops holds no marker. */
  lemma {:induction false} MarkerFromFree(s: string, from: nat)
    requires from <= |s|
    ensures MarkerFree(s[from..MarkerFrom(s, from)])
    decreases |s| - from
  {
    if !(from == |s| || IsMarker(s[from])) {
      MarkerFromFree(s, from + 1);
      assert s[from..MarkerFrom(s, from)] == [s[from]] + s[from + 1..MarkerFrom(s, from)];
    }
  }

  /** A span is emitted only when it is not empty. */
  function Emit(t: string, style: Style): (r: seq<Run>)
    ensures r == [] <==> t == []
  {
    if t == [] then [] else [Run(t, style)]
  }

  // ── The scan, as a recursive function of the cursor ─────────────────────────

  /** A run that the scanner may produce: never empty; plain text holds no
      marker except the literal "**" of an unclosed bold opener; code holds no
      backtick and italic no asterisk. */
  predicate WellFormedRun(r: Run) {
    && r.text != []
    && (r.style == Plain ==> r.text == "**" || MarkerFree(r.text))
    && (r.style == Code ==> '`' !in r.text)
    && (r.style == Italic ==> '*' !in r.text)
  }

  /** The first span the scan reads from `p`: it keeps `s[from..to]` as the
      text of a run of `style` (if that text is not empty) and resumes at
      `next`. Bold is tried first; an unclosed "**" is kept as a literal plain
      run and scanning resumes after it; an unclosed backtick or asterisk runs
      to the end of the line. */
  datatype Span = Span(from: nat, to: nat, next: nat, style: Style)

  function FirstSpan(s: string, p: nat): (sp: Span)
    requires p < |s|
    ensures p <= sp.from <= sp.to <= sp.next <= |s| && p < sp.next
  {
    if IsBoldMark(s, p) then
      var k := BoldCloseFrom(s, p + 2);
      if IsBoldMark(s, k) then Span(p + 2, k, k + 2, Bold) else Span(p, p + 2, p + 2, Plain)
    else if IsMarker(s[p]) then
      var k := CharFrom(s, p + 1, s[p]);
      Span(p + 1, k, if k < |s| then k + 1 else k, if s[p] == '`' then Code else Italic)
    else
      var q := MarkerFrom(s, p);
      Span(p, q, q, Plain)
  }

  /** The runs the scanner produces for `s[p..]` when it starts a fresh span at `p`. */
  function Scan(s: string, p: nat): seq<Run>
    requires p <= |s|
    decreases |s| - p
  {
    if p == |s| then []
    else
      var sp := FirstSpan(s, p);
      Emit(s[sp.from..sp.to], sp.style) + Scan(s, sp.next)
  }

  predicate AllWellFormed(runs: seq<Run>) {
    forall i :: 0 <= i < |runs| ==> WellFormedRun(runs[i])
  }

  lemma AllWellFormedAppend(a: seq<Run>, b: seq<Run>)
    requires AllWellFormed(a) && AllWellFormed(b)
    ensures AllWellFormed(a + b)
  {
    forall i | 0 <= i < |a + b| ensures WellFormedRun((a + b)[i]) {
      if i >= |a| {
        assert (a + b)[i] == b[i - |a|];
      }
    }
  }

  /** The run of every span is well formed. */
  lemma SpanWellFormed(s: string, p: nat)
    requires p < |s|
    ensures var sp := FirstSpan(s, p); AllWellFormed(Emit(s[sp.from..sp.to], sp.style))
  {
    var sp := FirstSpan(s, p);
    if IsBoldMark(s, p) {
      if !IsBoldMark(s, BoldCloseFrom(s, p + 2)) {
        assert s[sp.from..sp.to] == "**";
      }
    } else if IsMarker(s[p]) {
      CharFromFirst(s, p + 1, s[p]);
    } else {
      MarkerFromFree(s, p);
    }
  }

  /** Every run the scan produces is well formed. */
  lemma {:induction false} ScanWellFormed(s: string, p: nat)
    requires p <= |s|
    ensures AllWellFormed(Scan(s, p))
    decreases |s| - p
  {
    if p < |s| {
      var sp := FirstSpan(s, p);
      SpanWellFormed(s, p);
      ScanWellFormed(s, sp.next);
      AllWellFormedAppend(Emit(s[sp.from..sp.to], sp.style), Scan(s, sp.next));
    }
  }

  /** The styled runs of a whole line. */
  function Tokens(s: string): seq<Run> {
    Scan(s, 0)
  }

  lemma {:induction false} MarkerFromAt(s: string, p: nat, i: nat)
    requires p <= i <= |s|
    requires MarkerFree(s[p..i])
    requires i == |s| || IsMarker(s[i])
    ensures MarkerFrom(s, p) == i
    decreases i - p
  {
    if p < i {
      assert s[p..i][0] == s[p];
      assert s[p + 1..i] == s[p..i][1..];
      MarkerFromAt(s, p + 1, i);
    }
  }

  /** A plain stretch up to the next marker (or the end) is one plain run. */
  lemma PlainStretch(s: string, p: nat, i: nat)
    requires p <= i <= |s|
    requires MarkerFree(s[p..i])
    requires i == |s| || IsMarker(s[i])
    ensures Scan(s, p) == Emit(s[p..i], Plain) + Scan(s, i)
  {
    if p < i {
      assert !IsMarker(s[p]) by { assert s[p..i][0] == s[p]; }
      MarkerFromAt(s, p, i);
      ScanUnfold(s, p, Span(p, i, i, Plain));
    }
  }

  /** The scan at `p` is the run of the first span followed by the scan
      from where that span ends. */
  lemma ScanUnfold(s: string, p: nat, sp: Span)
    requires p < |s| && sp == FirstSpan(s, p)
    ensures Scan(s, p) == Emit(s[sp.from..sp.to], sp.style) + Scan(s, sp.next)
  {
  }

  /** A "**" closed by the first "**" after marker-free text is one bold run. */
  lemma ScanClosedBold(s: string, p: nat, k: nat)
    requires IsBoldMark(s, p) && p + 2 <= k && IsBoldMark(s, k) && MarkerFree(s[p + 2..k])
    ensures Scan(s, p) == Emit(s[p + 2..k], Bold) + Scan(s, k + 2)
  {
    BoldCloseAt(s, p + 2, k);
    ScanUnfold(s, p, Span(p + 2, k, k + 2, Bold));
  }

  /** With no marker from `from` on, the closing "**" search finds nothing. */
  lemma {:induction false} BoldCloseNone(s: string, from: nat)
    requires from <= |s| && MarkerFree(s[from..])
    ensures !IsBoldMark(s, BoldCloseFrom(s, from))
    decreases |s| - from
  {
    if from + 1 < |s| {
      assert s[from..][0] == s[from];
      assert s[from + 1..] == s[from..][1..];
      BoldCloseNone(s, from + 1);
    }
  }

  /** A "**" with no closing "**" after it is kept as a literal plain run. */
  lemma ScanUnclosedBold(s: string, p: nat)
    requires IsBoldMark(s, p) && !IsBoldMark(s, BoldCloseFrom(s, p + 2))
    ensures Scan(s, p) == [Run("**", Plain)] + Scan(s, p + 2)
  {
    ScanUnfold(s, p, Span(p, p + 2, p + 2, Plain));
    assert s[p..p + 2] == "**";
  }

  lemma ScanAtSingleMark(s: string, p: nat)
    requires p < |s| && !IsBoldMark(s, p) && IsMarker(s[p])
    ensures var k := CharFrom(s, p + 1, s[p]);
      Scan(s, p) == Emit(s[p + 1..k], if s[p] == '`' then Code else Italic)
                    + Scan(s, if k < |s| then k + 1 else k)
  {
    var k := CharFrom(s, p + 1, s[p]);
    ScanUnfold(s, p, Span(p + 1, k, if k < |s| then k + 1 else k, if s[p] == '`' then Code else Italic));
  }

  /** The closing "**" search stops at the first "**" after marker-free text. */
  lemma {:induction false} BoldCloseAt(s: string, from: nat, k: nat)
    requires from <= k && IsBoldMark(s, k) && MarkerFree(s[from..k])
    ensures BoldCloseFrom(s, from) == k
    decreases k - from
  {
    if from < k {
      assert s[from..k][0] == s[from];
      assert s[from + 1..k] == s[from..k][1..];
      BoldCloseAt(s, from + 1, k);
    }
  }
  /** The closing-marker search stops at the first marker `c` after
      marker-free text, or at the end. */
  lemma {:induction false} CharAt(s: string, from: nat, k: nat, c: char)
    requires from <= k <= |s| && IsMarker(c) && MarkerFree(s[from..k]) && (k == |s| || s[k] == c)
    ensures CharFrom(s, from, c) == k
    decreases k - from
  {
    if from < k {
      assert s[from..k][0] == s[from];
      assert s[from + 1..k] == s[from..k][1..];
      CharAt(s, from + 1, k, c);
    }
  }
  // ── The imperative scanner of the source ────────────────────────────────────

  /** The bold branch of `build_inline_job`, entered at an opening "**" at
      `open`: searches for the closing "**"; returns the runs it appends and
      where the cursor resumes (after the closing "**", or right after the
      opener when there is none). */
  method BoldSpan(text: string, open: nat) returns (emitted: seq<Run>, next: nat)
    requires open <= |text| && IsBoldMark(text, open)
    ensures var sp := FirstSpan(text, open);
      emitted == Emit(text[sp.from..sp.to], sp.style) && next == sp.next
  {
    var len := |text|;
    var i := open + 2;
    var start := i;
    var foundClose := false;
    while i + 1 < len
      invariant start <= i <= len
      invariant !foundClose
      invariant BoldCloseFrom(text, start) == BoldCloseFrom(text, i)
      decreases len - i
    {
      if text[i] == '*' && text[i + 1] == '*' {
        foundClose := true;
        break;
      }
      i := i + 1;
    }
    if foundClose {
      var boldText := text[start..i];
      i := i + 2;
      emitted := [];
      if boldText != [] {
        emitted := emitted + [Run(boldText, Bold)];
      }
    } else {
      i := open + 2;
      emitted := [Run("**", Plain)];
      assert text[open..open + 2] == "**";
    }
    next := i;
  }

  /** The inline-code and italic branches of `build_inline_job`, entered at a
      backtick or a lone asterisk at `open`: the span runs to the next equal
      marker, or to the end of the line when there is none. */
  method DelimitedSpan(text: string, open: nat) returns (emitted: seq<Run>, next: nat)
    requires open < |text| && !IsBoldMark(text, open) && IsMarker(text[open])
    ensures var sp := FirstSpan(text, open);
      emitted == Emit(text[sp.from..sp.to], sp.style) && next == sp.next
  {
    var len := |text|;
    var mark := text[open];
    var i := open + 1;
    var start := i;
    while i < len && text[i] != mark
      invariant start <= i <= len
      invariant CharFrom(text, start, mark) == CharFrom(text, i, mark)
      decreases len - i
    {
      i := i + 1;
    }
    assert CharFrom(text, i, mark) == i;
    var spanText := text[start..i];
    if i < len { i := i + 1; }
    var style := if mark == '`' then Code else Italic;
    emitted := [];
    if spanText != [] {
      emitted := emitted + [Run(spanText, style)];
    }
    next := i;
    assert emitted == Emit(spanText, style);
  }

  /** What `build_inline_job` does on reaching a marker at `i`: it flushes the
      pending plain span that began at `plainStart`, then scans the styled
      span that begins at `i`. */
  method MarkupSpan(text: string, plainStart: nat, i: nat) returns (emitted: seq<Run>, next: nat)
    requires plainStart <= i < |text| && IsMarker(text[i])
    ensures var sp := FirstSpan(text, i);
      emitted == Emit(text[plainStart..i], Plain) + Emit(text[sp.from..sp.to], sp.style)
      && next == sp.next
  {
    var flushed := Emit(text[plainStart..i], Plain);
    var span;
    if i + 1 < |text| && text[i] == '*' && text[i + 1] == '*' {
      span, next := BoldSpan(text, i);
    } else {
      span, next := DelimitedSpan(text, i);
    }
    emitted := flushed + span;
  }

  /** The scan from the start of a pending plain span that a marker at `i`
      ends: the runs `build_inline_job` appends there, then the rest. */
  lemma MarkupStep(text: string, plainStart: nat, i: nat, sp: Span)
    requires plainStart <= i < |text| && MarkerFree(text[plainStart..i]) && IsMarker(text[i])
    requires sp == FirstSpan(text, i)
    ensures Scan(text, plainStart)
            == (Emit(text[plainStart..i], Plain) + Emit(text[sp.from..sp.to], sp.style)) + Scan(text, sp.next)
  {
    PlainStretch(text, plainStart, i);
    ScanUnfold(text, i, sp);
  }

  lemma MarkerFreeGrows(s: string, from: nat, i: nat)
    requires from <= i < |s| && MarkerFree(s[from..i]) && !IsMarker(s[i])
    ensures MarkerFree(s[from..i + 1])
  {
    assert s[from..i + 1] == s[from..i] + [s[i]];
  }

  /** A marker-free rest of the line is one plain run. */
  lemma PlainTail(s: string, from: nat)
    requires from <= |s| && MarkerFree(s[from..|s|])
    ensures Scan(s, from) == Emit(s[from..], Plain)
  {
    PlainStretch(s, from, |s|);
    assert s[from..|s|] == s[from..];
  }

  /** The scanning state of `build_inline_job` between iterations: the
      runs in `job` followed by the scan from the pending plain span at
      `plainStart` make up the runs of the whole line. */
  predicate Scanned(text: string, job: seq<Run>, plainStart: nat, i: nat) {
    && plainStart <= i <= |text|
    && MarkerFree(text[plainStart..i])
    && job + Scan(text, plainStart) == Tokens(text)
  }

  /** One iteration of the loop of `build_inline_job` at cursor `i`. */
  method Advance(text: string, job: seq<Run>, plainStart: nat, i: nat)
    returns (job': seq<Run>, plainStart': nat, i': nat)
    requires i < |text| && Scanned(text, job, plainStart, i)
    ensures i < i' && Scanned(text, job', plainStart', i')
  {
    if IsMarker(text[i]) {
      var emitted, next := MarkupSpan(text, plainStart, i);
      MarkupStep(text, plainStart, i, FirstSpan(text, i));
      assert (job + emitted) + Scan(text, next) == job + (emitted + Scan(text, next));
      job', i' := job + emitted, next;
      plainStart' := i';
    } else {
      MarkerFreeGrows(text, plainStart, i);
      job', plainStart', i' := job, plainStart, i + 1;
    }
  }

  /** `build_inline_job`: a cursor `i`, the start of the pending plain span
      `plainStart`, and runs appended to `job` as spans close. */
  method BuildInlineJob(text: string) returns (job: seq<Run>)
    ensures job == Tokens(text)
  {
    job := [];
    var len := |text|;
    var i: nat := 0;
    var plainStart: nat := 0;
    while i < len
      invariant Scanned(text, job, plainStart, i)
      decreases len - i
    {
      job, plainStart, i := Advance(text, job, plainStart, i);
    }
    PlainTail(text, plainStart);
    if plainStart < len {
      job := job + [Run(text[plainStart..], Plain)];
    }
  }

  // ── The fast path of `render_inline_text` ──────────────────────────────────

  predicate HasBoldMark(s: string) {
    exists k :: 0 <= k < |s| && IsBoldMark(s, k)
  }

  /** `render_inline_text`: a line with no "**", no '*' and no '`' is shown as
      one plain label; any other line goes through the scanner. */
  function RenderInlineText(text: string): (runs: seq<Run>)
    ensures MarkerFree(text) ==> runs == [Run(text, Plain)]
    ensures !MarkerFree(text) ==> runs == Tokens(text)
  {
    if !HasBoldMark(text) && '*' !in text && '`' !in text then [Run(text, Plain)]
    else Tokens(text)
  }

  /** A line without markers is a single plain run holding the whole line. */
  lemma MarkerFreeLine(s: string)
    requires s != [] && MarkerFree(s)
    ensures Tokens(s) == [Run(s, Plain)]
  {
    PlainStretch(s, 0, |s|);
    assert s[0..|s|] == s;
  }

  /** The fast path agrees with the scanner on every non-empty line; on the
      empty line it shows one empty label where the scanner has no run, so
      the text shown is the same for every line. */
  lemma FastPathAgrees(text: string)
    ensures text != [] ==> RenderInlineText(text) == Tokens(text)
    ensures Text(RenderInlineText(text)) == Text(Tokens(text))
  {
    if MarkerFree(text) && text != [] {
      MarkerFreeLine(text);
    }
  }

  // ── The text of the runs: the line with some markers deleted ───────────────

  /** `t` is `s` with some marker characters deleted and nothing else changed. */
  predicate DeletesMarkers(s: string, t: string)
    decreases |s|
  {
    if s == [] then t == []
    else (t != [] && t[0] == s[0] && DeletesMarkers(s[1..], t[1..]))
         || (IsMarker(s[0]) && DeletesMarkers(s[1..], t))
  }

  lemma {:induction false} DeletesNothing(s: string)
    ensures DeletesMarkers(s, s)
    decreases |s|
  {
    if s != [] {
      DeletesNothing(s[1..]);
    }
  }

  lemma {:induction false} DeletesAllMarkers(m: string)
    requires forall i :: 0 <= i < |m| ==> IsMarker(m[i])
    ensures DeletesMarkers(m, [])
    decreases |m|
  {
    if m != [] {
      DeletesAllMarkers(m[1..]);
    }
  }

  lemma {:induction false} DeletesAppend(a: string, x: string, b: string, y: string)
    requires DeletesMarkers(a, x) && DeletesMarkers(b, y)
    ensures DeletesMarkers(a + b, x + y)
    decreases |a|
  {
    if a == [] {
      assert a + b == b && x + y == y;
    } else {
      assert (a + b)[0] == a[0] && (a + b)[1..] == a[1..] + b;
      if x != [] && x[0] == a[0] && DeletesMarkers(a[1..], x[1..]) {
        DeletesAppend(a[1..], x[1..], b, y);
        assert (x + y)[0] == x[0] && (x + y)[1..] == x[1..] + y;
      } else {
        DeletesAppend(a[1..], x, b, y);
      }
    }
  }

  lemma TextOfEmit(t: string, style: Style)
    ensures Text(Emit(t, style)) == t
  {
    if t != [] {
      assert Text([Run(t, style)]) == t + Text([]);
    }
  }

  /** A stretch of markers may be deleted whole. */
  lemma MarkersDeleted(s: string, a: nat, b: nat)
    requires a <= b <= |s| && forall i :: a <= i < b ==> IsMarker(s[i])
    ensures DeletesMarkers(s[a..b], [])
  {
    var m := s[a..b];
    forall i | 0 <= i < |m| ensures IsMarker(m[i]) {
      assert m[i] == s[a + i];
    }
    DeletesAllMarkers(m);
  }

  /** Deletions from two adjacent stretches make a deletion from both. */
  lemma DeletesSplit(s: string, a: nat, b: nat, x: string, y: string)
    requires a <= b <= |s| && DeletesMarkers(s[a..b], x) && DeletesMarkers(s[b..], y)
    ensures DeletesMarkers(s[a..], x + y)
  {
    DeletesAppend(s[a..b], x, s[b..], y);
    assert s[a..] == s[a..b] + s[b..];
  }

  /** A span `s[a..b]` kept whole between marker stretches `s[p..a]` and
      `s[b..next]`, followed by a deletion from the rest. */
  lemma SpanDeletes(s: string, p: nat, a: nat, b: nat, next: nat, tail: string)
    requires p <= a <= b <= next <= |s|
    requires forall i :: p <= i < a ==> IsMarker(s[i])
    requires forall i :: b <= i < next ==> IsMarker(s[i])
    requires DeletesMarkers(s[next..], tail)
    ensures DeletesMarkers(s[p..], s[a..b] + tail)
  {
    MarkersDeleted(s, b, next);
    DeletesSplit(s, b, next, [], tail);
    assert [] + tail == tail;
    DeletesNothing(s[a..b]);
    DeletesSplit(s, a, b, s[a..b], tail);
    MarkersDeleted(s, p, a);
    DeletesSplit(s, p, a, [], s[a..b] + tail);
    assert [] + (s[a..b] + tail) == s[a..b] + tail;
  }

  /** What the scan drops around a span is markers only: the opening and
      closing delimiters. */
  lemma FirstSpanDrops(s: string, p: nat)
    requires p < |s|
    ensures var sp := FirstSpan(s, p);
      && (forall i :: p <= i < sp.from ==> IsMarker(s[i]))
      && (forall i :: sp.to <= i < sp.next ==> IsMarker(s[i]))
  {
  }

  /** The text of the scan is the kept text of the first span followed by
      the text of the rest. */
  lemma StepText(s: string, p: nat)
    requires p < |s|
    ensures var sp := FirstSpan(s, p);
      Text(Scan(s, p)) == s[sp.from..sp.to] + Text(Scan(s, sp.next))
  {
    var sp := FirstSpan(s, p);
    TextAppend(Emit(s[sp.from..sp.to], sp.style), Scan(s, sp.next));
    TextOfEmit(s[sp.from..sp.to], sp.style);
  }

  /** The runs of `s[p..]` spell `s[p..]` with some markers deleted. */
  lemma {:induction false} ScanDeletesMarkers(s: string, p: nat)
    requires p <= |s|
    ensures DeletesMarkers(s[p..], Text(Scan(s, p)))
    decreases |s| - p
  {
    if p < |s| {
      var sp := FirstSpan(s, p);
      ScanDeletesMarkers(s, sp.next);
      StepText(s, p);
      FirstSpanDrops(s, p);
      SpanDeletes(s, p, sp.from, sp.to, sp.next, Text(Scan(s, sp.next)));
    }
  }

  /** The characters of `s` that are not markers, in order. */
  function NonMarkers(s: string): (r: string)
    ensures MarkerFree(r) && |r| <= |s|
  {
    if s == [] then []
    else if IsMarker(s[0]) then NonMarkers(s[1..])
    else [s[0]] + NonMarkers(s[1..])
  }

  lemma {:induction false} DeletesKeepsNonMarkers(s: string, t: string)
    requires DeletesMarkers(s, t)
    ensures NonMarkers(t) == NonMarkers(s) && |t| <= |s|
    decreases |s|
  {
    if s != [] {
      if t != [] && t[0] == s[0] && DeletesMarkers(s[1..], t[1..]) {
        DeletesKeepsNonMarkers(s[1..], t[1..]);
      } else {
        DeletesKeepsNonMarkers(s[1..], t);
      }
    }
  }

  /** The text shown for a line is the line with some markers deleted: no
      other character is dropped, added or moved. */
  lemma TokensDeleteOnlyMarkers(s: string)
    ensures DeletesMarkers(s, Text(Tokens(s)))
    ensures NonMarkers(Text(Tokens(s))) == NonMarkers(s)
    ensures |Text(Tokens(s))| <= |s|
  {
    ScanDeletesMarkers(s, 0);
    assert s[0..] == s;
    DeletesKeepsNonMarkers(s, Text(Tokens(s)));
  }
}
