/** String helpers with the meaning the Rust standard library gives them:
    `char::is_whitespace`, `trim_start`, `trim_end`, `trim`, `starts_with`,
    `str::lines`, `split` on a set of characters and `join`. Strings are
    sequences of Unicode scalar values, as a Rust `&str` is. */
module TextUtil {

  datatype Option<T> = None | Some(value: T)

  lemma AppendAssoc<T>(a: seq<T>, b: seq<T>, c: seq<T>)
    ensures a + (b + c) == (a + b) + c
  {
  }

  /** `char::is_whitespace`: the Unicode White_Space property. */
  predicate IsWhitespace(c: char) {
    c == ' ' || ('\t' <= c <= '\r') || c == '\U{85}' || c == '\U{A0}' || c == '\U{1680}'
    || ('\U{2000}' <= c <= '\U{200A}') || c == '\U{2028}' || c == '\U{2029}'
    || c == '\U{202F}' || c == '\U{205F}' || c == '\U{3000}'
  }

  predicate AllWhitespace(s: string) {
    forall i :: 0 <= i < |s| ==> IsWhitespace(s[i])
  }

  predicate StartsWith(s: string, prefix: string) {
    |prefix| <= |s| && s[..|prefix|] == prefix
  }

  /** `str::trim_start`. */
  function TrimStart(s: string): string {
    if s != [] && IsWhitespace(s[0]) then TrimStart(s[1..]) else s
  }

  /** `str::trim_end`. */
  function TrimEnd(s: string): string {
    if s != [] && IsWhitespace(s[|s| - 1]) then TrimEnd(s[..|s| - 1]) else s
  }

  /** `str::trim`. */
  function Trim(s: string): string {
    TrimEnd(TrimStart(s))
  }

  /** `trim_start` drops the leading whitespace and nothing else. */
  lemma {:induction false} TrimStartSpec(s: string)
    ensures var r := TrimStart(s);
      && |r| <= |s| && r == s[|s| - |r|..]
      && AllWhitespace(s[..|s| - |r|])
      && (r == [] || !IsWhitespace(r[0]))
    decreases |s|
  {
    if s != [] && IsWhitespace(s[0]) {
      TrimStartSpec(s[1..]);
      var r := TrimStart(s);
      assert s[1..][..|s| - 1 - |r|] == s[1..|s| - |r|];
    }
  }

  /** `trim_end` drops the trailing whitespace and nothing else. */
  lemma {:induction false} TrimEndSpec(s: string)
    ensures var r := TrimEnd(s);
      && |r| <= |s| && r == s[..|r|]
      && AllWhitespace(s[|r|..])
      && (r == [] || !IsWhitespace(r[|r| - 1]))
    decreases |s|
  {
    if s != [] && IsWhitespace(s[|s| - 1]) {
      TrimEndSpec(s[..|s| - 1]);
      var r := TrimEnd(s);
      assert s[|r|..] == s[..|s| - 1][|r|..] + [s[|s| - 1]];
    }
  }

  /** `trim` leaves no whitespace at either end. */
  lemma TrimSpec(s: string)
    ensures var r := Trim(s); r == [] || (!IsWhitespace(r[0]) && !IsWhitespace(r[|r| - 1]))
  {
    var t := TrimStart(s);
    TrimStartSpec(s);
    TrimEndSpec(t);
    var r := TrimEnd(t);
    if r != [] {
      assert r[0] == t[0];
    }
  }

  /** A string that `trim` leaves unchanged. */
  predicate IsTrimmed(s: string) {
    s == [] || (!IsWhitespace(s[0]) && !IsWhitespace(s[|s| - 1]))
  }

  lemma TrimOfTrimmed(s: string)
    requires IsTrimmed(s)
    ensures Trim(s) == s
  {
  }

  /** Leading whitespace does not change what `trim` gives. */
  lemma TrimLeading(c: char, s: string)
    requires IsWhitespace(c)
    ensures Trim([c] + s) == Trim(s)
  {
    assert ([c] + s)[1..] == s;
  }

  /** A character that is kept at the front stays in front of `trim_end`. */
  lemma {:induction false} TrimEndCons(c: char, s: string)
    requires !IsWhitespace(c) || !AllWhitespace(s)
    ensures TrimEnd([c] + s) == [c] + TrimEnd(s)
    decreases |s|
  {
    if s != [] && IsWhitespace(s[|s| - 1]) {
      var t := s[..|s| - 1];
      assert ([c] + s)[..|s|] == [c] + t;
      assert !IsWhitespace(c) || !AllWhitespace(t) by {
        if IsWhitespace(c) {
          var i :| 0 <= i < |s| && !IsWhitespace(s[i]);
          assert t[i] == s[i];
        }
      }
      TrimEndCons(c, t);
    }
  }

  /** Trimming the two ends commutes. */
  lemma {:induction false} TrimEndsCommute(s: string)
    ensures TrimStart(TrimEnd(s)) == TrimEnd(TrimStart(s))
    decreases |s|
  {
    if s == [] {
    } else if IsWhitespace(s[0]) {
      if AllWhitespace(s) {
        TrimBlank(s);
        TrimEndSpec(s);
      } else {
        assert s == [s[0]] + s[1..];
        assert !AllWhitespace(s[1..]) by {
          var i :| 0 <= i < |s| && !IsWhitespace(s[i]);
          assert s[1..][i - 1] == s[i];
        }
        TrimEndCons(s[0], s[1..]);
        TrimEndsCommute(s[1..]);
      }
    } else {
      assert s == [s[0]] + s[1..];
      TrimEndCons(s[0], s[1..]);
    }
  }

  /** A string trims to nothing exactly when it is all whitespace. */
  lemma TrimBlank(s: string)
    ensures Trim(s) == [] <==> AllWhitespace(s)
  {
    var t := TrimStart(s);
    TrimStartSpec(s);
    TrimEndSpec(t);
    if Trim(s) == [] {
      assert s == s[..|s| - |t|] + t;
      assert t == t[..0] + t[0..];
    }
  }

  /** Index of the first occurrence of `c` in `s`, or `|s|`. */
  function IndexOf(s: string, c: char): (k: nat)
    ensures k <= |s|
    ensures forall i :: 0 <= i < k ==> s[i] != c
    ensures k < |s| ==> s[k] == c
  {
    if s == [] then 0 else if s[0] == c then 0 else 1 + IndexOf(s[1..], c)
  }

  /** `str::lines`: split after each "\n"; a line that ended in "\n" also
      loses one "\r" before it; no empty line follows a final "\n". */
  function Lines(s: string): (ls: seq<string>)
    decreases |s|
  {
    if s == [] then []
    else
      var k := IndexOf(s, '\n');
      if k == |s| then [s]
      else [StripCarriageReturn(s[..k])] + Lines(s[k + 1..])
  }

  /** One step of `str::lines` at the first "\n" of `s`. */
  lemma LineStep(s: string, k: nat)
    requires k < |s| && s[k] == '\n' && '\n' !in s[..k]
    ensures Lines(s) == [StripCarriageReturn(s[..k])] + Lines(s[k + 1..])
  {
  }

  /** A line ended by "\n" and not by "\r\n" is taken as it is. */
  lemma LineThen(line: string, rest: string)
    requires '\n' !in line && (line == [] || line[|line| - 1] != '\r')
    ensures Lines(line + "\n" + rest) == [line] + Lines(rest)
  {
    var s := line + "\n" + rest;
    assert s[..|line|] == line && s[|line| + 1..] == rest;
    LineStep(s, |line|);
  }

  /** The last line of `str::lines` when no "\n" remains. */
  lemma LastLine(s: string)
    requires s != [] && '\n' !in s
    ensures Lines(s) == [s]
  {
  }

  function StripCarriageReturn(line: string): string {
    if line != [] && line[|line| - 1] == '\r' then line[..|line| - 1] else line
  }

  /** Joins `pieces` with `sep` between neighbours (`[T]::join`). */
  function Join(pieces: seq<string>, sep: string): string {
    if pieces == [] then []
    else if |pieces| == 1 then pieces[0]
    else pieces[0] + sep + Join(pieces[1..], sep)
  }

  /** Each line followed by "\n", as a file whose last line is ended. */
  function Terminated(ls: seq<string>): string {
    if ls == [] then [] else ls[0] + "\n" + Terminated(ls[1..])
  }

  /** A line that `str::lines` gives back unchanged: no "\n" inside and no
      "\r" at its end. */
  predicate IsPlainLine(line: string) {
    '\n' !in line && (line == [] || line[|line| - 1] != '\r')
  }

  /** `str::lines` gives back the lines of a file whose every line is ended
      by "\n", when no line holds "\n" or ends in "\r". */
  lemma {:induction false} LinesOfTerminated(ls: seq<string>)
    requires forall i :: 0 <= i < |ls| ==> IsPlainLine(ls[i])
    ensures Lines(Terminated(ls)) == ls
  {
    if ls != [] {
      TerminatedLineStep(ls);
      LinesOfTerminated(ls[1..]);
    }
  }

  /** `str::lines` is the inverse of joining lines with "\n" for lines that
      hold no "\n" and do not end in "\r" (the last may not be empty). */
  lemma {:induction false} LinesOfJoin(ls: seq<string>)
    requires forall i :: 0 <= i < |ls| ==> IsPlainLine(ls[i])
    requires ls != [] ==> ls[|ls| - 1] != []
    ensures Lines(Join(ls, "\n")) == ls
  {
    if ls == [] {
    } else if |ls| == 1 {
      LastLine(ls[0]);
    } else {
      PlainLinesTail(ls);
      LinesOfJoin(ls[1..]);
      JoinedLinesOff(ls);
    }
  }

  /** Joined lines come back once the lines after the first do. */
  lemma JoinedLinesOff(ls: seq<string>)
    requires |ls| >= 2 && IsPlainLine(ls[0])
    requires Lines(Join(ls[1..], "\n")) == ls[1..]
    ensures Lines(Join(ls, "\n")) == ls
  {
    JoinedLineStep(ls);
    assert [ls[0]] + ls[1..] == ls;
  }

  /** Every line after the first is plain when every line is. */
  lemma PlainLinesTail(ls: seq<string>)
    requires ls != [] && forall i :: 0 <= i < |ls| ==> IsPlainLine(ls[i])
    ensures IsPlainLine(ls[0])
    ensures forall i :: 0 <= i < |ls[1..]| ==> IsPlainLine(ls[1..][i])
  {
    assert IsPlainLine(ls[0]);
    forall i | 0 <= i < |ls[1..]| ensures IsPlainLine(ls[1..][i]) {
      assert ls[1..][i] == ls[i + 1];
    }
  }

  /** The first line of a terminated text comes off first. */
  lemma TerminatedLineStep(ls: seq<string>)
    requires ls != [] && IsPlainLine(ls[0])
    ensures Lines(Terminated(ls)) == [ls[0]] + Lines(Terminated(ls[1..]))
  {
    LineThen(ls[0], Terminated(ls[1..]));
  }

  /** The first line of a join comes off first. */
  lemma JoinedLineStep(ls: seq<string>)
    requires |ls| >= 2 && IsPlainLine(ls[0])
    ensures Lines(Join(ls, "\n")) == [ls[0]] + Lines(Join(ls[1..], "\n"))
  {
    assert Join(ls, "\n") == ls[0] + "\n" + Join(ls[1..], "\n");
    LineThen(ls[0], Join(ls[1..], "\n"));
  }

  /** `str::split` on any character that `isSep` accepts: always at least one
      piece, an empty piece between two adjacent separators. */
  function SplitWhere(s: string, isSep: char -> bool): (pieces: seq<string>)
    ensures |pieces| >= 1
    decreases |s|
  {
    var k := FirstWhere(s, isSep);
    if k == |s| then [s] else [s[..k]] + SplitWhere(s[k + 1..], isSep)
  }

  /** No piece of a split holds a separator. */
  lemma {:induction false} SplitWhereNoSep(s: string, isSep: char -> bool)
    ensures forall i, j :: 0 <= i < |SplitWhere(s, isSep)| && 0 <= j < |SplitWhere(s, isSep)[i]|
                           ==> !isSep(SplitWhere(s, isSep)[i][j])
    decreases |s|
  {
    var k := FirstWhere(s, isSep);
    if k < |s| {
      SplitWhereNoSep(s[k + 1..], isSep);
      var pieces := SplitWhere(s, isSep);
      assert pieces == [s[..k]] + SplitWhere(s[k + 1..], isSep);
      forall i, j | 0 <= i < |pieces| && 0 <= j < |pieces[i]| ensures !isSep(pieces[i][j]) {
        if i == 0 {
          assert pieces[i][j] == s[j];
        } else {
          assert pieces[i] == SplitWhere(s[k + 1..], isSep)[i - 1];
        }
      }
    }
  }

  function FirstWhere(s: string, p: char -> bool): (k: nat)
    ensures k <= |s|
    ensures forall i :: 0 <= i < k ==> !p(s[i])
    ensures k < |s| ==> p(s[k])
  {
    if s == [] then 0 else if p(s[0]) then 0 else 1 + FirstWhere(s[1..], p)
  }

  lemma FirstWhereIs(s: string, p: char -> bool, k: nat)
    requires k <= |s| && (forall i :: 0 <= i < k ==> !p(s[i])) && (k < |s| ==> p(s[k]))
    ensures FirstWhere(s, p) == k
  {
  }

  /** A string without separators is one piece. */
  lemma SplitNone(s: string, isSep: char -> bool)
    requires forall j :: 0 <= j < |s| ==> !isSep(s[j])
    ensures SplitWhere(s, isSep) == [s]
  {
    FirstWhereIs(s, isSep, |s|);
  }

  /** A separator and a last piece after a string add that piece to its
      split. */
  lemma {:induction false} SplitThen(a: string, sep: char, b: string, isSep: char -> bool)
    requires isSep(sep) && forall j :: 0 <= j < |b| ==> !isSep(b[j])
    ensures SplitWhere(a + [sep] + b, isSep) == SplitWhere(a, isSep) + [b]
    decreases |a|
  {
    var k := FirstWhere(a, isSep);
    if k == |a| {
      SplitThenLast(a, sep, b, isSep);
    } else {
      SplitThen(a[k + 1..], sep, b, isSep);
      AppendAssoc(a, [sep], b);
      AppendAssoc(a[k + 1..], [sep], b);
      SplitThenStep(a, [sep] + b, [b], isSep, k);
    }
  }

  /** The case of `SplitThen` where `a` holds no separator. */
  lemma SplitThenLast(a: string, sep: char, b: string, isSep: char -> bool)
    requires isSep(sep) && forall j :: 0 <= j < |b| ==> !isSep(b[j])
    requires FirstWhere(a, isSep) == |a|
    ensures SplitWhere(a + [sep] + b, isSep) == SplitWhere(a, isSep) + [b]
  {
    var s := a + [sep] + b;
    FirstWhereIs(s, isSep, |a|);
    assert s[..|a|] == a && s[|a| + 1..] == b;
    SplitNone(b, isSep);
  }

  /** The case of `SplitThen` where the first separator of `a` is at `k`. */
  lemma SplitThenStep(a: string, c: string, tail: seq<string>, isSep: char -> bool, k: nat)
    requires k < |a| && FirstWhere(a, isSep) == k
    requires SplitWhere(a[k + 1..] + c, isSep) == SplitWhere(a[k + 1..], isSep) + tail
    ensures SplitWhere(a + c, isSep) == SplitWhere(a, isSep) + tail
  {
    SplitCut(a, c, isSep, k);
    AppendAssoc([a[..k]], SplitWhere(a[k + 1..], isSep), tail);
  }

  /** Cutting `a + c` at a position inside `a`. */
  lemma SlicesAround<T>(a: seq<T>, c: seq<T>, k: nat)
    requires k < |a|
    ensures (a + c)[..k] == a[..k] && (a + c)[k + 1..] == a[k + 1..] + c
  {
  }

  /** Text after the first separator of `a` only changes the split after it. */
  lemma SplitCut(a: string, c: string, isSep: char -> bool, k: nat)
    requires k < |a| && FirstWhere(a, isSep) == k
    ensures SplitWhere(a + c, isSep) == [a[..k]] + SplitWhere(a[k + 1..] + c, isSep)
  {
    FirstWhereIs(a + c, isSep, k);
    SlicesAround(a, c, k);
  }

  /** Splitting a join on one of the separators gives the pieces back. */
  lemma {:induction false} SplitOfJoin(pieces: seq<string>, sep: char, isSep: char -> bool)
    requires pieces != [] && isSep(sep)
    requires forall i, j :: 0 <= i < |pieces| && 0 <= j < |pieces[i]| ==> !isSep(pieces[i][j])
    ensures SplitWhere(Join(pieces, [sep]), isSep) == pieces
  {
    var s := Join(pieces, [sep]);
    var k := FirstWhere(s, isSep);
    if |pieces| == 1 {
    } else {
      assert s == pieces[0] + [sep] + Join(pieces[1..], [sep]);
      assert k == |pieces[0]| by {
        assert s[|pieces[0]|] == sep;
      }
      assert s[..k] == pieces[0];
      assert s[k + 1..] == Join(pieces[1..], [sep]);
      SplitOfJoin(pieces[1..], sep, isSep);
    }
  }
}
