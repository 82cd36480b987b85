/** The last lines of a log file, read backwards in chunks. */
module TailReader {

  // ---------------------------------------------------------------- trimming and counting

  /** `s` without its longest suffix of characters from `cut`. */
  function DropEnd(s: string, cut: set<char>): (r: string)
    ensures r <= s
    ensures r != "" ==> r[|r| - 1] !in cut
  {
    if s != "" && s[|s| - 1] in cut then DropEnd(s[..|s| - 1], cut) else s
  }

  lemma {:induction false} DropEndAppend(p: string, t: string, cut: set<char>)
    ensures DropEnd(p + t, cut) == if DropEnd(t, cut) == "" then DropEnd(p, cut) else p + DropEnd(t, cut)
    decreases |t|
  {
    if t == "" {
      assert p + t == p;
    } else {
      assert (p + t)[..|p + t| - 1] == p + t[..|t| - 1];
      DropEndAppend(p, t[..|t| - 1], cut);
    }
  }

  /** Exactly the strings over `cut` are dropped entirely. */
  lemma {:induction false} DropEndEmpty(s: string, cut: set<char>)
    ensures DropEnd(s, cut) == "" <==> forall i :: 0 <= i < |s| ==> s[i] in cut
    decreases |s|
  {
    if s != "" {
      var init := s[..|s| - 1];
      DropEndEmpty(init, cut);
      assert forall i :: 0 <= i < |init| ==> init[i] == s[i];
    }
  }

  function Newlines(s: string): nat {
    if s == "" then 0 else Newlines(s[..|s| - 1]) + if s[|s| - 1] == '\n' then 1 else 0
  }

  lemma {:induction false} NewlinesAppend(p: string, t: string)
    ensures Newlines(p + t) == Newlines(p) + Newlines(t)
    decreases |t|
  {
    if t == "" {
      assert p + t == p;
    } else {
      assert (p + t)[..|p + t| - 1] == p + t[..|t| - 1];
      NewlinesAppend(p, t[..|t| - 1]);
    }
  }

  // ---------------------------------------------------------------- splitting into lines

  function Split(s: string): (lines: seq<string>)
    ensures |lines| >= 1
  {
    if s == "" then [""] else Extend(Split(s[..|s| - 1]), s[|s| - 1])
  }

  function Extend(lines: seq<string>, c: char): (r: seq<string>)
    requires |lines| >= 1
    ensures |r| >= 1
  {
    if c == '\n' then lines + [""] else lines[..|lines| - 1] + [lines[|lines| - 1] + [c]]
  }

  /** The last line of `a` continued by the first line of `b`. */
  function Glue(a: seq<string>, b: seq<string>): (r: seq<string>)
    requires |a| >= 1 && |b| >= 1
    ensures |r| == |a| + |b| - 1
  {
    a[..|a| - 1] + [a[|a| - 1] + b[0]] + b[1..]
  }

  lemma GlueExtend(a: seq<string>, b: seq<string>, c: char)
    requires |a| >= 1 && |b| >= 1
    ensures Glue(a, Extend(b, c)) == Extend(Glue(a, b), c)
  {
    var x, y := Glue(a, Extend(b, c)), Extend(Glue(a, b), c);
    assert |x| == |y|;
    if |b| == 1 && c != '\n' {
      assert a[|a| - 1] + (b[0] + [c]) == a[|a| - 1] + b[0] + [c];
    }
    assert forall i :: 0 <= i < |x| ==> x[i] == y[i];
  }

  function Join(lines: seq<string>): string
    requires lines != []
  {
    if |lines| == 1 then lines[0] else Join(lines[..|lines| - 1]) + "\n" + lines[|lines| - 1]
  }

  lemma {:induction false} JoinExtend(lines: seq<string>, c: char)
    requires |lines| >= 1
    ensures Join(Extend(lines, c)) == Join(lines) + [c]
  {
    var more, n := Extend(lines, c), |lines|;
    if c == '\n' {
      assert more[..n] == lines && more[n] == "";
    } else if n > 1 {
      assert more[..n - 1] == lines[..n - 1];
      assert Join(lines[..n - 1]) + "\n" + (lines[n - 1] + [c]) == Join(lines) + [c];
    }
  }

  predicate NoneBroken(lines: seq<string>) {
    forall i :: 0 <= i < |lines| ==> '\n' !in lines[i]
  }

  lemma ExtendCount(lines: seq<string>, c: char)
    requires |lines| >= 1
    ensures |Extend(lines, c)| == |lines| + if c == '\n' then 1 else 0
    ensures NoneBroken(lines) ==> NoneBroken(Extend(lines, c))
  {
  }

  /** The lines contain no newline and give the text back when joined. */
  lemma {:induction false} SplitJoins(s: string)
    ensures Join(Split(s)) == s && |Split(s)| == Newlines(s) + 1 && NoneBroken(Split(s))
    decreases |s|
  {
    if s != "" {
      var init, c := s[..|s| - 1], s[|s| - 1];
      SplitJoins(init);
      JoinExtend(Split(init), c);
      ExtendCount(Split(init), c);
      hide Join, Extend, NoneBroken;
      assert s == init + [c];
    }
  }

  /** Splitting a text in two pieces: only the line at the seam is shared. */
  lemma {:induction false} SplitAppend(p: string, t: string)
    ensures Split(p + t) == Glue(Split(p), Split(t))
    decreases |t|
  {
    if t == "" {
      var a := Split(p);
      assert p + t == p && a[|a| - 1] + "" == a[|a| - 1];
    } else {
      assert (p + t)[..|p + t| - 1] == p + t[..|t| - 1];
      SplitAppend(p, t[..|t| - 1]);
      GlueExtend(Split(p), Split(t[..|t| - 1]), t[|t| - 1]);
      hide Glue, Extend;
    }
  }

  // ---------------------------------------------------------------- the last lines of a text

  function Cleaned(lines: seq<string>): (r: seq<string>)
    ensures |r| == |lines|
  {
    seq(|lines|, i requires 0 <= i < |lines| => DropEnd(lines[i], {'\r'}))
  }

  /** The lines of a text without trailing line breaks, each without trailing carriage returns. */
  function Lines(s: string): seq<string> {
    var trimmed := DropEnd(s, {'\r', '\n'});
    if trimmed == "" then [] else Cleaned(Split(trimmed))
  }

  function Last(lines: seq<string>, n: nat): seq<string> {
    if |lines| > n then lines[|lines| - n..] else lines
  }

  datatype Tail = Tail(lines: seq<string>, truncated: bool)

  /** The last `n` lines, and whether there are more. */
  function TailOf(s: string, n: nat): Tail {
    Tail(Last(Lines(s), n), |Lines(s)| > n)
  }

  // ---------------------------------------------------------------- when reading backwards is enough

  /** Where the reader stops: it takes whole chunks from the end until it has more than `n` newlines. */
  function Stop(file: string, chunk: nat, n: nat, offset: nat): (stop: nat)
    requires chunk > 0 && offset <= |file|
    ensures stop <= offset
    ensures stop == 0 || Newlines(file[stop..]) > n
  {
    if offset == 0 || Newlines(file[offset..]) > n then offset
    else Stop(file, chunk, n, if offset < chunk then 0 else offset - chunk)
  }

  /**
    * What was read determines the answer: it is the whole file, or it holds enough newlines before the trailing
    * line breaks, or all that is missing is line breaks or carriage returns that are dropped in any case.
    */
  predicate Enough(file: string, stop: nat, n: nat)
    requires stop <= |file|
  {
    || stop == 0
    || var read := DropEnd(file[stop..], {'\r', '\n'});
       if read == "" then forall i :: 0 <= i < stop ==> file[i] in {'\r', '\n'}
       else Newlines(read) >= n || OnlyReturns(file[..stop] + Split(read)[0])
  }

  predicate OnlyReturns(s: string) {
    forall i :: 0 <= i < |s| ==> s[i] == '\r'
  }

  lemma OnlyReturnsDropped(s: string)
    ensures OnlyReturns(s) <==> DropEnd(s, {'\r'}) == ""
  {
    DropEndEmpty(s, {'\r'});
  }

  lemma {:induction false} NoNewlineSplit(p: string)
    requires Newlines(p) == 0
    ensures Split(p) == [p]
  {
    SplitJoins(p);
  }

  lemma {:induction false} ReturnsHaveNoNewline(p: string)
    requires OnlyReturns(p)
    ensures Newlines(p) == 0
    decreases |p|
  {
    if p != "" {
      ReturnsHaveNoNewline(p[..|p| - 1]);
    }
  }

  lemma LastOfGlue(a: seq<string>, b: seq<string>, n: nat)
    requires |a| >= 1 && |b| > n
    ensures Last(Cleaned(Glue(a, b)), n) == Last(Cleaned(b), n)
  {
    hide DropEnd;
    var whole, k := Glue(a, b), |a| - 1;
    var x, y := Last(Cleaned(whole), n), Last(Cleaned(b), n);
    forall i | 0 <= i < n
      ensures x[i] == y[i]
    {
      var j := |b| - n + i;
      assert whole[k + j] == b[1..][j - 1];
    }
  }

  lemma CleanedGlue(p: string, b: seq<string>)
    requires |b| >= 1
    ensures Cleaned(Glue([p], b)) == Cleaned(b) <==> DropEnd(p + b[0], {'\r'}) == DropEnd(b[0], {'\r'})
  {
    hide DropEnd;
    var x, y := Cleaned(Glue([p], b)), Cleaned(b);
    assert [p][..0] + [p + b[0]] == [p + b[0]];
    assert x[0] == DropEnd(p + b[0], {'\r'}) && y[0] == DropEnd(b[0], {'\r'});
    assert forall i :: 1 <= i < |b| ==> x[i] == y[i];
  }

  lemma {:induction false} ContinuedLine(p: string, first: string)
    requires p != ""
    ensures DropEnd(p + first, {'\r'}) == DropEnd(first, {'\r'}) <==> OnlyReturns(p + first)
  {
    OnlyReturnsDropped(p + first);
    DropEndAppend(p, first, {'\r'});
    hide DropEnd;
    if OnlyReturns(p + first) {
      assert OnlyReturns(first) by {
        assert forall i :: 0 <= i < |first| ==> first[i] == (p + first)[|p| + i];
      }
      OnlyReturnsDropped(first);
    }
  }

  /** Text before the lines that were read changes them unless it disappears into carriage returns. */
  lemma {:induction false} FirstLinePartial(p: string, t: string)
    requires p != ""
    ensures Cleaned(Split(p + t)) == Cleaned(Split(t)) <==> OnlyReturns(p + Split(t)[0])
  {
    SplitAppend(p, t);
    SplitJoins(p);
    var first := Split(t)[0];
    if Newlines(p) == 0 {
      NoNewlineSplit(p);
      CleanedGlue(p, Split(t));
      ContinuedLine(p, first);
    } else if OnlyReturns(p + first) {
      assert OnlyReturns(p) by { assert forall i :: 0 <= i < |p| ==> p[i] == (p + first)[i]; }
      ReturnsHaveNoNewline(p);
    }
    hide Split, Newlines, DropEnd, Cleaned;
  }

  /** The part that was read gives the same last lines as the whole text exactly when it was enough. */
  lemma {:induction false} TailOfPart(file: string, stop: nat, n: nat)
    requires stop <= |file| && n > 0
    ensures TailOf(file[stop..], n) == TailOf(file, n) <==> Enough(file, stop, n)
  {
    var p, b := file[..stop], file[stop..];
    var breaks := {'\r', '\n'};
    var t := DropEnd(b, breaks);
    assert file == p + b;
    DropEndAppend(p, b, breaks);
    if stop == 0 {
      assert b == file;
    } else if t == "" {
      DropEndEmpty(p, breaks);
      hide DropEnd, Split;
    } else {
      SplitJoins(t);
      FirstLinePartial(p, t);
      SplitAppend(p, t);
      if Newlines(t) >= n {
        LastOfGlue(Split(p), Split(t), n);
      }
      hide DropEnd, Split, OnlyReturns, Newlines;
    }
  }

  // ---------------------------------------------------------------- the tail of a list of lines

  lemma {:induction false} NoNewlines(s: string)
    requires '\n' !in s
    ensures Newlines(s) == 0
    decreases |s|
  {
    if s != "" {
      NoNewlines(s[..|s| - 1]);
    }
  }

  /** Splitting undoes joining. */
  lemma {:induction false} SplitOfJoin(lines: seq<string>)
    requires lines != [] && NoneBroken(lines)
    ensures Split(Join(lines)) == lines
    decreases |lines|
  {
    var init, last := lines[..|lines| - 1], lines[|lines| - 1];
    NoNewlines(last);
    NoNewlineSplit(last);
    if init != [] {
      SplitOfJoin(init);
      var j := Join(init) + "\n";
      assert j[..|j| - 1] == Join(init);
      assert Split(j) == init + [""];
      SplitAppend(j, last);
      assert Join(lines) == j + last;
      hide Split, Join;
      assert Glue(init + [""], [last]) == init + ["" + last];
      assert "" + last == last && lines == init + [last];
    } else {
      assert lines == [last];
    }
  }

  lemma {:induction false} JoinEndsInLast(lines: seq<string>, cut: set<char>)
    requires lines != []
    ensures DropEnd(lines[|lines| - 1], cut) == lines[|lines| - 1] != "" ==> DropEnd(Join(lines), cut) == Join(lines)
  {
    var last := lines[|lines| - 1];
    if |lines| > 1 && DropEnd(last, cut) == last != "" {
      DropEndAppend(Join(lines[..|lines| - 1]) + "\n", last, cut);
      hide DropEnd;
    }
  }

  lemma {:induction false} ReturnsDropped(line: string, tail: string)
    requires OnlyReturns(tail) && (line == "" || line[|line| - 1] != '\r')
    ensures DropEnd(line + tail, {'\r'}) == line
  {
    OnlyReturnsDropped(tail);
    DropEndAppend(line, tail, {'\r'});
  }

  /** The raw lines are the lines with carriage returns after them. */
  ghost predicate RawLines(lines: seq<string>, raw: seq<string>) {
    && |raw| == |lines|
    && forall i :: 0 <= i < |lines| ==>
         && (lines[i] == "" || lines[i][|lines[i]| - 1] != '\r')
         && lines[i] <= raw[i] && OnlyReturns(raw[i][|lines[i]|..])
  }

  lemma {:induction false} RawAreCleaned(lines: seq<string>, raw: seq<string>)
    requires RawLines(lines, raw)
    ensures Cleaned(raw) == lines
  {
    hide DropEnd, OnlyReturns;
    forall i | 0 <= i < |lines|
      ensures DropEnd(raw[i], {'\r'}) == lines[i]
    {
      ReturnsDropped(lines[i], raw[i][|lines[i]|..]);
      assert raw[i] == lines[i] + raw[i][|lines[i]|..];
    }
  }

  /** A text of lines, each ended by a newline with any carriage returns before it, and with any line breaks at the end:
      its tail is the last `n` lines without the carriage returns, and whether there were more. */
  lemma {:induction false} TailOfLines(lines: seq<string>, raw: seq<string>, end: string, n: nat)
    requires lines != [] && NoneBroken(raw) && RawLines(lines, raw)
    requires raw[|raw| - 1] == lines[|lines| - 1] != "" && forall i :: 0 <= i < |end| ==> end[i] in {'\r', '\n'}
    ensures TailOf(Join(raw) + end, n) == Tail(if |lines| > n then lines[|lines| - n..] else lines, |lines| > n)
  {
    LinesOfText(lines, raw, end);
    hide Lines, RawLines, NoneBroken;
  }

  lemma {:induction false} LinesOfText(lines: seq<string>, raw: seq<string>, end: string)
    requires lines != [] && NoneBroken(raw) && RawLines(lines, raw)
    requires raw[|raw| - 1] == lines[|lines| - 1] != "" && forall i :: 0 <= i < |end| ==> end[i] in {'\r', '\n'}
    ensures Lines(Join(raw) + end) == lines
  {
    TextTrimmed(raw, lines[|lines| - 1], end);
    SplitOfJoin(raw);
    RawAreCleaned(lines, raw);
    hide DropEnd, Split, Join, Cleaned, RawLines, NoneBroken;
  }

  lemma {:induction false} TextTrimmed(raw: seq<string>, last: string, end: string)
    requires raw != [] && NoneBroken(raw) && raw[|raw| - 1] == last != "" && last[|last| - 1] != '\r'
    requires forall i :: 0 <= i < |end| ==> end[i] in {'\r', '\n'}
    ensures DropEnd(Join(raw) + end, {'\r', '\n'}) == Join(raw) != ""
  {
    var breaks := {'\r', '\n'};
    assert last[|last| - 1] in last;
    assert DropEnd(last, breaks) == last;
    DropEndEmpty(end, breaks);
    DropEndAppend(Join(raw), end, breaks);
    JoinEndsInLast(raw, breaks);
    hide DropEnd;
  }

  // ---------------------------------------------------------------- trailing blank lines

  /** Newlines among the trailing line breaks; more than one means that the file ends in blank lines. */
  function TrailingNewlines(file: string): nat {
    Newlines(file[|DropEnd(file, {'\r', '\n'})|..])
  }

  lemma {:induction false} TrailingAfterBlanks(p: string, b: string)
    requires DropEnd(b, {'\r', '\n'}) == ""
    ensures TrailingNewlines(p + b) >= Newlines(b)
  {
    var kept := DropEnd(p, {'\r', '\n'});
    DropEndAppend(p, b, {'\r', '\n'});
    var more := p[|kept|..];
    assert (p + b)[|kept|..] == more + b;
    NewlinesAppend(more, b);
    hide DropEnd, Newlines;
  }

  lemma {:induction false} TrailingAfterText(p: string, b: string)
    requires DropEnd(b, {'\r', '\n'}) != ""
    ensures TrailingNewlines(p + b) == Newlines(b) - Newlines(DropEnd(b, {'\r', '\n'}))
  {
    var t := DropEnd(b, {'\r', '\n'});
    DropEndAppend(p, b, {'\r', '\n'});
    var breaks := b[|t|..];
    assert (p + b)[|p + t|..] == breaks;
    assert b == t + breaks;
    NewlinesAppend(t, breaks);
    hide DropEnd, Newlines;
  }

  /** Without trailing blank lines every chunk size reads enough. */
  lemma {:induction false} NoTrailingBlanksIsEnough(file: string, chunk: nat, n: nat)
    requires chunk > 0 && n > 0 && TrailingNewlines(file) <= 1
    ensures Enough(file, Stop(file, chunk, n, |file|), n)
  {
    var stop := Stop(file, chunk, n, |file|);
    var p, b := file[..stop], file[stop..];
    assert file == p + b;
    hide DropEnd, Stop, TrailingNewlines, Newlines, Split, OnlyReturns;
    if DropEnd(b, {'\r', '\n'}) == "" {
      TrailingAfterBlanks(p, b);
    } else {
      TrailingAfterText(p, b);
    }
  }

  lemma {:induction false} BlankNewlines(k: nat)
    ensures Newlines(seq(k, _ => '\n')) == k
  {
    if k > 0 {
      BlankNewlines(k - 1);
      assert seq(k, _ => '\n')[..k - 1] == seq(k - 1, _ => '\n');
    }
  }

  /** One line followed by a chunk of newlines is lost, whatever the chunk size. */
  lemma {:induction false} TrailingBlanksHideText(chunk: nat, n: nat)
    requires 0 < n < chunk
    ensures var file := "a" + seq(chunk, _ => '\n');
      && TailOf(file[Stop(file, chunk, n, |file|)..], n) == Tail([], false)
      && TailOf(file, n) == Tail(["a"], false)
  {
    var blanks, breaks := seq(chunk, _ => '\n'), {'\r', '\n'};
    var file := "a" + blanks;
    BlankNewlines(chunk);
    DropEndEmpty(blanks, breaks);
    DropEndAppend("a", blanks, breaks);
    assert file[1..] == blanks && file[|file|..] == "";
    assert Stop(file, chunk, n, 1) == 1;
    assert Stop(file, chunk, n, |file|) == 1;
    assert "a"[..0] == "";
    NoNewlineSplit("a");
    assert DropEnd("a", {'\r'}) == "a";
    hide DropEnd, Split, Stop;
    assert Cleaned(["a"]) == ["a"];
  }

  // ---------------------------------------------------------------- the reader

  lemma Seam(file: string, from: nat, to: nat)
    requires from <= to <= |file|
    ensures file[from..to] + file[to..] == file[from..]
  {
  }

  lemma StopUnrolled(file: string, chunk: nat, n: nat, offset: nat)
    requires chunk > 0 && offset <= |file|
    ensures offset == 0 || Newlines(file[offset..]) > n ==> Stop(file, chunk, n, offset) == offset
    ensures offset > 0 && Newlines(file[offset..]) <= n ==> Stop(file, chunk, n, offset) == Stop(file, chunk, n, if offset < chunk then 0 else offset - chunk)
  {
  }

  method ReadBack(file: string, chunk: nat, n: nat) returns (buffer: string)
    requires chunk > 0
    ensures buffer == file[Stop(file, chunk, n, |file|)..]
  {
    hide Newlines, Stop;
    var newlines: nat, offset: nat := 0, |file|;
    ghost var stop := Stop(file, chunk, n, offset);
    buffer := "";
    NothingRead(file);
    while offset > 0 && newlines <= n
      invariant offset <= |file| && buffer == file[offset..] && newlines == Newlines(buffer)
      invariant Stop(file, chunk, n, offset) == stop
      decreases offset
    {
      StopUnrolled(file, chunk, n, offset);
      var next := if offset < chunk then 0 else offset - chunk;
      Seam(file, next, offset);
      buffer := file[next..offset] + buffer;
      newlines := Newlines(buffer);
      offset := next;
    }
    StopUnrolled(file, chunk, n, offset);
  }

  lemma NothingRead(file: string)
    ensures file[|file|..] == "" && Newlines("") == 0
  {
  }

  method ReadTailLines(file: string, maxLines: int, chunk: nat) returns (lines: seq<string>, truncated: bool)
    requires chunk > 0
    ensures var n := if maxLines <= 0 then 80 else maxLines;
      var stop := Stop(file, chunk, n, |file|);
      && Tail(lines, truncated) == TailOf(file[stop..], n)
      && (Tail(lines, truncated) == TailOf(file, n) <==> Enough(file, stop, n))
      && (TrailingNewlines(file) <= 1 ==> Tail(lines, truncated) == TailOf(file, n))
  {
    hide Enough, DropEnd, Split, TrailingNewlines, Newlines, Stop;
    var n := if maxLines <= 0 then 80 else maxLines;
    TailOfPart(file, Stop(file, chunk, n, |file|), n);
    if TrailingNewlines(file) <= 1 {
      NoTrailingBlanksIsEnough(file, chunk, n);
    }
    var buffer := ReadBack(file, chunk, n);
    var trimmed := DropEnd(buffer, {'\r', '\n'});
    if trimmed == "" {
      return [], false;
    }
    lines := Split(trimmed);
    truncated := |lines| > n;
    CleanedLast(lines, n);
    if truncated {
      lines := lines[|lines| - n..];
    }
    lines := CleanLines(lines);
  }

  method CleanLines(raw: seq<string>) returns (lines: seq<string>)
    ensures lines == Cleaned(raw)
  {
    hide DropEnd;
    lines := raw;
    for index := 0 to |lines|
      invariant |lines| == |raw|
      invariant forall i :: 0 <= i < index ==> lines[i] == DropEnd(raw[i], {'\r'})
      invariant forall i :: index <= i < |lines| ==> lines[i] == raw[i]
    {
      lines := lines[index := DropEnd(lines[index], {'\r'})];
    }
  }

  lemma CleanedLast(lines: seq<string>, n: nat)
    ensures Cleaned(Last(lines, n)) == Last(Cleaned(lines), n)
  {
    hide DropEnd;
  }
}
