/** LineScanner.Run of resources/pipeline.go: the lines of numbered files, as far as the buffered scanner
    hands them out, and exactly when some of them are lost. */
module LineScanner {
  import opened Wrappers

  /** The content of a readable file and the position at which reading it breaks off, if it does.  The
      reader reports its end or its error in a call that returns no bytes. */
  datatype File = CannotOpen | CannotRead | Readable(content: string, breaksAt: Option<nat>)

  /** A token the scanner returned; `failed` when the scanner already carries an error. */
  datatype Line = Line(text: string, failed: bool)

  /** Counts of one readable file. */
  datatype Report = Report(lines: nat, errorsCount: nat)

  // ---------------------------------------------------------------- bufio.Scanner with ScanLines

  function LineEnd(s: string): (i: nat)
    ensures i <= |s| && '\n' !in s[..i] && (i < |s| ==> s[i] == '\n')
  {
    if s == [] || s[0] == '\n' then 0 else 1 + LineEnd(s[1..])
  }

  /** The pieces between newlines; an empty last one is no line. */
  function RawLines(s: string): seq<string> {
    if s == [] then []
    else
      var i := LineEnd(s);
      if i == |s| then [s] else [s[..i]] + RawLines(s[i + 1..])
  }

  /** A line without its carriage return. */
  function Text(raw: string): string {
    if raw != [] && raw[|raw| - 1] == '\r' then raw[..|raw| - 1] else raw
  }

  function Visible(f: File): string
    requires f.Readable?
  {
    if f.breaksAt.Some? && f.breaksAt.value < |f.content| then f.content[..f.breaksAt.value] else f.content
  }

  /** How many leading lines fit into a buffer of `max` bytes together with their newline. */
  function Fitting(lines: seq<string>, max: nat): (n: nat)
    ensures n <= |lines| && (n < |lines| ==> |lines[n]| >= max)
    ensures forall i :: 0 <= i < n ==> |lines[i]| < max
  {
    if lines == [] || |lines[0]| >= max then 0 else 1 + Fitting(lines[1..], max)
  }

  /** The tokens of a file: none from the first line on that does not fit.  The unfinished line before a
      read error is returned when the scanner knows of the error already. */
  function Tokens(f: File, max: nat): seq<Line>
    requires f.Readable?
  {
    var seen := Visible(f);
    var raw := RawLines(seen);
    seq(Fitting(raw, max), i requires 0 <= i < Fitting(raw, max) =>
      Line(Text(raw[i]), f.breaksAt.Some? && i == |raw| - 1 && seen[|seen| - 1] != '\n'))
  }

  /** All lines that are in the file. */
  function Written(f: File): seq<Line>
    requires f.Readable?
  {
    var raw := RawLines(f.content);
    seq(|raw|, i requires 0 <= i < |raw| => Line(Text(raw[i]), false))
  }

  // ---------------------------------------------------------------- lines, skipped, sent and reported

  function NonEmpty(lines: seq<Line>): seq<Line> {
    if lines == [] then []
    else NonEmpty(lines[..|lines| - 1]) + (if lines[|lines| - 1].text == "" then [] else [lines[|lines| - 1]])
  }

  /** The non-empty tokens of the readable files, in order. */
  function AllLines(files: seq<File>, max: nat): seq<Line> {
    if files == [] then []
    else AllLines(files[..|files| - 1], max) +
         (if files[|files| - 1].Readable? then NonEmpty(Tokens(files[|files| - 1], max)) else [])
  }

  /** The non-empty lines that are in the readable files, in order. */
  function WrittenLines(files: seq<File>): seq<Line> {
    if files == [] then []
    else WrittenLines(files[..|files| - 1]) +
         (if files[|files| - 1].Readable? then NonEmpty(Written(files[|files| - 1])) else [])
  }

  function Texts(lines: seq<Line>): seq<string> {
    if lines == [] then []
    else Texts(lines[..|lines| - 1]) + (if lines[|lines| - 1].failed then [] else [lines[|lines| - 1].text])
  }

  function Failures(lines: seq<Line>): nat {
    if lines == [] then 0
    else Failures(lines[..|lines| - 1]) + (if lines[|lines| - 1].failed then 1 else 0)
  }

  /** The lines that remain after the first `skip` ones; a negative number skips nothing. */
  function AfterSkip(lines: seq<Line>, skip: int): seq<Line> {
    if skip <= 0 then lines else if skip < |lines| then lines[skip..] else []
  }

  lemma AfterSkipOneMore(lines: seq<Line>, skip: int, line: Line)
    ensures AfterSkip(lines + [line], skip) ==
      if |lines| + 1 > skip then AfterSkip(lines, skip) + [line] else AfterSkip(lines, skip)
  {
  }

  /** Skipping counts over all files: what is left to skip in `b` depends on the length of `a`. */
  lemma AfterSkipSplit(a: seq<Line>, b: seq<Line>, skip: int)
    ensures AfterSkip(a + b, skip) == AfterSkip(a, skip) + AfterSkip(b, skip - |a|)
  {
  }

  lemma NothingToSkip(skip: int)
    ensures AfterSkip([], skip) == [] && NonEmpty([]) == []
  {
  }

  lemma NonEmptyOneMore(lines: seq<Line>, i: nat)
    requires i < |lines|
    ensures NonEmpty(lines[..i + 1]) ==
      if lines[i].text == "" then NonEmpty(lines[..i]) else NonEmpty(lines[..i]) + [lines[i]]
  {
    assert lines[..i + 1][..i] == lines[..i];
  }

  lemma OneMoreLine(lines: seq<Line>, line: Line)
    ensures Texts(lines + [line]) == if line.failed then Texts(lines) else Texts(lines) + [line.text]
    ensures Failures(lines + [line]) == Failures(lines) + (if line.failed then 1 else 0)
    ensures Texts([]) == [] && Failures([]) == 0
  {
    assert (lines + [line])[..|lines|] == lines;
  }

  lemma {:induction false} LinesSplit(a: seq<Line>, b: seq<Line>)
    ensures Texts(a + b) == Texts(a) + Texts(b) && Failures(a + b) == Failures(a) + Failures(b)
  {
    hide Texts, Failures;
    if b == [] {
      OneMoreLine([], Line("", false));
      assert a + b == a;
    } else {
      var front, last := b[..|b| - 1], b[|b| - 1];
      LinesSplit(a, front);
      OneMoreLine(a + front, last);
      OneMoreLine(front, last);
      assert a + b == a + front + [last] && b == front + [last];
    }
  }

  /** What is sent for the files read so far. */
  function Sent(files: seq<File>, max: nat, skip: int): seq<string> {
    Texts(AfterSkip(AllLines(files, max), skip))
  }

  function ReportOf(lines: seq<Line>, skip: int): Report {
    Report(|NonEmpty(lines)|, Failures(AfterSkip(NonEmpty(lines), skip)))
  }

  /** One report for each readable file. */
  function Reports(files: seq<File>, max: nat, skip: int): seq<Report> {
    if files == [] then []
    else
      var front, last := files[..|files| - 1], files[|files| - 1];
      var before := Reports(front, max, skip);
      if last.Readable? then before + [ReportOf(Tokens(last, max), skip - |AllLines(front, max)|)] else before
  }

  /** `totalBefore` lines were counted in earlier files. */
  method ScanFile(f: File, max: nat, skip: int, totalBefore: nat) returns (sent: seq<string>, report: Report)
    requires f.Readable?
    ensures sent == Texts(AfterSkip(NonEmpty(Tokens(f, max)), skip - totalBefore))
    ensures report == ReportOf(Tokens(f, max), skip - totalBefore)
  {
    hide AfterSkip, Texts, Failures, NonEmpty, Tokens;
    sent, report := [], Report(0, 0);
    var totalLines := totalBefore;
    var lines := Tokens(f, max);
    NothingToSkip(skip - totalBefore);
    OneMoreLine([], Line("", false));
    assert lines[..0] == [];
    for i := 0 to |lines|
      invariant totalLines == totalBefore + |NonEmpty(lines[..i])|
      invariant sent == Texts(AfterSkip(NonEmpty(lines[..i]), skip - totalBefore))
      invariant report == ReportOf(lines[..i], skip - totalBefore)
    {
      NonEmptyOneMore(lines, i);
      if |lines[i].text| == 0 { continue; }
      AfterSkipOneMore(NonEmpty(lines[..i]), skip - totalBefore, lines[i]);
      OneMoreLine(AfterSkip(NonEmpty(lines[..i]), skip - totalBefore), lines[i]);
      totalLines := totalLines + 1;
      report := report.(lines := report.lines + 1);
      if totalLines > skip {
        if lines[i].failed {
          report := report.(errorsCount := report.errorsCount + 1);
        } else {
          sent := sent + [lines[i].text];
        }
      }
    }
    assert lines[..|lines|] == lines;
  }

  method RunScanner(files: seq<File>, max: nat, skip: int)
    returns (sent: seq<string>, reports: seq<Report>, failures: nat)
    ensures sent == Sent(files, max, skip)
    ensures reports == Reports(files, max, skip) && |reports| + failures == |files|
  {
    hide AfterSkip, Texts, Failures, NonEmpty, ReportOf, Tokens;
    sent, reports, failures := [], [], 0;
    var totalLines := 0;
    NothingToSkip(skip);
    OneMoreLine([], Line("", false));
    for i := 0 to |files|
      invariant sent == Sent(files[..i], max, skip)
      invariant reports == Reports(files[..i], max, skip) && |reports| + failures == i
      invariant totalLines == |AllLines(files[..i], max)|
    {
      FileOneMore(files, i, max, skip);
      match files[i]
      case CannotOpen => failures := failures + 1;
      case CannotRead => failures := failures + 1;
      case Readable(_, _) =>
        var more, report := ScanFile(files[i], max, skip, totalLines);
        totalLines := totalLines + report.lines;
        sent, reports := sent + more, reports + [report];
    }
    assert files[..|files|] == files;
  }

  lemma FileOneMore(files: seq<File>, i: nat, max: nat, skip: int)
    requires i < |files|
    ensures var before, f := files[..i], files[i];
      if f.Readable? then
        var left := skip - |AllLines(before, max)|;
        && |AllLines(files[..i + 1], max)| == |AllLines(before, max)| + ReportOf(Tokens(f, max), left).lines
        && Sent(files[..i + 1], max, skip) == Sent(before, max, skip) + Texts(AfterSkip(NonEmpty(Tokens(f, max)), left))
        && Reports(files[..i + 1], max, skip) == Reports(before, max, skip) + [ReportOf(Tokens(f, max), left)]
      else
        && AllLines(files[..i + 1], max) == AllLines(before, max)
        && Reports(files[..i + 1], max, skip) == Reports(before, max, skip)
  {
    hide AfterSkip, Texts, Failures, NonEmpty, Tokens;
    assert files[..i + 1][..i] == files[..i];
    if files[i].Readable? {
      var before, lines := AllLines(files[..i], max), NonEmpty(Tokens(files[i], max));
      AfterSkipSplit(before, lines, skip);
      LinesSplit(AfterSkip(before, skip), AfterSkip(lines, skip - |before|));
    }
  }

  // ---------------------------------------------------------------- what becomes of every line

  function ErrorsCount(reports: seq<Report>): nat {
    if reports == [] then 0 else ErrorsCount(reports[..|reports| - 1]) + reports[|reports| - 1].errorsCount
  }

  /** Every token that is not skipped is either sent or counted as an error of its file. */
  lemma {:induction false} SentOrReported(files: seq<File>, max: nat, skip: int)
    ensures |Sent(files, max, skip)| + ErrorsCount(Reports(files, max, skip)) == |AfterSkip(AllLines(files, max), skip)|
  {
    hide AfterSkip, Texts, Failures, NonEmpty, Tokens;
    if files == [] {
      NothingToSkip(skip);
      OneMoreLine([], Line("", false));
    } else {
      var n, f := |files| - 1, files[|files| - 1];
      SentOrReported(files[..n], max, skip);
      FileOneMore(files, n, max, skip);
      assert files[..n + 1] == files;
      if f.Readable? {
        var before, lines := AllLines(files[..n], max), NonEmpty(Tokens(f, max));
        AfterSkipSplit(before, lines, skip);
        TextOrFailure(AfterSkip(lines, skip - |before|));
      }
    }
  }

  lemma {:induction false} TextOrFailure(lines: seq<Line>)
    ensures |Texts(lines)| + Failures(lines) == |lines|
  {
    if lines != [] { TextOrFailure(lines[..|lines| - 1]); }
  }

  /** Neither line `i` nor one before it is too long for the buffer. */
  predicate Fits(lines: seq<string>, max: nat, i: nat) {
    i < |lines| && forall j :: 0 <= j <= i ==> |lines[j]| < max
  }

  /** Every line with text shows some of it before reading stops, and neither it nor a line before it is
      too long for the buffer. */
  predicate Delivered(f: File, max: nat)
    requires f.Readable?
  {
    var all, seen := RawLines(f.content), RawLines(Visible(f));
    forall i :: 0 <= i < |all| && Text(all[i]) != "" ==>
      Fits(seen, max, i) && Text(seen[i]) != ""
  }

  predicate AllDelivered(files: seq<File>, max: nat) {
    forall f :: f in files && f.Readable? ==> Delivered(f, max)
  }

  lemma {:induction false} LineEndIs(s: string, i: nat)
    requires i <= |s| && '\n' !in s[..i] && (i < |s| ==> s[i] == '\n')
    ensures LineEnd(s) == i
  {
    if i > 0 {
      assert s[..i] == [s[0]] + s[1..][..i - 1];
      LineEndIs(s[1..], i - 1);
    }
  }

  lemma SplitLines(s: string, i: nat)
    requires i <= |s| && s != [] && '\n' !in s[..i] && (i < |s| ==> s[i] == '\n')
    ensures RawLines(s) == if i == |s| then [s] else [s[..i]] + RawLines(s[i + 1..])
  {
    LineEndIs(s, i);
  }

  /** The first `p` characters end with a line. */
  predicate Ends(s: string, p: nat)
    requires p <= |s|
  {
    p == 0 || p == |s| || s[p - 1] == '\n'
  }

  /** `seen` are the first ones of `all`; the last one is perhaps cut short, unless it is `finished`. */
  predicate CutShort(seen: seq<string>, all: seq<string>, finished: bool) {
    && |seen| <= |all|
    && (forall i :: 0 <= i < |seen| ==> seen[i] <= all[i])
    && (forall i :: 0 <= i < |seen| && (finished || i < |seen| - 1) ==> seen[i] == all[i])
  }

  lemma CutShortLater(first: string, seen: seq<string>, all: seq<string>, finished: bool)
    requires CutShort(seen, all, finished)
    ensures CutShort([first] + seen, [first] + all, finished)
  {
  }

  lemma CutShortAtOnce(s: string, p: nat)
    requires 0 < p <= LineEnd(s)
    ensures CutShort(RawLines(s[..p]), RawLines(s), Ends(s, p))
  {
    hide RawLines;
    SplitLines(s, LineEnd(s));
    SplitLines(s[..p], p);
    assert s[p - 1] in s[..LineEnd(s)];
    assert p == |s| ==> s[..p] == s;
  }

  /** A prefix of a text has a prefix of its lines, the last one perhaps cut short. */
  lemma {:induction false} LinesOfPrefix(s: string, p: nat)
    requires p <= |s|
    ensures CutShort(RawLines(s[..p]), RawLines(s), Ends(s, p))
    decreases |s|
  {
    if p > 0 {
      hide RawLines, LineEnd, CutShort;
      var i := LineEnd(s);
      if p <= i {
        CutShortAtOnce(s, p);
      } else {
        assert s[..p][..i] == s[..i];
        assert s[..p][i + 1..] == s[i + 1..][..p - i - 1];
        SplitLines(s, i);
        SplitLines(s[..p], i);
        LinesOfPrefix(s[i + 1..], p - i - 1);
        CutShortLater(s[..i], RawLines(s[i + 1..][..p - i - 1]), RawLines(s[i + 1..]), Ends(s, p));
      }
    }
  }

  lemma TextOfPrefix(a: string, b: string)
    requires a <= b && Text(a) != ""
    ensures Text(b) != ""
  {
  }

  /** A token without an error is the line of the file at its place, whole. */
  lemma TokensAreLines(f: File, max: nat)
    requires f.Readable?
    ensures |Tokens(f, max)| <= |Written(f)|
    ensures forall i :: 0 <= i < |Tokens(f, max)| && !Tokens(f, max)[i].failed ==> Tokens(f, max)[i] == Written(f)[i]
  {
    hide RawLines, Text;
    assert f.content[..|f.content|] == f.content;
    LinesOfPrefix(f.content, |Visible(f)|);
    var seen := Visible(f);
    assert RawLines([]) == [] by { NoLines(); }
    assert f.breaksAt.Some? && !Ends(f.content, |seen|) ==> seen[|seen| - 1] != '\n';
  }

  lemma NoLines()
    ensures RawLines([]) == []
  {
  }

  /** Every non-empty line of `ys` has a non-empty counterpart in `xs`. */
  predicate Matched(xs: seq<Line>, ys: seq<Line>) {
    forall i :: 0 <= i < |ys| && ys[i].text != "" ==> i < |xs| && xs[i].text != ""
  }

  /** `xs` is no longer than `ys`, and its non-empty lines face non-empty ones. */
  predicate Facing(xs: seq<Line>, ys: seq<Line>) {
    |xs| <= |ys| && forall i :: 0 <= i < |xs| && xs[i].text != "" ==> ys[i].text != ""
  }

  lemma FacingBefore(xs: seq<Line>, ys: seq<Line>)
    requires ys != [] && Facing(xs, ys)
    ensures var n := |ys| - 1;
      if |xs| == |ys| then
        && Facing(xs[..n], ys[..n]) && (xs[n].text != "" ==> ys[n].text != "")
        && (Matched(xs, ys) <==> Matched(xs[..n], ys[..n]) && (ys[n].text != "" ==> xs[n].text != ""))
      else
        Facing(xs, ys[..n]) && (Matched(xs, ys) <==> Matched(xs, ys[..n]) && ys[n].text == "")
  {
    var n := |ys| - 1;
    assert forall i :: 0 <= i < n ==> ys[..n][i] == ys[i];
  }

  /** Then `xs` has at most as many non-empty lines as `ys`, and as many only if each one is matched. */
  lemma {:induction false} FewerLines(xs: seq<Line>, ys: seq<Line>)
    requires Facing(xs, ys)
    ensures |NonEmpty(xs)| <= |NonEmpty(ys)|
    ensures |NonEmpty(xs)| == |NonEmpty(ys)| <==> Matched(xs, ys)
    decreases |ys|
  {
    if ys != [] {
      hide NonEmpty, Matched;
      var n := |ys| - 1;
      FacingBefore(xs, ys);
      NonEmptyOneMore(ys, n);
      assert ys[..n + 1] == ys;
      if |xs| == |ys| {
        NonEmptyOneMore(xs, n);
        assert xs[..n + 1] == xs;
        FewerLines(xs[..n], ys[..n]);
      } else {
        FewerLines(xs, ys[..n]);
      }
    }
  }

  lemma TokensFaceLines(f: File, max: nat)
    requires f.Readable?
    ensures Facing(Tokens(f, max), Written(f))
  {
    hide Text, RawLines;
    var all, seen := RawLines(f.content), RawLines(Visible(f));
    assert f.content[..|f.content|] == f.content;
    LinesOfPrefix(f.content, |Visible(f)|);
    forall i | 0 <= i < |seen| && Text(seen[i]) != "" ensures Text(all[i]) != "" { TextOfPrefix(seen[i], all[i]); }
  }

  /** A file loses no line exactly when all its lines are delivered. */
  lemma DeliveredExactly(f: File, max: nat)
    requires f.Readable?
    ensures |NonEmpty(Tokens(f, max))| <= |NonEmpty(Written(f))|
    ensures |NonEmpty(Tokens(f, max))| == |NonEmpty(Written(f))| <==> Delivered(f, max)
  {
    hide Text, RawLines, NonEmpty;
    var all, seen := RawLines(f.content), RawLines(Visible(f));
    TokensFaceLines(f, max);
    var tokens, lines := Tokens(f, max), Written(f);
    FewerLines(tokens, lines);
    if Delivered(f, max) {
      forall i | 0 <= i < |lines| && lines[i].text != "" ensures i < |tokens| && tokens[i].text != "" {
        assert Text(all[i]) != "";
        FitsExactly(seen, max, i);
      }
    } else {
      var i :| 0 <= i < |all| && Text(all[i]) != "" && !(Fits(seen, max, i) && Text(seen[i]) != "");
      FitsExactly(seen, max, i);
      assert lines[i].text != "" && !(i < |tokens| && tokens[i].text != "");
    }
  }

  lemma FitsExactly(lines: seq<string>, max: nat, i: nat)
    ensures i < Fitting(lines, max) <==> Fits(lines, max, i)
  {
    var n := Fitting(lines, max);
    if n <= i < |lines| { assert |lines[n]| >= max; }
  }

  lemma {:induction false} LostLines(files: seq<File>, max: nat)
    ensures |AllLines(files, max)| <= |WrittenLines(files)|
    ensures |AllLines(files, max)| == |WrittenLines(files)| <==> AllDelivered(files, max)
  {
    hide Tokens, Written, Delivered, NonEmpty;
    if files != [] {
      var front, f := files[..|files| - 1], files[|files| - 1];
      LostLines(front, max);
      assert files == front + [f];
      if f.Readable? { DeliveredExactly(f, max); }
    }
  }

  /** Every line that is not skipped is sent or counted as an error exactly when every file delivers all
      its lines, or everything was to be skipped anyway.  Nothing else tells of a lost line. */
  lemma NothingLostExactly(files: seq<File>, max: nat, skip: int)
    ensures var accounted := |Sent(files, max, skip)| + ErrorsCount(Reports(files, max, skip));
      var due := |AfterSkip(WrittenLines(files), skip)|;
      accounted <= due && (accounted == due <==> AllDelivered(files, max) || |WrittenLines(files)| <= skip)
  {
    hide Sent, Reports, AllLines, WrittenLines, AllDelivered;
    SentOrReported(files, max, skip);
    LostLines(files, max);
  }

  predicate NoneTooLong(f: File, max: nat)
    requires f.Readable?
  {
    forall line :: line in RawLines(f.content) ==> |line| < max
  }

  /** No line with text comes with or after a line that is too long. */
  predicate NothingAfterTooLong(f: File, max: nat)
    requires f.Readable?
  {
    var all := RawLines(f.content);
    forall i, j :: 0 <= j <= i < |all| && |all[j]| >= max ==> Text(all[i]) == ""
  }

  /** A file that can be read to its end loses no line exactly when no line with text comes with or after
      one that fills the buffer; for a buffer of at least two bytes, when every line is shorter than it. */
  lemma WholeFile(f: File, max: nat)
    requires f.Readable? && f.breaksAt.None?
    ensures Delivered(f, max) <==> NothingAfterTooLong(f, max)
    ensures max >= 2 ==> (Delivered(f, max) <==> NoneTooLong(f, max))
    ensures NoneTooLong(f, max) ==> Tokens(f, max) == Written(f)
  {
    var all := RawLines(f.content);
    var n := Fitting(all, max);
    forall i: nat ensures i < n <==> Fits(all, max, i) { FitsExactly(all, max, i); }
    if n < |all| {
      assert |all[n]| >= max && all[n] in RawLines(f.content);
    } else {
      assert forall i :: 0 <= i < |all| ==> |all[i]| < max;
    }
  }

  // ---------------------------------------------------------------- what is sent are lines of the files

  /** `xs` can be found in `ys` in the same order; an item that carries an error stands for any line. */
  predicate Embeds(xs: seq<Line>, ys: seq<Line>) {
    xs == [] ||
    (ys != [] &&
     (Embeds(xs, ys[..|ys| - 1]) ||
      (Embeds(xs[..|xs| - 1], ys[..|ys| - 1]) && (xs[|xs| - 1].failed || xs[|xs| - 1] == ys[|ys| - 1]))))
  }

  predicate Subsequence(a: seq<string>, b: seq<string>) {
    a == [] ||
    (b != [] &&
     (Subsequence(a, b[..|b| - 1]) || (a[|a| - 1] == b[|b| - 1] && Subsequence(a[..|a| - 1], b[..|b| - 1]))))
  }

  lemma {:induction false} EmbedsAppended(a: seq<Line>, b: seq<Line>, c: seq<Line>, d: seq<Line>)
    requires Embeds(a, b) && Embeds(c, d)
    ensures Embeds(a + c, b + d)
    decreases |d|
  {
    if d == [] {
      assert a + c == a && b + d == b;
    } else {
      var d' := d[..|d| - 1];
      assert (b + d)[..|b + d| - 1] == b + d';
      if c == [] {
        EmbedsAppended(a, b, [], d');
        assert a + c == a == a + [];
      } else if Embeds(c, d') {
        EmbedsAppended(a, b, c, d');
      } else {
        EmbedsAppended(a, b, c[..|c| - 1], d');
        assert (a + c)[..|a + c| - 1] == a + c[..|c| - 1];
      }
    }
  }

  lemma {:induction false} EmbedsSkipped(xs: seq<Line>, ys: seq<Line>, k: nat)
    requires Embeds(xs, ys) && k <= |xs|
    ensures |xs| <= |ys| && Embeds(xs[k..], ys[k..])
    decreases |ys|
  {
    if xs != [] {
      var n, m := |ys| - 1, |xs| - 1;
      if Embeds(xs, ys[..n]) {
        EmbedsSkipped(xs, ys[..n], k);
        assert ys[k..][..|ys[k..]| - 1] == ys[..n][k..];
      } else if k <= m {
        EmbedsSkipped(xs[..m], ys[..n], k);
        assert ys[k..][..|ys[k..]| - 1] == ys[..n][k..] && xs[k..][..|xs[k..]| - 1] == xs[..m][k..];
      } else {
        EmbedsSkipped(xs[..m], ys[..n], 0);
      }
    }
  }

  lemma {:induction false} EmbeddedTexts(xs: seq<Line>, ys: seq<Line>)
    requires Embeds(xs, ys) && Failures(ys) == 0
    ensures Subsequence(Texts(xs), Texts(ys))
    decreases |ys|
  {
    if xs != [] {
      var n, m := |ys| - 1, |xs| - 1;
      OneMoreLine(ys[..n], ys[n]);
      OneMoreLine(xs[..m], xs[m]);
      assert ys == ys[..n] + [ys[n]] && xs == xs[..m] + [xs[m]];
      if Embeds(xs, ys[..n]) { EmbeddedTexts(xs, ys[..n]); } else { EmbeddedTexts(xs[..m], ys[..n]); }
      SubsequenceMore(Texts(xs), Texts(ys[..n]), ys[n].text);
      SubsequenceMore(Texts(xs[..m]), Texts(ys[..n]), ys[n].text);
    } else {
      OneMoreLine([], Line("", false));
    }
  }

  lemma SubsequenceMore(a: seq<string>, b: seq<string>, x: string)
    ensures Subsequence(a, b) ==> Subsequence(a, b + [x]) && Subsequence(a + [x], b + [x])
  {
    assert (b + [x])[..|b|] == b && (a + [x])[..|a|] == a;
  }

  /** As many lines without an error as there are to be found are those lines. */
  lemma {:induction false} EmbedsAll(xs: seq<Line>, ys: seq<Line>)
    requires Embeds(xs, ys) && |xs| == |ys| && Failures(xs) == 0
    ensures xs == ys
  {
    if xs != [] {
      var n := |xs| - 1;
      if Embeds(xs, ys[..n]) {
        EmbedsSkipped(xs, ys[..n], 0);
      } else {
        EmbedsAll(xs[..n], ys[..n]);
      }
    }
  }

  /** Tokens and lines of a file that face each other. */
  lemma {:induction false} FacingEmbeds(xs: seq<Line>, ys: seq<Line>)
    requires Facing(xs, ys) && forall i :: 0 <= i < |xs| && !xs[i].failed ==> xs[i] == ys[i]
    ensures Embeds(NonEmpty(xs), NonEmpty(ys))
    decreases |ys|
  {
    if xs == [] {
      NothingToSkip(0);
    } else {
      hide NonEmpty, Embeds, Facing;
      var n := |ys| - 1;
      FacingBefore(xs, ys);
      NonEmptyOneMore(ys, n);
      assert ys[..n + 1] == ys;
      if |xs| == |ys| {
        NonEmptyOneMore(xs, n);
        assert xs[..n + 1] == xs;
        FacingEmbeds(xs[..n], ys[..n]);
        EmbedsMore(NonEmpty(xs[..n]), NonEmpty(ys[..n]), xs[n], ys[n]);
      } else {
        FacingEmbeds(xs, ys[..n]);
        EmbedsMore(NonEmpty(xs), NonEmpty(ys[..n]), ys[n], ys[n]);
      }
    }
  }

  lemma EmbedsMore(xs: seq<Line>, ys: seq<Line>, x: Line, y: Line)
    requires Embeds(xs, ys)
    ensures Embeds(xs, ys + [y]) && (x.failed || x == y ==> Embeds(xs + [x], ys + [y]))
  {
    assert (ys + [y])[..|ys|] == ys && (xs + [x])[..|xs|] == xs;
  }

  lemma {:induction false} TokensEmbed(files: seq<File>, max: nat)
    ensures Embeds(AllLines(files, max), WrittenLines(files)) && Failures(WrittenLines(files)) == 0
  {
    if files != [] {
      hide AllLines, WrittenLines, Tokens, Written, NonEmpty, Embeds, Failures, Facing;
      var front, f := files[..|files| - 1], files[|files| - 1];
      TokensEmbed(front, max);
      LinesOfFiles(files, max);
      if f.Readable? {
        FileEmbeds(f, max);
        EmbedsAppended(AllLines(front, max), WrittenLines(front), NonEmpty(Tokens(f, max)), NonEmpty(Written(f)));
        LinesSplit(WrittenLines(front), NonEmpty(Written(f)));
      }
    }
  }

  lemma LinesOfFiles(files: seq<File>, max: nat)
    requires files != []
    ensures var front, f := files[..|files| - 1], files[|files| - 1];
      if f.Readable?
      then && AllLines(files, max) == AllLines(front, max) + NonEmpty(Tokens(f, max))
           && WrittenLines(files) == WrittenLines(front) + NonEmpty(Written(f))
      else AllLines(files, max) == AllLines(front, max) && WrittenLines(files) == WrittenLines(front)
  {
    hide Tokens, Written, NonEmpty;
  }

  lemma FileEmbeds(f: File, max: nat)
    requires f.Readable?
    ensures Embeds(NonEmpty(Tokens(f, max)), NonEmpty(Written(f))) && Failures(NonEmpty(Written(f))) == 0
  {
    hide NonEmpty, Embeds, Failures, RawLines, Text;
    TokensAreLines(f, max);
    TokensFaceLines(f, max);
    FacingEmbeds(Tokens(f, max), Written(f));
    NoFailures(Written(f));
  }

  lemma {:induction false} NoFailures(lines: seq<Line>)
    requires forall i :: 0 <= i < |lines| ==> !lines[i].failed
    ensures Failures(NonEmpty(lines)) == 0
  {
    OneMoreLine([], Line("", false));
    if lines != [] {
      hide NonEmpty, Failures;
      var n := |lines| - 1;
      NoFailures(lines[..n]);
      NonEmptyOneMore(lines, n);
      assert lines[..n + 1] == lines;
      OneMoreLine(NonEmpty(lines[..n]), lines[n]);
    }
  }

  lemma DueHasNoFailures(lines: seq<Line>, skip: int)
    requires Failures(lines) == 0
    ensures Failures(AfterSkip(lines, skip)) == 0
  {
    if 0 < skip < |lines| {
      LinesSplit(lines[..skip], lines[skip..]);
      assert lines[..skip] + lines[skip..] == lines;
    }
  }

  lemma DueEmbeds(tokens: seq<Line>, lines: seq<Line>, skip: int)
    requires Embeds(tokens, lines)
    ensures Embeds(AfterSkip(tokens, skip), AfterSkip(lines, skip))
  {
    if 0 < skip < |tokens| { EmbedsSkipped(tokens, lines, skip); }
  }

  /** What is sent are lines that are due, whole and in order: nothing is cut short, invented or repeated.
      All of them are sent exactly when no line is lost and none counted as an error. */
  lemma SentAreLines(files: seq<File>, max: nat, skip: int)
    ensures var due := Texts(AfterSkip(WrittenLines(files), skip));
      && Subsequence(Sent(files, max, skip), due)
      && (Sent(files, max, skip) == due <==>
           && ErrorsCount(Reports(files, max, skip)) == 0
           && (AllDelivered(files, max) || |WrittenLines(files)| <= skip))
  {
    hide Reports, AllLines, WrittenLines, AllDelivered, Embeds, Texts, Failures, Subsequence, ErrorsCount, AfterSkip;
    TokensEmbed(files, max);
    var tokens, lines := AllLines(files, max), WrittenLines(files);
    var xs, ys := AfterSkip(tokens, skip), AfterSkip(lines, skip);
    DueEmbeds(tokens, lines, skip);
    DueHasNoFailures(lines, skip);
    EmbeddedTexts(xs, ys);
    NothingLostExactly(files, max, skip);
    SentOrReported(files, max, skip);
    TextOrFailure(xs);
    TextOrFailure(ys);
    if |xs| == |ys| && Failures(xs) == 0 { EmbedsAll(xs, ys); }
  }

  predicate AllWhole(files: seq<File>, max: nat) {
    forall f :: f in files && f.Readable? ==> f.breaksAt.None? && NoneTooLong(f, max)
  }

  /** If every readable file can be read to its end and has only lines shorter than the buffer, exactly the
      lines that are not skipped are sent, and no error is counted. */
  lemma WholeFilesAreSent(files: seq<File>, max: nat, skip: int)
    requires AllWhole(files, max)
    ensures Sent(files, max, skip) == Texts(AfterSkip(WrittenLines(files), skip))
    ensures ErrorsCount(Reports(files, max, skip)) == 0
  {
    hide Texts, AfterSkip, ErrorsCount, Reports, WrittenLines, AllLines, AllWhole, Failures;
    WholeFilesAreRead(files, max);
    TokensEmbed(files, max);
    DueHasNoFailures(WrittenLines(files), skip);
    TextOrFailure(AfterSkip(WrittenLines(files), skip));
    SentOrReported(files, max, skip);
  }

  lemma {:induction false} WholeFilesAreRead(files: seq<File>, max: nat)
    requires AllWhole(files, max)
    ensures AllLines(files, max) == WrittenLines(files)
  {
    hide AllLines, WrittenLines, Tokens, Written, NonEmpty, NoneTooLong, NothingAfterTooLong, Delivered;
    if files == [] {
      NoFiles(max);
    } else {
      var front, f := files[..|files| - 1], files[|files| - 1];
      LinesOfFiles(files, max);
      assert files == front + [f];
      WholeFilesAreRead(front, max);
      if f.Readable? { WholeFile(f, max); }
    }
  }

  lemma NoFiles(max: nat)
    ensures AllLines([], max) == WrittenLines([]) == []
  {
  }

  const LONG_LINE := Readable("aaaa\nb\n", None)

  /** One line of four bytes in a buffer of four: it and the line after it vanish, and no error is counted. */
  lemma LongLineVanishes()
    ensures Texts(WrittenLines([LONG_LINE])) == ["aaaa", "b"]
    ensures Sent([LONG_LINE], 4, 0) == [] && Reports([LONG_LINE], 4, 0) == [Report(0, 0)]
  {
    hide Texts, RawLines, NonEmpty, Tokens, Written;
    LongLineIsRead();
    NothingToSkip(0);
    OneFile(LONG_LINE, 4);
    BothTexts(Line("aaaa", false), Line("b", false));
  }

  lemma BothTexts(a: Line, b: Line)
    requires !a.failed && !b.failed
    ensures Texts([a] + [b]) == [a.text, b.text] && Texts([]) == [] && Failures([]) == 0
  {
    hide Texts, Failures;
    OneMoreLine([], a);
    OneMoreLine([a], b);
    assert [] + [a] == [a];
  }

  lemma OneFile(f: File, max: nat)
    requires f.Readable?
    ensures AllLines([f], max) == NonEmpty(Tokens(f, max)) && WrittenLines([f]) == NonEmpty(Written(f))
    ensures Reports([f], max, 0) == [ReportOf(Tokens(f, max), 0)]
  {
    hide NonEmpty, Tokens, Written;
    assert [f][..0] == [];
  }

  lemma LongLineIsRead()
    ensures Tokens(LONG_LINE, 4) == []
    ensures NonEmpty(Written(LONG_LINE)) == [Line("aaaa", false)] + [Line("b", false)]
  {
    hide NonEmpty, LineEnd, RawLines;
    LongLineSplit();
    var lines := [Line("aaaa", false), Line("b", false)];
    assert Written(LONG_LINE) == lines;
    BothNonEmpty(lines[0], lines[1]);
    assert lines == [lines[0], lines[1]];
  }

  lemma BothNonEmpty(a: Line, b: Line)
    requires a.text != "" && b.text != ""
    ensures NonEmpty([a, b]) == [a] + [b]
  {
    hide NonEmpty;
    NothingToSkip(0);
    NonEmptyOneMore([a, b], 0);
    NonEmptyOneMore([a, b], 1);
    assert [a, b][..2] == [a, b] && [a, b][..0] == [];
  }

  lemma LongLineSplit()
    ensures RawLines(LONG_LINE.content) == ["aaaa", "b"]
  {
    hide LineEnd;
    var s := LONG_LINE.content;
    LineEndIs(s, 4);
    LineEndIs("b\n", 1);
    assert s[..4] == "aaaa" && s[5..] == "b\n";
    assert "b\n"[..1] == "b" && "b\n"[2..] == "";
  }
}
