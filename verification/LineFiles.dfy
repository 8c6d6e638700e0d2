/** Files written row by row: what the scanner sends and reports of them, told from the rows. */
module LineFiles {
  import opened Wrappers
  import opened LineScanner

  /** A row of a file, perhaps with a carriage return at its end. */
  datatype Row = Row(text: string, cr: bool)

  /** A file that can be opened has rows, the last of which is `open` when no newline follows it.  With
      `unread` reading breaks off after the rows, before that rest. */
  datatype Doc = Unreadable | Doc(rows: seq<Row>, open: bool, unread: Option<string>)

  function Spelled(row: Row): string {
    if row.cr then row.text + "\r" else row.text
  }

  function Content(rows: seq<Row>, open: bool): string {
    if rows == [] then ""
    else Spelled(rows[0]) + (if open && |rows| == 1 then "" else "\n") + Content(rows[1..], open)
  }

  predicate IsRow(row: Row) {
    '\n' !in row.text && (row.cr || row.text == "" || row.text[|row.text| - 1] != '\r')
  }

  predicate AreRows(rows: seq<Row>, open: bool) {
    && (forall row :: row in rows ==> IsRow(row))
    && (open ==> rows != [] && Spelled(rows[|rows| - 1]) != "")
  }

  predicate Holds(f: File, d: Doc) {
    match d
    case Unreadable => !f.Readable?
    case Doc(rows, open, None) => AreRows(rows, open) && f == Readable(Content(rows, open), None)
    case Doc(rows, open, Some(rest)) =>
      && AreRows(rows, open) && f.Readable? && f.content == Content(rows, open) + rest && f.breaksAt.Some?
      && if rest == "" then |f.content| <= f.breaksAt.value else |f.content| - |rest| == f.breaksAt.value
  }

  predicate AllHold(files: seq<File>, docs: seq<Doc>) {
    |files| == |docs| && forall i :: 0 <= i < |files| ==> Holds(files[i], docs[i])
  }

  // ---------------------------------------------------------------- what the scanner makes of the rows

  /** The leading rows that leave room for their newline in a buffer of `max` bytes. */
  function Reached(rows: seq<Row>, max: nat): seq<Row> {
    if rows == [] || |Spelled(rows[0])| >= max then [] else [rows[0]] + Reached(rows[1..], max)
  }

  /** The rows with text; a row at whose end reading breaks off is a failed line. */
  function Shown(rows: seq<Row>, broken: bool): seq<Line> {
    if rows == [] then []
    else
      var failed := broken && |rows| == 1;
      (if rows[0].text == "" then [] else [Line(rows[0].text, failed)]) + Shown(rows[1..], broken)
  }

  function ShownOf(d: Doc, max: nat): seq<Line> {
    if d.Unreadable? then []
    else
      var reached := Reached(d.rows, max);
      Shown(reached, d.unread.Some? && d.open && |reached| == |d.rows|)
  }

  function ShownOfAll(docs: seq<Doc>, max: nat): seq<Line> {
    if docs == [] then [] else ShownOf(docs[0], max) + ShownOfAll(docs[1..], max)
  }

  function Dropped(lines: seq<Line>, skip: int): seq<Line> {
    lines[if skip < 0 then 0 else if skip > |lines| then |lines| else skip..]
  }

  function Whole(lines: seq<Line>): seq<string> {
    if lines == [] then []
    else (if lines[0].failed then [] else [lines[0].text]) + Whole(lines[1..])
  }

  function Failed(lines: seq<Line>): nat {
    if lines == [] then 0 else (if lines[0].failed then 1 else 0) + Failed(lines[1..])
  }

  /** The report of a file that can be read: its rows with text and those among them that failed, if they
      were not skipped.  `skip` rows are still to be skipped. */
  function ReportedOf(d: Doc, max: nat, skip: int): seq<Report> {
    if d.Unreadable? then [] else [Report(|ShownOf(d, max)|, Failed(Dropped(ShownOf(d, max), skip)))]
  }

  function Reported(docs: seq<Doc>, max: nat, skip: int): seq<Report> {
    if docs == [] then []
    else ReportedOf(docs[0], max, skip) + Reported(docs[1..], max, skip - |ShownOf(docs[0], max)|)
  }

  // ---------------------------------------------------------------- rows are lines

  function Spellings(rows: seq<Row>): seq<string> {
    seq(|rows|, i requires 0 <= i < |rows| => Spelled(rows[i]))
  }

  /** The rows are the pieces between the newlines. */
  lemma {:induction false} RowsAreLines(rows: seq<Row>, open: bool)
    requires AreRows(rows, open)
    ensures RawLines(Content(rows, open)) == Spellings(rows)
  {
    hide RawLines, IsRow, LineEnd, Spelled, Content;
    if rows == [] {
      NoRows(open);
    } else {
      var s, first := Content(rows, open), Spelled(rows[0]);
      FirstRow(rows, open);
      SplitLines(s, |first|);
      LaterRows(rows);
      if |first| < |s| { RowsAreLines(rows[1..], open); }
    }
  }

  lemma NoRows(open: bool)
    ensures Content([], open) == "" && RawLines("") == [] && Spellings([]) == []
  {
  }

  lemma LaterRows(rows: seq<Row>)
    requires rows != []
    ensures Spellings(rows) == [Spelled(rows[0])] + Spellings(rows[1..])
  {
  }

  lemma FirstRow(rows: seq<Row>, open: bool)
    requires rows != [] && AreRows(rows, open)
    ensures var s, first := Content(rows, open), Spelled(rows[0]);
      && s != [] && |first| <= |s| && '\n' !in s[..|first|] && s[..|first|] == first
      && if open && |rows| == 1 then s == first
         else |first| < |s| && s[|first|] == '\n' && s[|first| + 1..] == Content(rows[1..], open)
  {
    RowHasNoNewline(rows[0]);
    hide Spelled, IsRow;
    if !(open && |rows| == 1) { FirstPiece(Spelled(rows[0]), Content(rows[1..], open)); }
  }

  lemma RowHasNoNewline(row: Row)
    requires IsRow(row)
    ensures '\n' !in Spelled(row)
  {
  }

  lemma FirstPiece(first: string, rest: string)
    requires '\n' !in first
    ensures var s := first + "\n" + rest;
      && |first| < |s| && s[..|first|] == first && '\n' !in s[..|first|]
      && s[|first|] == '\n' && s[|first| + 1..] == rest
  {
  }

  /** A carriage return at the end of a row does not belong to its text. */
  lemma RowText(row: Row)
    requires IsRow(row)
    ensures Text(Spelled(row)) == row.text
  {
  }

  /** Exactly the rows are found in the file, as they were written. */
  lemma WrittenBack(rows: seq<Row>, open: bool)
    requires AreRows(rows, open)
    ensures var f := Readable(Content(rows, open), None);
      |Written(f)| == |rows| && forall i :: 0 <= i < |rows| ==> Written(f)[i] == Line(rows[i].text, false)
  {
    hide Content, RawLines, Text, IsRow;
    RowsAreLines(rows, open);
    forall i | 0 <= i < |rows| ensures Text(Spelled(rows[i])) == rows[i].text { RowText(rows[i]); }
  }

  /** A line is spelled by one row. */
  lemma RowOf(line: string) returns (row: Row)
    requires '\n' !in line
    ensures IsRow(row) && Spelled(row) == line
  {
    var n := |line|;
    if n > 0 && line[n - 1] == '\r' { row := Row(line[..n - 1], true); } else { row := Row(line, false); }
  }

  lemma RowBefore(row: Row, rows: seq<Row>, open: bool)
    requires IsRow(row) && AreRows(rows, open)
    ensures AreRows([row] + rows, open) && Content([row] + rows, open) == Spelled(row) + "\n" + Content(rows, open)
    ensures Spelled(row) != "" ==> AreRows([row], true) && Content([row], true) == Spelled(row)
  {
    hide IsRow, Spelled;
    assert ([row] + rows)[1..] == rows && [row][1..] == [];
  }

  /** Every text can be written as rows, so what is said of rows is said of every file. */
  lemma {:induction false} EveryText(s: string) returns (rows: seq<Row>, open: bool)
    ensures AreRows(rows, open) && Content(rows, open) == s
    decreases |s|
  {
    rows, open := [], false;
    if s != [] {
      hide IsRow, Spelled, AreRows, Content, LineEnd;
      var i := LineEnd(s);
      var row := RowOf(s[..i]);
      if i < |s| {
        rows, open := EveryText(s[i + 1..]);
        RowBefore(row, rows, open);
        assert s == s[..i] + "\n" + s[i + 1..];
        rows := [row] + rows;
      } else {
        NoRowsYet();
        RowBefore(row, [], false);
        rows, open := [row], true;
      }
    } else {
      NoRowsYet();
    }
  }

  lemma NoRowsYet()
    ensures AreRows([], false) && Content([], false) == ""
  {
  }

  lemma EveryFile(f: File) returns (d: Doc)
    ensures Holds(f, d)
  {
    if !f.Readable? {
      d := Unreadable;
    } else {
      var seen := Visible(f);
      var rows, open := EveryText(seen);
      d := Doc(rows, open, if f.breaksAt.Some? then Some(f.content[|seen|..]) else None);
      assert f.content == seen + f.content[|seen|..];
    }
  }

  // ---------------------------------------------------------------- what is sent and reported

  lemma {:induction false} ReachedRows(rows: seq<Row>, max: nat)
    ensures var n := Fitting(Spellings(rows), max); n <= |rows| && Reached(rows, max) == rows[..n]
  {
    if rows != [] {
      LaterRows(rows);
      ReachedRows(rows[1..], max);
      assert Spellings(rows)[1..] == Spellings(rows[1..]);
    }
  }

  /** Only an open row keeps the content from ending in a newline. */
  lemma {:induction false} LastCharacter(rows: seq<Row>, open: bool)
    requires rows != [] && AreRows(rows, open)
    ensures var s := Content(rows, open); s != [] && (s[|s| - 1] == '\n' <==> !open)
  {
    hide IsRow;
    FirstRow(rows, open);
    var s, first := Content(rows, open), Spelled(rows[0]);
    if |rows| > 1 {
      LastCharacter(rows[1..], open);
      assert s[|s| - 1] == s[|first| + 1..][|s| - |first| - 2];
    } else if open {
      assert s[|s| - 1] in s[..|first|];
    }
  }

  lemma DocTokens(f: File, d: Doc, max: nat)
    requires Holds(f, d) && d.Doc?
    ensures f.Readable? && |Tokens(f, max)| == |Reached(d.rows, max)| <= |d.rows|
    ensures forall i :: 0 <= i < |Tokens(f, max)| ==>
      Tokens(f, max)[i] == Line(d.rows[i].text, d.unread.Some? && d.open && i == |d.rows| - 1)
    ensures Reached(d.rows, max) <= d.rows
  {
    hide Content, RawLines, Text, IsRow, Spelled, Reached, Fitting;
    assert Visible(f) == Content(d.rows, d.open);
    RowsAreLines(d.rows, d.open);
    ReachedRows(d.rows, max);
    if d.rows != [] { LastCharacter(d.rows, d.open); }
    forall i | 0 <= i < |d.rows| ensures Text(Spelled(d.rows[i])) == d.rows[i].text { RowText(d.rows[i]); }
  }

  lemma {:induction false} NonEmptySplit(a: seq<Line>, b: seq<Line>)
    ensures NonEmpty(a + b) == NonEmpty(a) + NonEmpty(b)
  {
    if b == [] {
      assert a + b == a;
    } else {
      var n := |b| - 1;
      NonEmptySplit(a, b[..n]);
      assert (a + b)[..|a + b| - 1] == a + b[..n];
    }
  }

  lemma {:induction false} ShownLines(lines: seq<Line>, rows: seq<Row>, broken: bool)
    requires |lines| == |rows|
    requires forall i :: 0 <= i < |rows| ==> lines[i] == Line(rows[i].text, broken && i == |rows| - 1)
    ensures NonEmpty(lines) == Shown(rows, broken)
  {
    if rows != [] {
      ShownLines(lines[1..], rows[1..], broken);
      NonEmptySplit(lines[..1], lines[1..]);
      assert lines == lines[..1] + lines[1..] && lines[..1][..0] == [];
    }
  }

  lemma DocIsShown(f: File, d: Doc, max: nat)
    requires Holds(f, d) && f.Readable?
    ensures NonEmpty(Tokens(f, max)) == ShownOf(d, max)
  {
    hide Tokens, NonEmpty, Shown, Reached;
    DocTokens(f, d, max);
    var reached := Reached(d.rows, max);
    ShownLines(Tokens(f, max), reached, d.unread.Some? && d.open && |reached| == |d.rows|);
  }

  lemma {:induction false} WholeAndFailed(lines: seq<Line>)
    ensures Texts(lines) == Whole(lines) && Failures(lines) == Failed(lines)
  {
    if lines == [] {
      OneMoreLine([], Line("", false));
    } else {
      WholeAndFailed(lines[1..]);
      LinesSplit(lines[..1], lines[1..]);
      OneMoreLine([], lines[0]);
      assert lines == lines[..1] + lines[1..] && [] + [lines[0]] == lines[..1];
    }
  }

  lemma {:induction false} OneMoreShown(docs: seq<Doc>, d: Doc, max: nat)
    ensures ShownOfAll(docs + [d], max) == ShownOfAll(docs, max) + ShownOf(d, max)
  {
    hide ShownOf;
    if docs == [] {
      assert [] + [d] == [d] && [d][1..] == [];
    } else {
      OneMoreShown(docs[1..], d, max);
      assert (docs + [d])[1..] == docs[1..] + [d];
    }
  }

  lemma {:induction false} OneMoreReported(docs: seq<Doc>, d: Doc, max: nat, skip: int)
    ensures Reported(docs + [d], max, skip) ==
      Reported(docs, max, skip) + ReportedOf(d, max, skip - |ShownOfAll(docs, max)|)
  {
    hide ShownOf, ReportedOf;
    if docs == [] {
      assert [] + [d] == [d] && [d][1..] == [];
    } else {
      OneMoreReported(docs[1..], d, max, skip - |ShownOf(docs[0], max)|);
      assert (docs + [d])[1..] == docs[1..] + [d];
    }
  }

  lemma {:induction false} LinesAreShown(files: seq<File>, docs: seq<Doc>, max: nat, skip: int)
    requires AllHold(files, docs)
    ensures AllLines(files, max) == ShownOfAll(docs, max) && Reports(files, max, skip) == Reported(docs, max, skip)
  {
    hide AllLines, ShownOfAll, Reports, Reported, ShownOf, ReportedOf, Holds;
    if files == [] {
      NoDocs(max, skip);
    } else {
      var n := |files| - 1;
      var f, d := files[n], docs[n];
      LinesAreShown(files[..n], docs[..n], max, skip);
      OneMoreShown(docs[..n], d, max);
      OneMoreReported(docs[..n], d, max, skip);
      assert docs == docs[..n] + [d];
      LastFile(files, d, max, skip);
    }
  }

  lemma NoDocs(max: nat, skip: int)
    ensures AllLines([], max) == ShownOfAll([], max) == [] && Reports([], max, skip) == Reported([], max, skip) == []
  {
  }

  lemma LastFile(files: seq<File>, d: Doc, max: nat, skip: int)
    requires files != [] && Holds(files[|files| - 1], d)
    ensures var front, shown := files[..|files| - 1], ShownOf(d, max);
      && AllLines(files, max) == AllLines(front, max) + shown
      && Reports(files, max, skip) == Reports(front, max, skip) + ReportedOf(d, max, skip - |AllLines(front, max)|)
  {
    hide Tokens, NonEmpty, AfterSkip, Failures, Failed, Texts, Dropped;
    hide Sent, AllLines, Reports, AreRows, Content, Shown, Reached;
    var n := |files| - 1;
    var f, front := files[n], files[..n];
    assert files[..n + 1] == files;
    FileOneMore(files, n, max, skip);
    LinesOfFiles(files, max);
    if f.Readable? {
      DocIsShown(f, d, max);
      var left := skip - |AllLines(front, max)|;
      DroppedIs(ShownOf(d, max), left);
      WholeAndFailed(Dropped(ShownOf(d, max), left));
    }
  }

  lemma DroppedIs(lines: seq<Line>, skip: int)
    ensures AfterSkip(lines, skip) == Dropped(lines, skip)
  {
  }

  /** What is sent are the texts of the rows that are shown, without the first `skip` of them and without
      failed ones, and every file that can be read reports its rows. */
  lemma RowsAreSent(files: seq<File>, docs: seq<Doc>, max: nat, skip: int)
    requires AllHold(files, docs)
    ensures Sent(files, max, skip) == Whole(Dropped(ShownOfAll(docs, max), skip))
    ensures Reports(files, max, skip) == Reported(docs, max, skip)
  {
    hide AllHold, AllLines, ShownOfAll, Reports, Reported, AfterSkip, Dropped, Texts, Whole, Failures, Failed;
    LinesAreShown(files, docs, max, skip);
    DroppedIs(ShownOfAll(docs, max), skip);
    WholeAndFailed(Dropped(ShownOfAll(docs, max), skip));
  }

  // ---------------------------------------------------------------- files that lose nothing

  /** The texts of the rows, without empty ones. */
  function RowTexts(rows: seq<Row>): seq<string> {
    if rows == [] then []
    else (if rows[0].text == "" then [] else [rows[0].text]) + RowTexts(rows[1..])
  }

  function AllTexts(docs: seq<Doc>): seq<string> {
    if docs == [] then []
    else (if docs[0].Unreadable? then [] else RowTexts(docs[0].rows)) + AllTexts(docs[1..])
  }

  /** Reading does not break off, and every row leaves room for its newline. */
  predicate Short(docs: seq<Doc>, max: nat) {
    forall d :: d in docs && d.Doc? ==> d.unread.None? && forall row :: row in d.rows ==> |Spelled(row)| < max
  }

  predicate Carries(lines: seq<Line>, texts: seq<string>) {
    |lines| == |texts| && forall i :: 0 <= i < |texts| ==> lines[i] == Line(texts[i], false)
  }

  lemma {:induction false} WholeOf(lines: seq<Line>, texts: seq<string>)
    requires Carries(lines, texts)
    ensures Whole(lines) == texts
  {
    if lines != [] { WholeOf(lines[1..], texts[1..]); }
  }

  lemma {:induction false} ShortRows(rows: seq<Row>, max: nat)
    requires forall row :: row in rows ==> |Spelled(row)| < max
    ensures Reached(rows, max) == rows && Carries(Shown(rows, false), RowTexts(rows))
  {
    if rows != [] { ShortRows(rows[1..], max); }
  }

  lemma {:induction false} ShortDocs(docs: seq<Doc>, max: nat)
    requires Short(docs, max)
    ensures Carries(ShownOfAll(docs, max), AllTexts(docs))
  {
    if docs != [] {
      ShortDocs(docs[1..], max);
      if docs[0].Doc? { ShortRows(docs[0].rows, max); }
    }
  }

  /** Then exactly the texts of the rows after the first `skip` ones are sent. */
  lemma ShortRowsAreSent(files: seq<File>, docs: seq<Doc>, max: nat, skip: int)
    requires AllHold(files, docs) && Short(docs, max)
    ensures var texts := AllTexts(docs);
      Sent(files, max, skip) == if skip <= 0 then texts else if skip < |texts| then texts[skip..] else []
  {
    hide AllHold, Sent, ShownOfAll, AllTexts, Short, Whole;
    RowsAreSent(files, docs, max, skip);
    ShortDocs(docs, max);
    var texts := AllTexts(docs);
    var left := texts[if skip < 0 then 0 else if skip > |texts| then |texts| else skip..];
    WholeOf(Dropped(ShownOfAll(docs, max), skip), left);
  }
}
