/** Which part of a collector's report survives when its output is cut at the size limit and marked. */
module TruncatedReports {
  import opened Options
  import opened Text
  import opened CollectorTsv
  import opened CollectorRoundTrip
  import opened TruncatedText
  import Truncation

  const NOTE := "[output truncated]"

  // ---------------------------------------------------------------- where a cut falls

  /** `columns` are the columns of a row up to column `t`, of which `c` characters are left. */
  function CutRow(row: Columns, t: nat, c: nat): Columns
    requires t < |row| && c <= |row[t]|
  {
    row[..t] + [row[t][..c]]
  }

  lemma {:induction false} RowCut(row: Columns, j: nat) returns (t: nat, c: nat)
    requires |row| >= 1 && j <= |Join(row, '\t')|
    ensures t < |row| && c <= |row[t]| && Join(row, '\t')[..j] == Join(CutRow(row, t, c), '\t')
  {
    if |row| == 1 || j <= |row[0]| {
      t, c := 0, j;
      assert CutRow(row, 0, j) == [row[0][..j]];
    } else {
      var rest := Join(row[1..], '\t');
      t, c := RowCut(row[1..], j - |row[0]| - 1);
      assert Join(row, '\t')[..j] == row[0] + "\t" + rest[..j - |row[0]| - 1];
      assert CutRow(row, t + 1, c)[0] == row[0] && CutRow(row, t + 1, c)[1..] == CutRow(row[1..], t, c);
      t := t + 1;
    }
  }

  lemma {:induction false} TextCut(lines: seq<string>, end: nat) returns (k: nat, j: nat)
    requires end < |Terminated(lines)|
    ensures k < |lines| && j <= |lines[k]| && Terminated(lines)[..end] == Terminated(lines[..k]) + lines[k][..j]
  {
    if end <= |lines[0]| {
      k, j := 0, end;
      assert Terminated(lines)[..end] == lines[0][..end];
      assert Terminated(lines[..0]) == "" && "" + lines[0][..end] == lines[0][..end];
    } else {
      var rest := Terminated(lines[1..]);
      k, j := TextCut(lines[1..], end - |lines[0]| - 1);
      assert Terminated(lines)[..end] == lines[0] + "\n" + rest[..end - |lines[0]| - 1];
      assert lines[..k + 1][0] == lines[0] && lines[..k + 1][1..] == lines[1..][..k];
      k := k + 1;
    }
  }

  // ---------------------------------------------------------------- how a cut row reads

  lemma {:induction false} TrimLineEndAfter(a: string, b: string)
    requires a == "" || a[|a| - 1] !in {'\r', '\n'}
    ensures TrimLineEnd(a + b) == a + TrimLineEnd(b)
  {
    if b == "" {
      assert a + b == a;
    } else if b[|b| - 1] in {'\r', '\n'} {
      assert (a + b)[..|a + b| - 1] == a + b[..|b| - 1];
      TrimLineEndAfter(a, b[..|b| - 1]);
    }
  }

  /** The last column of a cut row loses what looks like a line ending. */
  function Stripped(row: Columns): Columns
    requires |row| >= 1
  {
    row[..|row| - 1] + [TrimLineEnd(row[|row| - 1])]
  }

  lemma StrippedSplits(row: Columns)
    requires |row| >= 1 && forall column :: column in row ==> Lacks(column, '\t')
    ensures Split(TrimLineEnd(Join(row, '\t')), '\t') == Stripped(row)
  {
    StrippedJoins(row);
    StrippedLacks(row);
    SplitJoin(Stripped(row), '\t');
    hide *;
  }

  lemma StrippedJoins(row: Columns)
    requires |row| >= 1
    ensures TrimLineEnd(Join(row, '\t')) == Join(Stripped(row), '\t')
  {
    hide *;
    StrippedParts(row);
    StrippedJoinsAt(row[..|row| - 1], row[|row| - 1]);
  }

  lemma StrippedParts(row: Columns)
    requires |row| >= 1
    ensures row == row[..|row| - 1] + [row[|row| - 1]]
    ensures Stripped(row) == row[..|row| - 1] + [TrimLineEnd(row[|row| - 1])]
  {
  }

  lemma StrippedJoinsAt(front: Columns, last: string)
    ensures TrimLineEnd(Join(front + [last], '\t')) == Join(front + [TrimLineEnd(last)], '\t')
  {
    hide Join, TrimLineEnd;
    if front == [] {
      JoinOne(last);
      JoinOne(TrimLineEnd(last));
      assert front + [last] == [last] && front + [TrimLineEnd(last)] == [TrimLineEnd(last)];
    } else {
      var head := Join(front, '\t') + "\t";
      JoinSnoc(front, last);
      JoinSnoc(front, TrimLineEnd(last));
      TrimLineEndAfter(head, last);
    }
  }

  lemma JoinOne(column: string)
    ensures Join([column], '\t') == column
  {
  }

  lemma JoinSnoc(front: Columns, last: string)
    requires |front| >= 1
    ensures Join(front + [last], '\t') == Join(front, '\t') + "\t" + last
  {
    hide Join;
    var row := front + [last];
    JoinEnds(row);
    assert row[..|row| - 1] == front;
    Associative(Join(front, '\t'), "\t", last);
  }

  lemma StrippedLacks(row: Columns)
    requires |row| >= 1 && forall column :: column in row ==> Lacks(column, '\t')
    ensures forall column :: column in Stripped(row) ==> Lacks(column, '\t')
  {
    assert row[|row| - 1] in row;
    assert TrimLineEnd(row[|row| - 1]) <= row[|row| - 1];
  }

  /** The lines of a text that ends in the middle of a line and is marked. */
  lemma CutLines(partial: string)
    requires Lacks(partial, '\n')
    ensures Lines(partial + ("\n" + NOTE)) == [WithoutReturn(partial), NOTE]
  {
    NoteIsLine();
    hide NOTE, Lines;
    LinesCons(partial, NOTE);
    LastLine(NOTE);
  }

  lemma NoteIsLine()
    ensures NOTE != "" && IsLine(NOTE) && Lacks(NOTE, '\t') && KindOf([NOTE]) == OtherRow && MARKER == "\n" + NOTE
  {
  }

  lemma TrimOneFirst(s: string)
    ensures TrimLineEnd(WithoutReturn(s)) == TrimLineEnd(s)
  {
  }

  lemma CutRowLacks(row: Columns, t: nat, c: nat)
    requires PlainRow(row) && t < |row| && c <= |row[t]|
    ensures forall column :: column in CutRow(row, t, c) ==> Lacks(column, '\t') && Lacks(column, '\n')
  {
    assert row[t] in row;
    forall column | column in CutRow(row, t, c) ensures Lacks(column, '\t') && Lacks(column, '\n') {
      assert column in row || column == row[t][..c];
    }
  }

  /** The rows that are parsed from a report cut in column `t` of row `k`: the whole rows before, the row cut short, and
      the note. */
  lemma CutRows(rows: seq<Columns>, k: nat, t: nat, c: nat)
    requires AllPlain(rows) && k < |rows| && t < |rows[k]| && c <= |rows[k][t]|
    ensures RowsOf(Lines(PrintRows(rows[..k]) + Join(CutRow(rows[k], t, c), '\t') + ("\n" + NOTE))) ==
              rows[..k] + [Stripped(CutRow(rows[k], t, c))] + [[NOTE]]
  {
    var whole, cut := rows[..k], CutRow(rows[k], t, c);
    var partial := Join(cut, '\t');
    CutRowLacks(rows[k], t, c);
    JoinLacks(cut, '\t', '\n');
    var lines := LinesOf(whole);
    LinesReturn(whole);
    assert PrintRows(whole) == Terminated(lines);
    assert PrintRows(whole) + partial + ("\n" + NOTE) == PrintRows(whole) + (partial + ("\n" + NOTE));
    TrimOneFirst(partial);
    StrippedSplits(cut);
    hide NOTE, Lines, Terminated, Split, TrimLineEnd, WithoutReturn, IsLine, RowsOf, PrintRows;
    CutRowsOf(whole, lines, partial, Stripped(cut));
  }

  lemma CutRowsOf(whole: seq<Columns>, lines: seq<string>, partial: string, last: Columns)
    requires (forall line :: line in lines ==> IsLine(line)) && RowsOf(lines) == whole
    requires Split(TrimLineEnd(WithoutReturn(partial)), '\t') == last && Lacks(partial, '\n')
    ensures RowsOf(Lines(Terminated(lines) + (partial + ("\n" + NOTE)))) == whole + [last] + [[NOTE]]
  {
    hide NOTE, Lines, Terminated, Split, TrimLineEnd, WithoutReturn, IsLine, RowsOf;
    LinesAppend(lines, partial + ("\n" + NOTE));
    CutLines(partial);
    RowsAppend(lines, [WithoutReturn(partial), NOTE]);
    NoteRow();
    TwoRows(WithoutReturn(partial), NOTE);
    assert whole + [last, [NOTE]] == whole + [last] + [[NOTE]];
  }

  lemma TwoRows(a: string, b: string)
    ensures RowsOf([a, b]) == [Split(TrimLineEnd(a), '\t'), Split(TrimLineEnd(b), '\t')]
  {
    hide Split, TrimLineEnd;
  }

  lemma NoteRow()
    ensures Split(TrimLineEnd(NOTE), '\t') == [NOTE]
  {
    NoteIsLine();
    hide NOTE;
    LastLine(NOTE);
    SplitJoin([NOTE], '\t');
  }

  lemma {:induction false} RowsAppend(front: seq<string>, back: seq<string>)
    ensures RowsOf(front + back) == RowsOf(front) + RowsOf(back)
  {
  }

  // ---------------------------------------------------------------- discovery reports

  /** What is left of a message of which `c` characters are kept. */
  function ShortMessage(message: Option<string>, c: nat): Option<string> {
    var text := message.GetOr("");
    EmptyToOpt(if c <= |text| then text[..c] else text)
  }

  /** The report that a text cut in column `t` of row `k` parses as: nothing when the status row is not kept up to its
      last column, else the whole rows, and the row cut short if it is kept up to its last column, with a shortened
      message. */
  function CutDiscovery(p: Parsed<DiscoveryDevice>, k: nat, t: nat, c: nat): Option<Parsed<DiscoveryDevice>>
    requires k <= |p.rows|
  {
    if k == 0 then
      if t == 5 then Some(Parsed(p.header.(message := ShortMessage(p.header.message, c)), [])) else None
    else
      var whole := p.rows[..k - 1];
      if t == 9 then Some(p.(rows := whole + [p.rows[k - 1].(message := ShortMessage(p.rows[k - 1].message, c))]))
      else Some(p.(rows := whole))
  }

  lemma {:induction false} TrimEndIgnoresReturns(s: string)
    ensures TrimEnd(TrimLineEnd(s)) == TrimEnd(s)
  {
    if s != "" && s[|s| - 1] in {'\r', '\n'} {
      TrimEndIgnoresReturns(s[..|s| - 1]);
    }
  }

  /** Stripping the line ending first makes no difference to a piece of a plain field. */
  lemma StrippedMessage(s: string, c: nat)
    requires IsPlain(s) && c <= |s|
    ensures EmptyToOpt(TrimLineEnd(s[..c])) == EmptyToOpt(s[..c])
  {
    TrimEndIgnoresReturns(s[..c]);
    assert TrimLineEnd(s[..c]) <= s[..c];
    assert c > 0 ==> s[..c][0] == s[0];
    hide TrimEnd, TrimLineEnd, IsWhitespace;
    StartStays(s[..c]);
    StartStays(TrimLineEnd(s[..c]));
  }

  lemma StartStays(s: string)
    ensures s != "" && !IsWhitespace(s[0]) ==> TrimStart(s) == s
    ensures TrimStart("") == ""
  {
  }

  lemma {:induction false} RowsOfReport(p: Parsed<DiscoveryDevice>, k: nat)
    requires p.header.status.Some? && k <= |p.rows|
    ensures |DiscoveryColumns(p)| == |p.rows| + 1
    ensures DiscoveryColumns(p)[..k + 1] == DiscoveryColumns(p.(rows := p.rows[..k]))
    ensures DiscoveryColumns(p)[0] == HeaderColumns(p.header)
    ensures k > 0 ==> DiscoveryColumns(p)[k] == DeviceColumns(p.rows[k - 1])
    decreases |p.rows|
  {
    hide HeaderColumns, DeviceColumns;
    if p.rows != [] {
      var n := |p.rows| - 1;
      var front := p.(rows := p.rows[..n]);
      RowsOfReport(front, if k > n then n else k);
      if k > n {
        assert p.rows[..k] == p.rows;
      } else {
        assert front.rows[..k] == p.rows[..k];
      }
    } else {
      assert p.rows[..0] == p.rows;
    }
  }

  lemma StrippedCut(row: Columns, t: nat, c: nat)
    requires t < |row| && c <= |row[t]|
    ensures var cut := Stripped(CutRow(row, t, c));
            |cut| == t + 1 && cut[t] == TrimLineEnd(row[t][..c]) && forall i :: 0 <= i < t ==> cut[i] == row[i]
  {
    hide TrimLineEnd;
  }

  /** A prefix of a tag is that tag or none. */
  lemma TagCut(tag: string, c: nat)
    requires tag in {"STATUS", "DEVICE", "METRIC"} && c <= |tag|
    ensures KindOf([TrimLineEnd(tag[..c])]) in {KindOf([tag]), OtherRow}
  {
    assert TrimLineEnd(tag[..c]) <= tag[..c];
  }

  lemma KindIsTag(row: Columns)
    ensures row != [] ==> KindOf(row) == KindOf([row[0]])
  {
  }

  lemma CutKind(row: Columns, t: nat, c: nat)
    requires t < |row| && c <= |row[t]| && row[0] in {"STATUS", "DEVICE", "METRIC"}
    ensures KindOf(Stripped(CutRow(row, t, c))) in {KindOf(row), OtherRow}
    ensures t > 0 ==> KindOf(Stripped(CutRow(row, t, c))) == KindOf(row)
  {
    StrippedCut(row, t, c);
    KindIsTag(row);
    KindIsTag(Stripped(CutRow(row, t, c)));
    if t == 0 {
      TagCut(row[0], c);
    }
    hide KindOf, Stripped, CutRow, TrimLineEnd;
  }

  lemma HeaderTag(h: Header)
    requires h.status.Some?
    ensures HeaderColumns(h)[0] in {"STATUS", "DEVICE", "METRIC"} && KindOf(HeaderColumns(h)) == StatusRow
  {
    hide StatusName;
  }

  lemma HeaderCut(h: Header, t: nat, c: nat)
    requires WellFormedHeader(h) && t < 6 && c <= |HeaderColumns(h)[t]|
    ensures var cut := Stripped(CutRow(HeaderColumns(h), t, c));
            && KindOf(cut) in {StatusRow, OtherRow} && DeviceKey(cut).None? && MetricKey(cut).None?
            && (t == 5 ==> KindOf(cut) == StatusRow &&
                           ReadHeader(cut) == Success(h.(message := ShortMessage(h.message, c))))
            && (t < 5 ==> ReadHeader(cut).Failure?)
  {
    var row := HeaderColumns(h);
    StrippedCut(row, t, c);
    HeaderReturns(h);
    HeaderTag(h);
    CutKind(row, t, c);
    if t == 5 {
      OptReturns(h.message);
      StrippedMessage(h.message.GetOr(""), c);
    }
    hide KindOf, Stripped, CutRow, TrimLineEnd, EmptyToOpt, ParseStatus, StatusName, IsPlain, PlainRow;
  }

  lemma DeviceTag(d: DiscoveryDevice)
    ensures DeviceColumns(d)[0] in {"STATUS", "DEVICE", "METRIC"}
  {
    hide PrintInt;
  }

  lemma DeviceCut(d: DiscoveryDevice, t: nat, c: nat)
    requires WellFormedDevice(d) && t < 10 && c <= |DeviceColumns(d)[t]|
    ensures var cut := Stripped(CutRow(DeviceColumns(d), t, c));
            && KindOf(cut) != StatusRow
            && (t == 9 ==>
                  && KindOf(cut) == DeviceRow && DeviceKey(cut) == Some(d.deviceKey) && |cut| == 10
                  && DeviceOf(cut) == d.(message := ShortMessage(d.message, c)))
            && (t < 9 ==> DeviceKey(cut).None?)
  {
    var row := DeviceColumns(d);
    StrippedCut(row, t, c);
    DeviceReturns(d);
    DeviceTag(d);
    CutKind(row, t, c);
    if t == 9 {
      OptReturns(d.message);
      StrippedMessage(d.message.GetOr(""), c);
      assert row[9] == d.message.GetOr("");
    }
    hide KindOf, Stripped, CutRow, TrimLineEnd, EmptyToOpt, Trim, ParseOptI64, PlainRow, IsPlain, PrintInt,
         DeviceColumns, WellFormedDevice;
  }

  lemma NoteSaysNothing()
    ensures KindOf([NOTE]) == OtherRow
  {
  }

  /** Rows that say the front of a report, a cut row, and the note. */
  lemma DevicesAfterCut(rows: seq<Columns>, front: Parsed<DiscoveryDevice>, cut: Columns)
    requires Says(rows, front) && front.header.status.Some? && KindOf(cut) != StatusRow
    requires DeviceKey(cut).Some? ==>
               KindOf(cut) == DeviceRow && |cut| == 10 && DeviceKey(cut).value !in DeviceKeys(front.rows)
    ensures var all := rows + [cut] + [[NOTE]];
            Report(all, Devices(all)) ==
              Success(front.(rows := front.rows + if DeviceKey(cut).Some? then [DeviceOf(cut)] else []))
  {
    NoteSaysNothing();
    hide NOTE;
    HeaderSnoc(rows, cut);
    DevicesSnoc(rows, cut);
    HeaderSnoc(rows + [cut], [NOTE]);
    DevicesSnoc(rows + [cut], [NOTE]);
    assert front.rows + [] == front.rows;
    hide FirstError, LastHeader, Devices, StatusError, DeviceKey, DeviceKeys, KindOf, ReadHeader, AllPlain, KeysOf,
         DeviceOf;
  }

  lemma HeaderAfterCut(cut: Columns)
    requires KindOf(cut) in {StatusRow, OtherRow} && DeviceKey(cut).None? && MetricKey(cut).None?
    ensures var all := [cut] + [[NOTE]];
            && (KindOf(cut) == StatusRow && ReadHeader(cut).Success? && ReadHeader(cut).value.status.Some? ==>
                  && Report(all, Devices(all)) == Success(Parsed(ReadHeader(cut).value, []))
                  && Report(all, Samples(all)) == Success(Parsed(ReadHeader(cut).value, [])))
            && (ReadHeader(cut).Failure? ==> Report(all, Devices(all)).Failure? && Report(all, Samples(all)).Failure?)
  {
    NoteSaysNothing();
    hide NOTE;
    NothingParsed();
    HeaderSnoc([], cut);
    DevicesSnoc([], cut);
    SamplesSnoc([], cut);
    assert [] + [cut] == [cut];
    HeaderSnoc([cut], [NOTE]);
    DevicesSnoc([cut], [NOTE]);
    SamplesSnoc([cut], [NOTE]);
    hide FirstError, LastHeader, Devices, Samples, StatusError, DeviceKey, MetricKey, KindOf, ReadHeader, KeysOf,
         IsHealthy;
  }

  /** Column `t` of row `k`, after `c` of its characters. */
  predicate IsPlace(rows: seq<Columns>, k: nat, t: nat, c: nat) {
    k < |rows| && t < |rows[k]| && c <= |rows[k][t]|
  }

  /** The text up to that place. */
  function CutText(rows: seq<Columns>, k: nat, t: nat, c: nat): string
    requires AllPlain(rows) && IsPlace(rows, k, t, c)
  {
    PrintRows(rows[..k]) + Join(CutRow(rows[k], t, c), '\t')
  }

  lemma EveryCutHasAPlace(rows: seq<Columns>, end: nat) returns (k: nat, t: nat, c: nat)
    requires AllPlain(rows) && end < |PrintRows(rows)|
    ensures IsPlace(rows, k, t, c) && PrintRows(rows)[..end] == CutText(rows, k, t, c)
  {
    var lines := LinesOf(rows);
    var j;
    k, j := TextCut(lines, end);
    t, c := RowCut(rows[k], j);
    LinesOfPrefix(rows, k);
  }

  lemma {:induction false} LinesOfPrefix(rows: seq<Columns>, k: nat)
    requires AllPlain(rows) && k <= |rows|
    ensures LinesOf(rows[..k]) == LinesOf(rows)[..k]
  {
    hide Join;
  }

  ghost predicate ReadsAs<T(!new)>(parsed: Result<Parsed<T>>, expected: Option<Parsed<T>>) {
    if expected.Some? then parsed == Success(expected.value) else parsed.Failure?
  }

  lemma {:induction false} PrefixIsWellFormed(p: Parsed<DiscoveryDevice>, k: nat)
    requires WellFormedDiscovery(p) && k <= |p.rows|
    ensures WellFormedDiscovery(p.(rows := p.rows[..k])) && p.header.status.Some?
    ensures k < |p.rows| ==> WellFormedDevice(p.rows[k]) && p.rows[k].deviceKey !in DeviceKeys(p.rows[..k])
  {
    forall i | 0 <= i < k ensures DeviceKeys(p.rows[..k])[i] == DeviceKeys(p.rows)[i] {}
    hide WellFormedDevice, DeviceKeys;
  }

  lemma CutInHeader(p: Parsed<DiscoveryDevice>, t: nat, c: nat)
    requires WellFormedHeader(p.header) && t < 6 && c <= |HeaderColumns(p.header)[t]|
    ensures var all := [Stripped(CutRow(HeaderColumns(p.header), t, c))] + [[NOTE]];
            ReadsAs(Report(all, Devices(all)), CutDiscovery(p, 0, t, c))
  {
    HeaderCut(p.header, t, c);
    HeaderAfterCut(Stripped(CutRow(HeaderColumns(p.header), t, c)));
    hide Stripped, CutRow, ShortMessage, NOTE, Report, Devices, KindOf, ReadHeader, DeviceKey, MetricKey;
  }

  lemma CutInDevice(p: Parsed<DiscoveryDevice>, k: nat, t: nat, c: nat)
    requires WellFormedDiscovery(p) && 0 < k <= |p.rows| && t < 10 && c <= |DeviceColumns(p.rows[k - 1])[t]|
    ensures var all := DiscoveryColumns(p.(rows := p.rows[..k - 1]))
                       + [Stripped(CutRow(DeviceColumns(p.rows[k - 1]), t, c))] + [[NOTE]];
            ReadsAs(Report(all, Devices(all)), CutDiscovery(p, k, t, c))
  {
    var front := p.(rows := p.rows[..k - 1]);
    PrefixIsWellFormed(p, k - 1);
    DiscoveryColumnsReturn(front);
    DeviceCut(p.rows[k - 1], t, c);
    DevicesAfterCut(DiscoveryColumns(front), front, Stripped(CutRow(DeviceColumns(p.rows[k - 1]), t, c)));
    assert front.rows + [] == front.rows;
    hide Stripped, CutRow, ShortMessage, NOTE, Report, Devices, KindOf, DeviceKey, DeviceOf, Says, DiscoveryColumns,
         DeviceColumns, WellFormedDiscovery, WellFormedDevice, DeviceKeys;
  }

  lemma Widths(p: Parsed<DiscoveryDevice>, k: nat)
    requires p.header.status.Some? && k <= |p.rows|
    ensures |DiscoveryColumns(p)| == |p.rows| + 1
    ensures k == 0 ==> DiscoveryColumns(p)[k] == HeaderColumns(p.header) && |DiscoveryColumns(p)[k]| == 6
    ensures k > 0 ==> DiscoveryColumns(p)[k] == DeviceColumns(p.rows[k - 1]) && |DiscoveryColumns(p)[k]| == 10
    ensures k > 0 ==> DiscoveryColumns(p)[..k] == DiscoveryColumns(p.(rows := p.rows[..k - 1]))
  {
    RowsOfReport(p, k);
    if k > 0 {
      RowsOfReport(p, k - 1);
    }
    hide DiscoveryColumns, PrintInt, StatusName;
  }

  /** The rows that are left of a report cut at that place. */
  lemma DiscoveryRowsCut(p: Parsed<DiscoveryDevice>, k: nat, t: nat, c: nat)
    requires WellFormedDiscovery(p) && IsPlace(DiscoveryColumns(p), k, t, c)
    ensures k <= |p.rows|
    ensures var all := DiscoveryColumns(p)[..k] + [Stripped(CutRow(DiscoveryColumns(p)[k], t, c))] + [[NOTE]];
            ReadsAs(Report(all, Devices(all)), CutDiscovery(p, k, t, c))
  {
    PrefixIsWellFormed(p, 0);
    Widths(p, 0);
    Widths(p, k);
    hide DiscoveryColumns, HeaderColumns, DeviceColumns, Report, Devices, Stripped, CutRow, ShortMessage, NOTE;
    if k == 0 {
      HeaderIsWellFormed(p);
      CutInHeader(p, t, c);
      assert DiscoveryColumns(p)[..0] == [];
      var row := [Stripped(CutRow(DiscoveryColumns(p)[0], t, c))];
      assert [] + row == row;
    } else {
      CutInDevice(p, k, t, c);
    }
  }

  /** For every well-formed report and every place of its text: cut there and marked, the text parses if and only if the
      status row is kept up to its last column, and then as the report of the rows kept up to theirs. */
  lemma CutDiscoveryExactly(p: Parsed<DiscoveryDevice>, k: nat, t: nat, c: nat)
    requires WellFormedDiscovery(p) && AllPlain(DiscoveryColumns(p)) && IsPlace(DiscoveryColumns(p), k, t, c)
    ensures k <= |p.rows|
    ensures ReadsAs(DiscoveryOf(CutText(DiscoveryColumns(p), k, t, c) + ("\n" + NOTE)), CutDiscovery(p, k, t, c))
    ensures DiscoveryOf(CutText(DiscoveryColumns(p), k, t, c) + ("\n" + NOTE)).Success? <==> k > 0 || t == 5
  {
    PrefixIsWellFormed(p, 0);
    var rows := DiscoveryColumns(p);
    hide WellFormedDiscovery, DiscoveryColumns, AllPlain, Report, Devices, Stripped, CutRow, ShortMessage, Lines,
         PrintRows, Join, NOTE, RowsOf;
    CutRows(rows, k, t, c);
    DiscoveryRowsCut(p, k, t, c);
  }

  /** The same in bytes: whatever the limit, the truncated output of a well-formed report is the text up to some place
      of it, and the marker; so it fails to parse, or silently loses the rows behind that place. */
  lemma TruncatedDiscovery(p: Parsed<DiscoveryDevice>, max: nat, end: nat) returns (k: nat, t: nat, c: nat)
    requires WellFormedDiscovery(p) && |Encode(PrintDiscovery(p))| > max
    requires Truncation.IsLongestCut(Encode(PrintDiscovery(p)), max, end)
    ensures AllPlain(DiscoveryColumns(p)) && IsPlace(DiscoveryColumns(p), k, t, c) && k <= |p.rows|
    ensures var output := CutText(DiscoveryColumns(p), k, t, c) + ("\n" + NOTE);
            && Encode(output) == Encode(PrintDiscovery(p))[..end] + Truncation.MARKER
            && ReadsAs(DiscoveryOf(output), CutDiscovery(p, k, t, c))
  {
    var text, rows := PrintDiscovery(p), DiscoveryColumns(p);
    DiscoveryColumnsReturn(p);
    DiscoveryColumnsNotEmpty(p);
    assert text == PrintRows(rows) && AllPlain(rows);
    NoteIsLine();
    hide *;
    var cut := TruncatedIsText(text, max, end);
    k, t, c := EveryCutHasAPlace(rows, cut);
    CutDiscoveryExactly(p, k, t, c);
  }

  // ---------------------------------------------------------------- metrics reports

  function CutMetrics(p: Parsed<MetricSample>, k: nat, t: nat, c: nat): Option<Parsed<MetricSample>>
    requires k <= |p.rows|
  {
    if k == 0 then
      if t == 5 then Some(Parsed(p.header.(message := ShortMessage(p.header.message, c)), [])) else None
    else
      var whole := p.rows[..k - 1];
      if t == 11 then Some(p.(rows := whole + [p.rows[k - 1].(message := ShortMessage(p.rows[k - 1].message, c))]))
      else Some(p.(rows := whole))
  }

  lemma {:induction false} RowsOfMetrics(p: Parsed<MetricSample>, k: nat)
    requires p.header.status.Some? && k <= |p.rows|
    ensures |MetricsColumns(p)| == |p.rows| + 1
    ensures MetricsColumns(p)[..k + 1] == MetricsColumns(p.(rows := p.rows[..k]))
    ensures MetricsColumns(p)[0] == HeaderColumns(p.header)
    ensures k > 0 ==> MetricsColumns(p)[k] == SampleColumns(p.rows[k - 1])
    decreases |p.rows|
  {
    hide HeaderColumns, SampleColumns;
    if p.rows == [] {
      assert p.rows[..0] == p.rows;
    } else {
      var n := |p.rows| - 1;
      var front := p.(rows := p.rows[..n]);
      var rows := MetricsColumns(p);
      assert rows == MetricsColumns(front) + [SampleColumns(p.rows[n])];
      RowsOfMetrics(front, if k > n then n else k);
      if k > n {
        assert p.rows[..k] == p.rows && rows[..k + 1] == rows;
      } else {
        assert front.rows[..k] == p.rows[..k] && rows[..k + 1] == MetricsColumns(front)[..k + 1];
      }
    }
  }

  lemma SampleTag(m: MetricSample)
    ensures SampleColumns(m)[0] in {"STATUS", "DEVICE", "METRIC"}
  {
    hide FloatText;
  }

  lemma SampleCut(m: MetricSample, t: nat, c: nat)
    requires WellFormedSample(m) && t < 12 && c <= |SampleColumns(m)[t]|
    ensures var cut := Stripped(CutRow(SampleColumns(m), t, c));
            && KindOf(cut) != StatusRow
            && (t == 11 ==>
                  && KindOf(cut) == MetricRow && MetricKey(cut) == Some(m.deviceKey) && |cut| == 12 && IsHealthy(cut)
                  && SampleOf(cut) == m.(message := ShortMessage(m.message, c)))
            && (t < 11 ==> MetricKey(cut).None?)
  {
    var row := SampleColumns(m);
    StrippedCut(row, t, c);
    SampleReturns(m);
    SampleTag(m);
    CutKind(row, t, c);
    if t == 11 {
      OptReturns(m.message);
      StrippedMessage(m.message.GetOr(""), c);
      assert row[11] == m.message.GetOr("");
    }
    hide KindOf, Stripped, CutRow, TrimLineEnd, EmptyToOpt, Trim, ParseOptF64, PlainRow, IsPlain, FloatText,
         SampleColumns, WellFormedSample;
  }

  lemma SamplesAfterCut(rows: seq<Columns>, front: Parsed<MetricSample>, cut: Columns)
    requires SaysMetrics(rows, front) && front.header.status.Some? && KindOf(cut) != StatusRow
    requires MetricKey(cut).Some? ==>
               KindOf(cut) == MetricRow && |cut| == 12 && IsHealthy(cut) &&
               MetricKey(cut).value !in SampleKeys(front.rows)
    ensures var all := rows + [cut] + [[NOTE]];
            Report(all, Samples(all)) ==
              Success(front.(rows := front.rows + if MetricKey(cut).Some? then [SampleOf(cut)] else []))
  {
    NoteSaysNothing();
    hide NOTE;
    HeaderSnoc(rows, cut);
    SamplesSnoc(rows, cut);
    HeaderSnoc(rows + [cut], [NOTE]);
    SamplesSnoc(rows + [cut], [NOTE]);
    assert front.rows + [] == front.rows;
    hide FirstError, LastHeader, Samples, StatusError, MetricKey, SampleKeys, KindOf, ReadHeader, AllPlain, KeysOf,
         SampleOf, IsHealthy;
  }

  lemma {:induction false} PrefixIsWellFormedMetrics(p: Parsed<MetricSample>, k: nat)
    requires WellFormedMetrics(p) && k <= |p.rows|
    ensures WellFormedMetrics(p.(rows := p.rows[..k])) && p.header.status.Some?
    ensures k < |p.rows| ==> WellFormedSample(p.rows[k]) && p.rows[k].deviceKey !in SampleKeys(p.rows[..k])
  {
    forall i | 0 <= i < k ensures SampleKeys(p.rows[..k])[i] == SampleKeys(p.rows)[i] {}
    hide WellFormedSample, SampleKeys;
  }

  lemma CutInMetricsHeader(p: Parsed<MetricSample>, t: nat, c: nat)
    requires WellFormedHeader(p.header) && t < 6 && c <= |HeaderColumns(p.header)[t]|
    ensures var all := [Stripped(CutRow(HeaderColumns(p.header), t, c))] + [[NOTE]];
            ReadsAs(Report(all, Samples(all)), CutMetrics(p, 0, t, c))
  {
    HeaderCut(p.header, t, c);
    HeaderAfterCut(Stripped(CutRow(HeaderColumns(p.header), t, c)));
    hide Stripped, CutRow, ShortMessage, NOTE, Report, Samples, KindOf, ReadHeader, DeviceKey, MetricKey;
  }

  lemma CutInSample(p: Parsed<MetricSample>, k: nat, t: nat, c: nat)
    requires WellFormedMetrics(p) && 0 < k <= |p.rows| && t < 12 && c <= |SampleColumns(p.rows[k - 1])[t]|
    ensures var all := MetricsColumns(p.(rows := p.rows[..k - 1]))
                       + [Stripped(CutRow(SampleColumns(p.rows[k - 1]), t, c))] + [[NOTE]];
            ReadsAs(Report(all, Samples(all)), CutMetrics(p, k, t, c))
  {
    var front := p.(rows := p.rows[..k - 1]);
    PrefixIsWellFormedMetrics(p, k - 1);
    MetricsColumnsReturn(front);
    SampleCut(p.rows[k - 1], t, c);
    SamplesAfterCut(MetricsColumns(front), front, Stripped(CutRow(SampleColumns(p.rows[k - 1]), t, c)));
    assert front.rows + [] == front.rows;
    hide Stripped, CutRow, ShortMessage, NOTE, Report, Samples, KindOf, MetricKey, SampleOf, SaysMetrics,
         MetricsColumns, SampleColumns, WellFormedMetrics, WellFormedSample, SampleKeys, IsHealthy;
  }

  lemma MetricsWidths(p: Parsed<MetricSample>, k: nat)
    requires p.header.status.Some? && k <= |p.rows|
    ensures |MetricsColumns(p)| == |p.rows| + 1
    ensures k == 0 ==> MetricsColumns(p)[k] == HeaderColumns(p.header) && |MetricsColumns(p)[k]| == 6
    ensures k > 0 ==> MetricsColumns(p)[k] == SampleColumns(p.rows[k - 1]) && |MetricsColumns(p)[k]| == 12
    ensures k > 0 ==> MetricsColumns(p)[..k] == MetricsColumns(p.(rows := p.rows[..k - 1]))
  {
    RowsOfMetrics(p, k);
    if k > 0 {
      RowsOfMetrics(p, k - 1);
    }
    hide MetricsColumns, FloatText, StatusName;
  }

  /** The rows that are left of a report cut at that place. */
  lemma MetricsRowsCut(p: Parsed<MetricSample>, k: nat, t: nat, c: nat)
    requires WellFormedMetrics(p) && IsPlace(MetricsColumns(p), k, t, c)
    ensures k <= |p.rows|
    ensures var all := MetricsColumns(p)[..k] + [Stripped(CutRow(MetricsColumns(p)[k], t, c))] + [[NOTE]];
            ReadsAs(Report(all, Samples(all)), CutMetrics(p, k, t, c))
  {
    PrefixIsWellFormedMetrics(p, 0);
    MetricsWidths(p, 0);
    MetricsWidths(p, k);
    hide MetricsColumns, HeaderColumns, SampleColumns, Report, Samples, Stripped, CutRow, ShortMessage, NOTE;
    if k == 0 {
      HeaderIsWellFormedMetrics(p);
      CutInMetricsHeader(p, t, c);
      assert MetricsColumns(p)[..0] == [];
      var row := [Stripped(CutRow(MetricsColumns(p)[0], t, c))];
      assert [] + row == row;
    } else {
      CutInSample(p, k, t, c);
    }
  }

  /** A metrics report cut at any place: the same, with twelve columns to a row. */
  lemma CutMetricsExactly(p: Parsed<MetricSample>, k: nat, t: nat, c: nat)
    requires WellFormedMetrics(p) && AllPlain(MetricsColumns(p)) && IsPlace(MetricsColumns(p), k, t, c)
    ensures k <= |p.rows|
    ensures ReadsAs(MetricsOf(CutText(MetricsColumns(p), k, t, c) + ("\n" + NOTE)), CutMetrics(p, k, t, c))
    ensures MetricsOf(CutText(MetricsColumns(p), k, t, c) + ("\n" + NOTE)).Success? <==> k > 0 || t == 5
  {
    PrefixIsWellFormedMetrics(p, 0);
    var rows := MetricsColumns(p);
    hide WellFormedMetrics, MetricsColumns, AllPlain, Report, Samples, Stripped, CutRow, ShortMessage, Lines, PrintRows,
         Join, NOTE, RowsOf;
    CutRows(rows, k, t, c);
    MetricsRowsCut(p, k, t, c);
  }

  lemma TruncatedMetrics(p: Parsed<MetricSample>, max: nat, end: nat) returns (k: nat, t: nat, c: nat)
    requires WellFormedMetrics(p) && |Encode(PrintMetrics(p))| > max
    requires Truncation.IsLongestCut(Encode(PrintMetrics(p)), max, end)
    ensures AllPlain(MetricsColumns(p)) && IsPlace(MetricsColumns(p), k, t, c) && k <= |p.rows|
    ensures var output := CutText(MetricsColumns(p), k, t, c) + ("\n" + NOTE);
            && Encode(output) == Encode(PrintMetrics(p))[..end] + Truncation.MARKER
            && ReadsAs(MetricsOf(output), CutMetrics(p, k, t, c))
  {
    var text, rows := PrintMetrics(p), MetricsColumns(p);
    MetricsColumnsReturn(p);
    MetricsColumnsNotEmpty(p);
    assert text == PrintRows(rows) && AllPlain(rows);
    NoteIsLine();
    hide *;
    var cut := TruncatedIsText(text, max, end);
    k, t, c := EveryCutHasAPlace(rows, cut);
    CutMetricsExactly(p, k, t, c);
  }
}
