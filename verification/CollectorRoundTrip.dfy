/** Printing collector reports, and that parsing is its inverse. */
module CollectorRoundTrip {
  import opened Options
  import opened Text
  import opened CollectorTsv

  // ---------------------------------------------------------------- printing

  function StatusName(status: CollectorStatus): string {
    match status
    case Ok => "ok"
    case NotAvailable => "not_available"
    case Partial => "partial"
    case Error => "error"
  }

  function FloatText(f: Option<Float>): string {
    if f.Some? then f.value.numeral else ""
  }

  function HeaderColumns(h: Header): Columns
    requires h.status.Some?
  {
    ["STATUS", SCHEMA_VERSION, StatusName(h.status.value), h.vendor.GetOr(""), h.collector.GetOr(""),
     h.message.GetOr("")]
  }

  function DeviceColumns(d: DiscoveryDevice): Columns {
    ["DEVICE", SCHEMA_VERSION, d.deviceKey, d.vendor, if d.index.Some? then PrintInt(d.index.value) else "", d.name,
     d.uuid.GetOr(""), d.pciBusId.GetOr(""), d.driverVersion.GetOr(""), d.message.GetOr("")]
  }

  function SampleColumns(m: MetricSample): Columns {
    ["METRIC", SCHEMA_VERSION, m.deviceKey, FloatText(m.memoryTotalMb), FloatText(m.memoryUsedMb),
     FloatText(m.memoryFreeMb), FloatText(m.utilizationPercent), FloatText(m.memoryUtilizationPercent),
     FloatText(m.temperatureC), FloatText(m.powerW),
     m.healthStatus, m.message.GetOr("")]
  }

  function DiscoveryColumns(p: Parsed<DiscoveryDevice>): (rows: seq<Columns>)
    requires p.header.status.Some?
    decreases |p.rows|
  {
    if p.rows == [] then [HeaderColumns(p.header)]
    else DiscoveryColumns(p.(rows := p.rows[..|p.rows| - 1])) + [DeviceColumns(p.rows[|p.rows| - 1])]
  }

  function MetricsColumns(p: Parsed<MetricSample>): (rows: seq<Columns>)
    requires p.header.status.Some?
    decreases |p.rows|
  {
    if p.rows == [] then [HeaderColumns(p.header)]
    else MetricsColumns(p.(rows := p.rows[..|p.rows| - 1])) + [SampleColumns(p.rows[|p.rows| - 1])]
  }

  function LinesOf(rows: seq<Columns>): (lines: seq<string>)
    requires forall i :: 0 <= i < |rows| ==> |rows[i]| >= 1
    ensures |lines| == |rows| && forall i :: 0 <= i < |rows| ==> lines[i] == Join(rows[i], '\t')
  {
    if rows == [] then [] else [Join(rows[0], '\t')] + LinesOf(rows[1..])
  }

  function PrintRows(rows: seq<Columns>): string
    requires forall i :: 0 <= i < |rows| ==> |rows[i]| >= 1
  {
    Terminated(LinesOf(rows))
  }

  // ---------------------------------------------------------------- what can be printed

  predicate IsPlain(s: string) {
    IsTrimmed(s) && Lacks(s, '\t') && Lacks(s, '\n')
  }

  predicate IsPlainOpt(o: Option<string>) {
    o.Some? ==> o.value != "" && IsPlain(o.value)
  }

  predicate IsNumeral(f: Option<Float>) {
    f.Some? ==> f.value.numeral != "" && IsPlain(f.value.numeral) && IsF64(f.value.numeral)
  }

  predicate WellFormedHeader(h: Header) {
    h.status.Some? && IsPlainOpt(h.vendor) && IsPlainOpt(h.collector) && IsPlainOpt(h.message)
  }

  predicate WellFormedDevice(d: DiscoveryDevice) {
    && d.deviceKey != "" && IsPlain(d.deviceKey) && IsPlain(d.vendor) && IsPlain(d.name)
    && (d.index.Some? ==> I64_MIN <= d.index.value <= I64_MAX)
    && IsPlainOpt(d.uuid) && IsPlainOpt(d.pciBusId) && IsPlainOpt(d.driverVersion) && IsPlainOpt(d.message)
  }

  predicate WellFormedSample(m: MetricSample) {
    && m.deviceKey != "" && IsPlain(m.deviceKey) && m.healthStatus != "" && IsPlain(m.healthStatus) &&
       IsPlainOpt(m.message)
    && IsNumeral(m.memoryTotalMb) && IsNumeral(m.memoryUsedMb) && IsNumeral(m.memoryFreeMb) &&
       IsNumeral(m.utilizationPercent)
    && IsNumeral(m.memoryUtilizationPercent) && IsNumeral(m.temperatureC) && IsNumeral(m.powerW)
  }

  ghost predicate WellFormedDiscovery(p: Parsed<DiscoveryDevice>) {
    WellFormedHeader(p.header) && UniqueKeys(DeviceKeys(p.rows)) && forall d :: d in p.rows ==> WellFormedDevice(d)
  }

  ghost predicate WellFormedMetrics(p: Parsed<MetricSample>) {
    WellFormedHeader(p.header) && UniqueKeys(SampleKeys(p.rows)) && forall m :: m in p.rows ==> WellFormedSample(m)
  }

  predicate PlainRow(row: Columns) {
    |row| > 1 && forall column :: column in row ==> IsPlain(column)
  }

  predicate AllPlain(rows: seq<Columns>) {
    forall i :: 0 <= i < |rows| ==> |rows[i]| > 1 && PlainRow(rows[i])
  }

  // ---------------------------------------------------------------- lines and columns

  lemma {:induction false} JoinEnds(row: Columns)
    requires |row| > 1
    ensures Join(row, '\t') == Join(row[..|row| - 1], '\t') + ("\t" + row[|row| - 1])
  {
    if |row| > 2 {
      JoinEnds(row[1..]);
      assert row[1..][..|row| - 2] == row[..|row| - 1][1..];
    } else {
      assert row[1..] == [row[1]] && row[..1] == [row[0]];
    }
  }

  lemma RowReturns(row: Columns)
    requires PlainRow(row)
    ensures IsLine(Join(row, '\t')) && Split(TrimLineEnd(Join(row, '\t')), '\t') == row
  {
    JoinLacks(row, '\t', '\n');
    JoinEnds(row);
    var last := row[|row| - 1];
    assert IsPlain(last);
    assert last != "" ==> ("\t" + last)[|last|] == last[|last| - 1];
    SplitJoin(row, '\t');
    hide Join, Split;
  }

  lemma LinesReturn(rows: seq<Columns>)
    requires AllPlain(rows)
    ensures (forall line :: line in LinesOf(rows) ==> IsLine(line)) && RowsOf(LinesOf(rows)) == rows
  {
    var lines := LinesOf(rows);
    hide LinesOf, Split, TrimLineEnd, IsLine, Join;
    forall i | 0 <= i < |rows| ensures IsLine(lines[i]) && Split(TrimLineEnd(lines[i]), '\t') == rows[i] {
      RowReturns(rows[i]);
    }
  }

  lemma RowsReturn(rows: seq<Columns>)
    requires AllPlain(rows)
    ensures RowsOf(Lines(PrintRows(rows))) == rows
  {
    LinesReturn(rows);
    LinesOfTerminated(LinesOf(rows));
  }

  lemma PlainTrims(s: string)
    requires IsPlain(s)
    ensures Trim(s) == s
  {
  }

  lemma OptReturns(o: Option<string>)
    requires IsPlainOpt(o)
    ensures IsPlain(o.GetOr("")) && EmptyToOpt(o.GetOr("")) == o
  {
  }

  lemma FloatReturns(f: Option<Float>)
    requires IsNumeral(f)
    ensures IsPlain(FloatText(f)) && ParseOptF64(FloatText(f)) == f
  {
    PlainTrims(FloatText(f));
    hide IsF64;
  }

  lemma IndexReturns(index: Option<int>)
    requires index.Some? ==> I64_MIN <= index.value <= I64_MAX
    ensures var text := if index.Some? then PrintInt(index.value) else "";
            IsPlain(text) && ParseOptI64(text) == index
  {
    if index.Some? {
      PrintedIsPlain(index.value);
      ParsePrintedI64(index.value);
      PlainTrims(PrintInt(index.value));
      hide PrintInt, ParseI64;
    }
  }

  lemma StatusReturns(status: CollectorStatus)
    ensures ParseStatus(StatusName(status)) == Some(status) && IsPlain(StatusName(status))
  {
  }

  // ---------------------------------------------------------------- rows

  lemma HeaderReturns(h: Header)
    requires WellFormedHeader(h)
    ensures var row := HeaderColumns(h); PlainRow(row) && KindOf(row) == StatusRow && ReadHeader(row) == Success(h)
  {
    StatusReturns(h.status.value);
    OptReturns(h.vendor);
    OptReturns(h.collector);
    OptReturns(h.message);
    assert IsPlain("STATUS") && IsPlain("1");
    hide IsPlain, ParseStatus, StatusName, EmptyToOpt, IsPlainOpt;
  }

  lemma TagsArePlain()
    ensures IsPlain("DEVICE") && IsPlain("METRIC") && IsPlain(SCHEMA_VERSION)
  {
  }

  lemma DeviceRowIsPlain(d: DiscoveryDevice)
    requires WellFormedDevice(d)
    ensures PlainRow(DeviceColumns(d))
  {
    TagsArePlain();
    IndexReturns(d.index);
    OptReturns(d.uuid);
    OptReturns(d.pciBusId);
    OptReturns(d.driverVersion);
    OptReturns(d.message);
    hide IsPlain, PrintInt, ParseOptI64, IsPlainOpt, EmptyToOpt;
  }

  lemma DeviceKindReturns(d: DiscoveryDevice)
    ensures var row := DeviceColumns(d); KindOf(row) == DeviceRow && DeviceKey(row) == EmptyToOpt(d.deviceKey)
  {
    hide EmptyToOpt, PrintInt;
  }

  lemma DeviceFieldsReturn(d: DiscoveryDevice)
    requires WellFormedDevice(d)
    ensures DeviceOf(DeviceColumns(d)) == d
  {
    PlainTrims(d.deviceKey);
    PlainTrims(d.vendor);
    PlainTrims(d.name);
    IndexReturns(d.index);
    OptReturns(d.uuid);
    OptReturns(d.pciBusId);
    OptReturns(d.driverVersion);
    OptReturns(d.message);
    hide IsPlain, PrintInt, ParseOptI64, IsPlainOpt, EmptyToOpt, Trim;
  }

  lemma DeviceReturns(d: DiscoveryDevice)
    requires WellFormedDevice(d)
    ensures var row := DeviceColumns(d);
            && PlainRow(row) && KindOf(row) == DeviceRow && DeviceKey(row) == Some(d.deviceKey) && |row| == 10 &&
               DeviceOf(row) == d
  {
    DeviceRowIsPlain(d);
    DeviceKindReturns(d);
    DeviceFieldsReturn(d);
    OptReturns(Some(d.deviceKey));
    hide DeviceOf, DeviceKey, KindOf, PlainRow, EmptyToOpt, IsPlain;
  }

  lemma SampleRowIsPlain(m: MetricSample)
    requires WellFormedSample(m)
    ensures PlainRow(SampleColumns(m))
  {
    TagsArePlain();
    SampleNumeralsReturn(m);
    OptReturns(m.message);
    hide IsPlain, FloatText, ParseOptF64, IsPlainOpt, EmptyToOpt, IsNumeral;
  }

  predicate NumeralReturns(f: Option<Float>) {
    IsPlain(FloatText(f)) && ParseOptF64(FloatText(f)) == f
  }

  lemma SampleNumeralsReturn(m: MetricSample)
    requires WellFormedSample(m)
    ensures NumeralReturns(m.memoryTotalMb) && NumeralReturns(m.memoryUsedMb) && NumeralReturns(m.memoryFreeMb)
    ensures NumeralReturns(m.utilizationPercent) && NumeralReturns(m.memoryUtilizationPercent)
    ensures NumeralReturns(m.temperatureC) && NumeralReturns(m.powerW)
  {
    FloatReturns(m.memoryTotalMb);
    FloatReturns(m.memoryUsedMb);
    FloatReturns(m.memoryFreeMb);
    FloatReturns(m.utilizationPercent);
    FloatReturns(m.memoryUtilizationPercent);
    FloatReturns(m.temperatureC);
    FloatReturns(m.powerW);
    hide IsPlain, FloatText, ParseOptF64, IsPlainOpt, IsNumeral;
  }

  lemma SampleKindReturns(m: MetricSample)
    ensures var row := SampleColumns(m); KindOf(row) == MetricRow && MetricKey(row) == EmptyToOpt(m.deviceKey)
  {
    hide EmptyToOpt, FloatText;
  }

  lemma SampleFieldsReturn(m: MetricSample)
    requires WellFormedSample(m)
    ensures SampleOf(SampleColumns(m)) == m && IsHealthy(SampleColumns(m))
  {
    PlainTrims(m.deviceKey);
    PlainTrims(m.healthStatus);
    SampleNumeralsReturn(m);
    OptReturns(m.message);
    hide IsPlain, FloatText, ParseOptF64, IsPlainOpt, EmptyToOpt, Trim, IsNumeral;
  }

  lemma SampleReturns(m: MetricSample)
    requires WellFormedSample(m)
    ensures var row := SampleColumns(m);
            && PlainRow(row) && KindOf(row) == MetricRow && MetricKey(row) == Some(m.deviceKey) && IsHealthy(row) &&
               |row| == 12
            && SampleOf(row) == m
  {
    SampleRowIsPlain(m);
    SampleKindReturns(m);
    SampleFieldsReturn(m);
    OptReturns(Some(m.deviceKey));
    hide SampleOf, MetricKey, KindOf, PlainRow, EmptyToOpt, IsPlain, IsHealthy;
  }

  // ---------------------------------------------------------------- reports

  lemma FrontIsWellFormed(p: Parsed<DiscoveryDevice>)
    requires WellFormedDiscovery(p) && p.rows != []
    ensures var last := p.rows[|p.rows| - 1];
            && WellFormedDiscovery(p.(rows := p.rows[..|p.rows| - 1])) && WellFormedDevice(last)
            && last.deviceKey !in DeviceKeys(p.rows[..|p.rows| - 1])
  {
    var n := |p.rows| - 1;
    forall k | 0 <= k < n ensures DeviceKeys(p.rows[..n])[k] == DeviceKeys(p.rows)[k] {}
    hide WellFormedHeader, WellFormedDevice, DeviceKeys;
  }

  lemma HeaderIsWellFormed(p: Parsed<DiscoveryDevice>)
    requires WellFormedDiscovery(p)
    ensures WellFormedHeader(p.header) && p.header.status.Some?
  {
  }

  /** The rows say what the report says. */
  ghost predicate Says(rows: seq<Columns>, p: Parsed<DiscoveryDevice>) {
    && AllPlain(rows) && FirstError(rows) == None && LastHeader(rows) == p.header && Devices(rows) == p.rows
    && (forall key :: key in KeysOf(rows, DeviceKey) <==> key in DeviceKeys(p.rows))
  }

  lemma SaysHeader(h: Header)
    requires WellFormedHeader(h)
    ensures Says(DiscoveryColumns(Parsed(h, [])), Parsed(h, []))
  {
    HeaderReturns(h);
    NothingParsed();
    var row := HeaderColumns(h);
    HeaderSnoc([], row);
    DevicesSnoc([], row);
    assert [] + [row] == [row];
    hide Devices, FirstError, LastHeader, KeysOf, HeaderColumns, PlainRow, ReadHeader, KindOf, StatusError, DeviceKey;
  }

  lemma SaysDevice(rows: seq<Columns>, front: Parsed<DiscoveryDevice>, d: DiscoveryDevice)
    requires Says(rows, front) && WellFormedDevice(d) && d.deviceKey !in DeviceKeys(front.rows)
    ensures Says(rows + [DeviceColumns(d)], front.(rows := front.rows + [d]))
  {
    DeviceReturns(d);
    HeaderSnoc(rows, DeviceColumns(d));
    DevicesSnoc(rows, DeviceColumns(d));
    DeviceKeysSnoc(front.rows, d);
    hide Devices, FirstError, LastHeader, KeysOf, DeviceKeys, DeviceColumns, DeviceKey, KindOf, WellFormedDevice,
         PlainRow, ReadHeader, DeviceOf, StatusError;
  }

  lemma DiscoveryColumnsStep(front: Parsed<DiscoveryDevice>, d: DiscoveryDevice)
    requires front.header.status.Some? && Says(DiscoveryColumns(front), front)
    requires WellFormedDevice(d) && d.deviceKey !in DeviceKeys(front.rows)
    ensures Says(DiscoveryColumns(front.(rows := front.rows + [d])), front.(rows := front.rows + [d]))
  {
    hide Says, WellFormedDevice, DeviceColumns, HeaderColumns, DeviceKeys;
    SaysDevice(DiscoveryColumns(front), front, d);
    var p := front.(rows := front.rows + [d]);
    assert p.rows[..|p.rows| - 1] == front.rows;
    assert DiscoveryColumns(p) == DiscoveryColumns(front) + [DeviceColumns(d)];
  }

  lemma {:induction false} DiscoveryColumnsReturn(p: Parsed<DiscoveryDevice>)
    requires WellFormedDiscovery(p)
    ensures p.header.status.Some? && Says(DiscoveryColumns(p), p)
    decreases |p.rows|
  {
    hide *;
    HeaderIsWellFormed(p);
    if p.rows == [] {
      SaysHeader(p.header);
    } else {
      FrontIsWellFormed(p);
      var front, d := p.(rows := p.rows[..|p.rows| - 1]), p.rows[|p.rows| - 1];
      DiscoveryColumnsReturn(front);
      DiscoveryColumnsStep(front, d);
      assert front.rows + [d] == p.rows;
    }
  }

  lemma DeviceKeysSnoc(front: seq<DiscoveryDevice>, d: DiscoveryDevice)
    ensures DeviceKeys(front + [d]) == DeviceKeys(front) + [d.deviceKey]
  {
    hide DeviceKeys;
  }

  function PrintDiscovery(p: Parsed<DiscoveryDevice>): string
    requires p.header.status.Some?
  {
    DiscoveryColumnsNotEmpty(p);
    PrintRows(DiscoveryColumns(p))
  }

  lemma DiscoveryColumnsNotEmpty(p: Parsed<DiscoveryDevice>)
    requires p.header.status.Some?
    ensures forall i :: 0 <= i < |DiscoveryColumns(p)| ==> |DiscoveryColumns(p)[i]| >= 1
    decreases |p.rows|
  {
  }

  /** Printing a well-formed discovery report and parsing the text gives the report back. */
  lemma DiscoveryReturns(p: Parsed<DiscoveryDevice>)
    requires WellFormedDiscovery(p)
    ensures DiscoveryOf(PrintDiscovery(p)) == Success(p)
  {
    DiscoveryColumnsReturn(p);
    DiscoveryColumnsNotEmpty(p);
    RowsReturn(DiscoveryColumns(p));
    hide Devices, FirstError, LastHeader, Lines, PrintRows, DiscoveryColumns, KeysOf;
  }

  // The same for metrics reports.

  lemma FrontIsWellFormedMetrics(p: Parsed<MetricSample>)
    requires WellFormedMetrics(p) && p.rows != []
    ensures var last := p.rows[|p.rows| - 1];
            && WellFormedMetrics(p.(rows := p.rows[..|p.rows| - 1])) && WellFormedSample(last)
            && last.deviceKey !in SampleKeys(p.rows[..|p.rows| - 1])
  {
    var n := |p.rows| - 1;
    forall k | 0 <= k < n ensures SampleKeys(p.rows[..n])[k] == SampleKeys(p.rows)[k] {}
    hide WellFormedHeader, WellFormedSample, SampleKeys;
  }

  lemma HeaderIsWellFormedMetrics(p: Parsed<MetricSample>)
    requires WellFormedMetrics(p)
    ensures WellFormedHeader(p.header) && p.header.status.Some?
  {
  }

  ghost predicate SaysMetrics(rows: seq<Columns>, p: Parsed<MetricSample>) {
    && AllPlain(rows) && FirstError(rows) == None && LastHeader(rows) == p.header && Samples(rows) == p.rows
    && (forall key :: key in KeysOf(rows, MetricKey) <==> key in SampleKeys(p.rows))
  }

  lemma SaysMetricsHeader(h: Header)
    requires WellFormedHeader(h)
    ensures SaysMetrics(MetricsColumns(Parsed(h, [])), Parsed(h, []))
  {
    HeaderReturns(h);
    NothingParsed();
    var row := HeaderColumns(h);
    HeaderSnoc([], row);
    SamplesSnoc([], row);
    assert [] + [row] == [row];
    hide Samples, FirstError, LastHeader, KeysOf, HeaderColumns, PlainRow, ReadHeader, KindOf, StatusError, MetricKey,
         IsHealthy;
  }

  lemma SaysSample(rows: seq<Columns>, front: Parsed<MetricSample>, m: MetricSample)
    requires SaysMetrics(rows, front) && WellFormedSample(m) && m.deviceKey !in SampleKeys(front.rows)
    ensures SaysMetrics(rows + [SampleColumns(m)], front.(rows := front.rows + [m]))
  {
    SampleReturns(m);
    HeaderSnoc(rows, SampleColumns(m));
    SamplesSnoc(rows, SampleColumns(m));
    SampleKeysSnoc(front.rows, m);
    hide Samples, FirstError, LastHeader, KeysOf, SampleKeys, SampleColumns, MetricKey, KindOf, WellFormedSample,
         PlainRow, ReadHeader, SampleOf, StatusError, IsHealthy;
  }

  lemma SampleKeysSnoc(front: seq<MetricSample>, m: MetricSample)
    ensures SampleKeys(front + [m]) == SampleKeys(front) + [m.deviceKey]
  {
    hide SampleKeys;
  }

  lemma MetricsColumnsStep(front: Parsed<MetricSample>, m: MetricSample)
    requires front.header.status.Some? && SaysMetrics(MetricsColumns(front), front)
    requires WellFormedSample(m) && m.deviceKey !in SampleKeys(front.rows)
    ensures SaysMetrics(MetricsColumns(front.(rows := front.rows + [m])), front.(rows := front.rows + [m]))
  {
    hide SaysMetrics, WellFormedSample, SampleColumns, HeaderColumns, SampleKeys;
    SaysSample(MetricsColumns(front), front, m);
    var p := front.(rows := front.rows + [m]);
    assert p.rows[..|p.rows| - 1] == front.rows;
    assert MetricsColumns(p) == MetricsColumns(front) + [SampleColumns(m)];
  }

  lemma {:induction false} MetricsColumnsReturn(p: Parsed<MetricSample>)
    requires WellFormedMetrics(p)
    ensures p.header.status.Some? && SaysMetrics(MetricsColumns(p), p)
    decreases |p.rows|
  {
    hide *;
    HeaderIsWellFormedMetrics(p);
    if p.rows == [] {
      SaysMetricsHeader(p.header);
    } else {
      FrontIsWellFormedMetrics(p);
      var front, m := p.(rows := p.rows[..|p.rows| - 1]), p.rows[|p.rows| - 1];
      MetricsColumnsReturn(front);
      MetricsColumnsStep(front, m);
      assert front.rows + [m] == p.rows;
    }
  }

  function PrintMetrics(p: Parsed<MetricSample>): string
    requires p.header.status.Some?
  {
    MetricsColumnsNotEmpty(p);
    PrintRows(MetricsColumns(p))
  }

  lemma MetricsColumnsNotEmpty(p: Parsed<MetricSample>)
    requires p.header.status.Some?
    ensures forall i :: 0 <= i < |MetricsColumns(p)| ==> |MetricsColumns(p)[i]| >= 1
    decreases |p.rows|
  {
  }

  /** Printing a well-formed metrics report and parsing the text gives the report back. */
  lemma MetricsReturn(p: Parsed<MetricSample>)
    requires WellFormedMetrics(p)
    ensures MetricsOf(PrintMetrics(p)) == Success(p)
  {
    MetricsColumnsReturn(p);
    MetricsColumnsNotEmpty(p);
    RowsReturn(MetricsColumns(p));
    hide Samples, FirstError, LastHeader, Lines, PrintRows, MetricsColumns, KeysOf;
  }

  // ---------------------------------------------------------------- what parsing yields can be printed

  lemma {:induction false} LinesLackNewline(s: string)
    ensures forall line :: line in Lines(s) ==> Lacks(line, '\n')
    decreases |s|
  {
    if s != "" {
      var i := IndexOf(s, '\n');
      if i < |s| {
        LinesLackNewline(s[i + 1..]);
      }
    }
  }

  lemma {:induction false} SplitLacks(s: string, c: char, d: char)
    requires d == c || Lacks(s, d)
    ensures forall part :: part in Split(s, c) ==> Lacks(part, d)
    decreases |s|
  {
    var i := IndexOf(s, c);
    if i < |s| {
      SplitLacks(s[i + 1..], c, d);
    }
  }

  lemma {:induction false} TrimStartDrops(s: string)
    ensures |TrimStart(s)| <= |s| && TrimStart(s) == s[|s| - |TrimStart(s)|..]
  {
    if s != "" && IsWhitespace(s[0]) {
      TrimStartDrops(s[1..]);
    }
  }

  /** A field without tab and newline. */
  predicate IsField(s: string) {
    Lacks(s, '\t') && Lacks(s, '\n')
  }

  lemma TrimmedFieldIsPlain(s: string)
    requires IsField(s)
    ensures IsPlain(Trim(s)) && IsPlainOpt(EmptyToOpt(s))
  {
    TrimStartDrops(s);
    TrimEndKeepsStart(TrimStart(s));
    TrimIsTrimmed(s);
  }

  lemma NumbersOfField(s: string)
    requires IsField(s)
    ensures IsNumeral(ParseOptF64(s))
    ensures ParseOptI64(s).Some? ==> I64_MIN <= ParseOptI64(s).value <= I64_MAX
  {
    TrimmedFieldIsPlain(s);
    hide IsF64, IsPlain, Trim;
  }

  ghost predicate AllFields(row: Columns) {
    forall i :: 0 <= i < |row| ==> IsField(row[i])
  }

  lemma RowsHaveFields(tsv: string)
    ensures forall row :: row in RowsOf(Lines(tsv)) ==> AllFields(row)
  {
    LinesLackNewline(tsv);
    var lines := Lines(tsv);
    forall row | row in RowsOf(lines) ensures AllFields(row) {
      var i :| 0 <= i < |lines| && RowsOf(lines)[i] == row;
      assert lines[i] in lines;
      var line := TrimLineEnd(lines[i]);
      SplitLacks(line, '\t', '\t');
      SplitLacks(line, '\t', '\n');
      assert forall k :: 0 <= k < |row| ==> row[k] in Split(line, '\t');
    }
  }

  lemma {:induction false} LastHeaderIsWellFormed(rows: seq<Columns>)
    requires forall row :: row in rows ==> AllFields(row)
    ensures LastHeader(rows).status.Some? ==> WellFormedHeader(LastHeader(rows))
  {
    if rows != [] {
      LastHeaderIsWellFormed(rows[..|rows| - 1]);
      var row := rows[|rows| - 1];
      assert AllFields(row);
      if ReadHeader(row).Success? {
        TrimmedFieldIsPlain(row[3]);
        TrimmedFieldIsPlain(row[4]);
        TrimmedFieldIsPlain(row[5]);
        hide IsPlainOpt, EmptyToOpt, KindOf;
      }
    }
  }

  lemma DeviceIsWellFormed(row: Columns)
    requires AllFields(row) && |row| == 10 && Trim(row[2]) != ""
    ensures WellFormedDevice(DeviceOf(row))
  {
    forall i | 2 <= i < 10 ensures IsPlain(Trim(row[i])) && IsPlainOpt(EmptyToOpt(row[i])) {
      TrimmedFieldIsPlain(row[i]);
    }
    NumbersOfField(row[4]);
    hide Trim, IsPlain, IsPlainOpt, EmptyToOpt, ParseOptI64, IsField;
  }

  lemma SampleIsWellFormed(row: Columns)
    requires AllFields(row) && |row| == 12 && Trim(row[2]) != "" && IsHealthy(row)
    ensures WellFormedSample(SampleOf(row))
  {
    TrimmedFieldIsPlain(row[2]);
    TrimmedFieldIsPlain(row[10]);
    TrimmedFieldIsPlain(row[11]);
    forall i | 3 <= i < 10 ensures IsNumeral(ParseOptF64(row[i])) {
      NumbersOfField(row[i]);
    }
    hide Trim, IsPlain, IsPlainOpt, EmptyToOpt, ParseOptF64, IsNumeral, IsField;
  }

  lemma {:induction false} ParsedDevicesAreWellFormed(rows: seq<Columns>)
    requires forall row :: row in rows ==> AllFields(row)
    ensures forall d :: d in Devices(rows) ==> WellFormedDevice(d)
  {
    if rows != [] {
      var front, row := rows[..|rows| - 1], rows[|rows| - 1];
      ParsedDevicesAreWellFormed(front);
      if DeviceKey(row).Some? {
        DeviceIsWellFormed(row);
      }
      hide WellFormedDevice, AllFields, DeviceKey, DeviceOf;
      assert rows == front + [row];
      DevicesSnoc(front, row);
    }
  }

  lemma {:induction false} ParsedSamplesAreWellFormed(rows: seq<Columns>)
    requires forall row :: row in rows ==> AllFields(row)
    ensures forall m :: m in Samples(rows) ==> WellFormedSample(m)
  {
    if rows != [] {
      var front, row := rows[..|rows| - 1], rows[|rows| - 1];
      ParsedSamplesAreWellFormed(front);
      if MetricKey(row).Some? && IsHealthy(row) {
        SampleIsWellFormed(row);
      }
      hide WellFormedSample, AllFields, MetricKey, SampleOf, IsHealthy;
      assert rows == front + [row];
      SamplesSnoc(front, row);
    }
  }

  /** For every text that parses: the report is well-formed, and printing it and parsing again changes nothing. */
  lemma ParsedDiscoveryReturns(tsv: string)
    requires DiscoveryOf(tsv).Success?
    ensures WellFormedDiscovery(DiscoveryOf(tsv).value) &&
            DiscoveryOf(PrintDiscovery(DiscoveryOf(tsv).value)) == DiscoveryOf(tsv)
  {
    var rows := RowsOf(Lines(tsv));
    RowsHaveFields(tsv);
    LastHeaderIsWellFormed(rows);
    ParsedDevicesAreWellFormed(rows);
    ParsedKeysAreUnique(rows);
    hide AllFields, WellFormedHeader, WellFormedDevice, UniqueKeys, DeviceKeys, SampleKeys, Samples, Devices, Lines;
    DiscoveryReturns(DiscoveryOf(tsv).value);
  }

  lemma ParsedMetricsReturn(tsv: string)
    requires MetricsOf(tsv).Success?
    ensures WellFormedMetrics(MetricsOf(tsv).value) && MetricsOf(PrintMetrics(MetricsOf(tsv).value)) == MetricsOf(tsv)
  {
    var rows := RowsOf(Lines(tsv));
    RowsHaveFields(tsv);
    LastHeaderIsWellFormed(rows);
    ParsedSamplesAreWellFormed(rows);
    ParsedKeysAreUnique(rows);
    hide AllFields, WellFormedHeader, WellFormedSample, UniqueKeys, DeviceKeys, SampleKeys, Samples, Devices, Lines;
    MetricsReturn(MetricsOf(tsv).value);
  }
}
