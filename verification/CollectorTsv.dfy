/** The tab-separated reports of GPU collector scripts: parsing, and the join of discovery and metrics. */
module CollectorTsv {
  import opened Options
  import opened Text

  type Columns = seq<string>

  datatype CollectorStatus = Ok | NotAvailable | Partial | Error

  datatype Header = Header(status: Option<CollectorStatus>, vendor: Option<string>, collector: Option<string>,
                           message: Option<string>)

  datatype DiscoveryDevice = DiscoveryDevice(
    deviceKey: string, vendor: string, index: Option<int>, name: string, uuid: Option<string>, pciBusId: Option<string>,
    driverVersion: Option<string>, message: Option<string>)

  datatype MetricSample = MetricSample(
    deviceKey: string, memoryTotalMb: Option<Float>, memoryUsedMb: Option<Float>, memoryFreeMb: Option<Float>,
    utilizationPercent: Option<Float>, memoryUtilizationPercent: Option<Float>, temperatureC: Option<Float>,
    powerW: Option<Float>, healthStatus: string, message: Option<string>)

  /** A parsed report; its header has a status. */
  datatype Parsed<T> = Parsed(header: Header, rows: seq<T>)

  datatype ParseError =
    ColumnCount(n: nat) | SchemaVersion(version: string) | UnknownStatus(status: string) | MissingStatus

  datatype Result<T> = Success(value: T) | Failure(error: ParseError)

  const NO_HEADER := Header(None, None, None, None)

  function ParseStatus(value: string): Option<CollectorStatus> {
    match value
    case "ok" => Some(Ok)
    case "not_available" => Some(NotAvailable)
    case "partial" => Some(Partial)
    case "error" => Some(Error)
    case _ => None
  }

  // ---------------------------------------------------------------- what the rows say

  function RowsOf(lines: seq<string>): (rows: seq<Columns>)
    ensures |rows| == |lines|
    ensures forall i :: 0 <= i < |rows| ==> rows[i] == Split(TrimLineEnd(lines[i]), '\t')
  {
    if lines == [] then [] else RowsOf(lines[..|lines| - 1]) + [Split(TrimLineEnd(lines[|lines| - 1]), '\t')]
  }

  datatype Kind = StatusRow | DeviceRow | MetricRow | OtherRow

  function KindOf(row: Columns): Kind {
    if row == [] then OtherRow
    else
      match row[0]
      case "STATUS" => StatusRow
      case "DEVICE" => DeviceRow
      case "METRIC" => MetricRow
      case _ => OtherRow
  }

  const SCHEMA_VERSION := "1"

  function ReadHeader(row: Columns): Result<Header> {
    if |row| != 6 then Failure(ColumnCount(|row|))
    else if row[1] != SCHEMA_VERSION then Failure(SchemaVersion(row[1]))
    else if ParseStatus(row[2]) == None then Failure(UnknownStatus(row[2]))
    else Success(Header(ParseStatus(row[2]), EmptyToOpt(row[3]), EmptyToOpt(row[4]), EmptyToOpt(row[5])))
  }

  function StatusError(row: Columns): Option<ParseError> {
    if KindOf(row) == StatusRow && ReadHeader(row).Failure? then Some(ReadHeader(row).error) else None
  }

  /** The first malformed status row decides the error. */
  function FirstError(rows: seq<Columns>): Option<ParseError> {
    if rows == [] then None else FirstError(rows[..|rows| - 1]).Or(StatusError(rows[|rows| - 1]))
  }

  /** The last status row decides the header. */
  function LastHeader(rows: seq<Columns>): Header {
    if rows == [] then NO_HEADER
    else
      var row := rows[|rows| - 1];
      if KindOf(row) == StatusRow && ReadHeader(row).Success? then ReadHeader(row).value
      else LastHeader(rows[..|rows| - 1])
  }

  /** The key a row stakes a claim on: a row of the kind, with all its columns, of schema 1. */
  function ClaimedKey(row: Columns, kind: Kind, width: nat): Option<string> {
    if KindOf(row) == kind && |row| == width && width > 2 && row[1] == SCHEMA_VERSION then EmptyToOpt(row[2]) else None
  }

  function DeviceKey(row: Columns): Option<string> {
    ClaimedKey(row, DeviceRow, 10)
  }

  function MetricKey(row: Columns): Option<string> {
    ClaimedKey(row, MetricRow, 12)
  }

  /** The row names a key that no earlier row named. */
  predicate IsFirstClaim(front: seq<Columns>, row: Columns, key: Columns -> Option<string>) {
    key(row).Some? && forall earlier :: earlier in front ==> key(earlier) != key(row)
  }

  function DeviceOf(row: Columns): DiscoveryDevice
    requires |row| == 10
  {
    DiscoveryDevice(Trim(row[2]), Trim(row[3]), ParseOptI64(row[4]), Trim(row[5]), EmptyToOpt(row[6]),
                    EmptyToOpt(row[7]),
                    EmptyToOpt(row[8]), EmptyToOpt(row[9]))
  }

  function SampleOf(row: Columns): MetricSample
    requires |row| == 12
  {
    MetricSample(Trim(row[2]), ParseOptF64(row[3]), ParseOptF64(row[4]), ParseOptF64(row[5]), ParseOptF64(row[6]),
                 ParseOptF64(row[7]), ParseOptF64(row[8]), ParseOptF64(row[9]), Trim(row[10]), EmptyToOpt(row[11]))
  }

  function Devices(rows: seq<Columns>): seq<DiscoveryDevice> {
    if rows == [] then []
    else
      var front, row := rows[..|rows| - 1], rows[|rows| - 1];
      if IsFirstClaim(front, row, DeviceKey) then Devices(front) + [DeviceOf(row)] else Devices(front)
  }

  predicate IsHealthy(row: Columns) {
    |row| == 12 && Trim(row[10]) != ""
  }

  function Samples(rows: seq<Columns>): seq<MetricSample> {
    if rows == [] then []
    else
      var front, row := rows[..|rows| - 1], rows[|rows| - 1];
      if IsFirstClaim(front, row, MetricKey) && IsHealthy(row) then Samples(front) + [SampleOf(row)] else Samples(front)
  }

  function Report<T>(rows: seq<Columns>, entries: seq<T>): Result<Parsed<T>> {
    if FirstError(rows).Some? then Failure(FirstError(rows).value)
    else if LastHeader(rows).status.None? then Failure(MissingStatus)
    else Success(Parsed(LastHeader(rows), entries))
  }

  function DiscoveryOf(tsv: string): Result<Parsed<DiscoveryDevice>> {
    var rows := RowsOf(Lines(tsv));
    Report(rows, Devices(rows))
  }

  function MetricsOf(tsv: string): Result<Parsed<MetricSample>> {
    var rows := RowsOf(Lines(tsv));
    Report(rows, Samples(rows))
  }

  // ---------------------------------------------------------------- parsing

  method ReadDevice(cols: Columns, seenKeys: set<string>) returns (device: Option<DiscoveryDevice>)
    requires KindOf(cols) == DeviceRow
    ensures if DeviceKey(cols).Some? && DeviceKey(cols).value !in seenKeys then
              device.Some? && device.value.deviceKey == DeviceKey(cols).value && device.value == DeviceOf(cols)
            else device.None?
  {
    if |cols| != 10 || cols[1] != SCHEMA_VERSION {
      return None;
    }
    var deviceKey := Trim(cols[2]);
    if deviceKey == "" || deviceKey in seenKeys {
      return None;
    }
    device := Some(DiscoveryDevice(deviceKey, Trim(cols[3]), ParseOptI64(cols[4]), Trim(cols[5]), EmptyToOpt(cols[6]),
                                   EmptyToOpt(cols[7]), EmptyToOpt(cols[8]), EmptyToOpt(cols[9])));
  }

  /** `claimed` is the key the row newly marks as seen, with or without a sample. */
  method ReadMetric(cols: Columns, seenKeys: set<string>)
    returns (claimed: Option<string>, sample: Option<MetricSample>)
    requires KindOf(cols) == MetricRow
    ensures claimed == if MetricKey(cols).Some? && MetricKey(cols).value !in seenKeys then MetricKey(cols) else None
    ensures if claimed.Some? && IsHealthy(cols) then sample.Some? && sample.value == SampleOf(cols) else sample.None?
  {
    if |cols| != 12 || cols[1] != SCHEMA_VERSION {
      return None, None;
    }
    var deviceKey := Trim(cols[2]);
    if deviceKey == "" || deviceKey in seenKeys {
      return None, None;
    }
    var healthStatus := Trim(cols[10]);
    if healthStatus == "" {
      return Some(deviceKey), None;
    }
    claimed := Some(deviceKey);
    sample := Some(MetricSample(deviceKey, ParseOptF64(cols[3]), ParseOptF64(cols[4]), ParseOptF64(cols[5]),
                                ParseOptF64(cols[6]), ParseOptF64(cols[7]), ParseOptF64(cols[8]), ParseOptF64(cols[9]),
                                healthStatus, EmptyToOpt(cols[11])));
  }

  method ParseDiscovery(tsv: string) returns (r: Result<Parsed<DiscoveryDevice>>)
    ensures r == DiscoveryOf(tsv)
  {
    var lines := Lines(tsv);
    ghost var rows := RowsOf(lines);
    hide KindOf, DeviceKey, DeviceOf, Devices, FirstError, LastHeader, StatusError, ReadHeader, IsFirstClaim, KeysOf,
         Lines, TrimLineEnd, Split;
    NothingParsed();
    var header := NO_HEADER;
    var devices: seq<DiscoveryDevice> := [];
    var seenKeys: set<string> := {};
    for n := 0 to |lines|
      invariant FirstError(rows[..n]) == None && LastHeader(rows[..n]) == header
      invariant devices == Devices(rows[..n]) && seenKeys == KeysOf(rows[..n], DeviceKey)
    {
      assert rows[..n + 1] == rows[..n] + [rows[n]];
      DevicesSnoc(rows[..n], rows[n]);
      HeaderSnoc(rows[..n], rows[n]);
      var line := TrimLineEnd(lines[n]);
      if line == "" {
        EmptyLineIsOther();
        continue;
      }
      var cols := Split(line, '\t');
      match KindOf(cols) {
        case StatusRow =>
          var read := ReadHeader(cols);
          if read.Failure? {
            FirstErrorStays(rows, n + 1);
            return Failure(read.error);
          }
          header := read.value;
        case DeviceRow =>
          var device := ReadDevice(cols, seenKeys);
          if device.Some? {
            seenKeys := seenKeys + {device.value.deviceKey};
            devices := devices + [device.value];
          }
        case _ =>
      }
    }
    assert rows[..|lines|] == rows;
    r := if header.status.None? then Failure(MissingStatus) else Success(Parsed(header, devices));
  }

  method ParseMetrics(tsv: string) returns (r: Result<Parsed<MetricSample>>)
    ensures r == MetricsOf(tsv)
  {
    var lines := Lines(tsv);
    ghost var rows := RowsOf(lines);
    hide KindOf, MetricKey, SampleOf, Samples, FirstError, LastHeader, StatusError, ReadHeader, IsFirstClaim, KeysOf,
         IsHealthy, Lines, TrimLineEnd, Split;
    NothingParsed();
    var header := NO_HEADER;
    var samples: seq<MetricSample> := [];
    var seenKeys: set<string> := {};
    for n := 0 to |lines|
      invariant FirstError(rows[..n]) == None && LastHeader(rows[..n]) == header
      invariant samples == Samples(rows[..n]) && seenKeys == KeysOf(rows[..n], MetricKey)
    {
      assert rows[..n + 1] == rows[..n] + [rows[n]];
      SamplesSnoc(rows[..n], rows[n]);
      HeaderSnoc(rows[..n], rows[n]);
      var line := TrimLineEnd(lines[n]);
      if line == "" {
        EmptyLineIsOther();
        continue;
      }
      var cols := Split(line, '\t');
      match KindOf(cols) {
        case StatusRow =>
          var read := ReadHeader(cols);
          if read.Failure? {
            FirstErrorStays(rows, n + 1);
            return Failure(read.error);
          }
          header := read.value;
        case MetricRow =>
          var claimed, sample := ReadMetric(cols, seenKeys);
          if claimed.Some? {
            seenKeys := seenKeys + {claimed.value};
          }
          if sample.Some? {
            samples := samples + [sample.value];
          }
        case _ =>
      }
    }
    assert rows[..|lines|] == rows;
    r := if header.status.None? then Failure(MissingStatus) else Success(Parsed(header, samples));
  }

  lemma NothingParsed()
    ensures FirstError([]) == None && LastHeader([]) == NO_HEADER && Devices([]) == [] && Samples([]) == []
    ensures KeysOf([], DeviceKey) == {} && KeysOf([], MetricKey) == {}
  {
  }

  lemma EmptyLineIsOther()
    ensures KindOf(Split("", '\t')) == OtherRow
  {
  }

  ghost function KeysOf(rows: seq<Columns>, key: Columns -> Option<string>): set<string> {
    set row | row in rows && key(row).Some? :: key(row).value
  }

  lemma {:induction false} FirstErrorStays(rows: seq<Columns>, n: nat)
    requires n <= |rows| && FirstError(rows[..n]).Some?
    ensures FirstError(rows) == FirstError(rows[..n])
    decreases |rows| - n
  {
    if n == |rows| {
      assert rows[..n] == rows;
    } else {
      assert rows[..n + 1][..n] == rows[..n];
      FirstErrorStays(rows, n + 1);
    }
  }

  /** A claim is first exactly when its key has not been seen. */
  lemma KeysSnoc(front: seq<Columns>, row: Columns, key: Columns -> Option<string>)
    ensures KeysOf(front + [row], key) == KeysOf(front, key) + (if key(row).Some? then {key(row).value} else {})
    ensures key(row).Some? ==> (IsFirstClaim(front, row, key) <==> key(row).value !in KeysOf(front, key))
  {
    var longer := front + [row];
    assert forall r :: r in longer <==> r in front || r == row;
  }

  lemma HeaderSnoc(front: seq<Columns>, row: Columns)
    ensures FirstError(front + [row]) == FirstError(front).Or(StatusError(row))
    ensures StatusError(row) == if KindOf(row) == StatusRow && ReadHeader(row).Failure? then Some(ReadHeader(row).error)
                                else None
    ensures LastHeader(front + [row]) ==
              if KindOf(row) == StatusRow && ReadHeader(row).Success? then ReadHeader(row).value else LastHeader(front)
  {
    assert (front + [row])[..|front|] == front;
  }

  lemma DevicesSnoc(front: seq<Columns>, row: Columns)
    ensures KindOf(row) != DeviceRow ==> DeviceKey(row) == None
    ensures var newKey := if DeviceKey(row).Some? then {DeviceKey(row).value} - KeysOf(front, DeviceKey) else {};
            && KeysOf(front + [row], DeviceKey) == KeysOf(front, DeviceKey) + newKey
            && (newKey != {} ==> |row| == 10 && Devices(front + [row]) == Devices(front) + [DeviceOf(row)])
            && (newKey == {} ==> Devices(front + [row]) == Devices(front))
  {
    assert (front + [row])[..|front|] == front;
    KeysSnoc(front, row, DeviceKey);
    hide KeysOf, IsFirstClaim;
  }

  lemma SamplesSnoc(front: seq<Columns>, row: Columns)
    ensures KindOf(row) != MetricRow ==> MetricKey(row) == None
    ensures IsHealthy(row) ==> |row| == 12
    ensures var newKey := if MetricKey(row).Some? then {MetricKey(row).value} - KeysOf(front, MetricKey) else {};
            && KeysOf(front + [row], MetricKey) == KeysOf(front, MetricKey) + newKey
            && (newKey != {} && IsHealthy(row) ==> Samples(front + [row]) == Samples(front) + [SampleOf(row)])
            && (newKey == {} || !IsHealthy(row) ==> Samples(front + [row]) == Samples(front))
  {
    assert (front + [row])[..|front|] == front;
    KeysSnoc(front, row, MetricKey);
    hide KeysOf, IsFirstClaim;
  }

  // ---------------------------------------------------------------- what parsing guarantees

  /** Positions of the rows that are the first to name their key, in order. */
  ghost predicate AreFirstClaims(rows: seq<Columns>, key: Columns -> Option<string>, keep: Columns -> bool,
                                 at: seq<nat>)
  {
    && (forall k :: 0 <= k < |at| ==>
          at[k] < |rows| && IsFirstClaim(rows[..at[k]], rows[at[k]], key) && keep(rows[at[k]]))
    && (forall k, m :: 0 <= k < m < |at| ==> at[k] < at[m])
    && (forall i :: 0 <= i < |rows| && IsFirstClaim(rows[..i], rows[i], key) && keep(rows[i]) ==> i in at)
  }

  /** The device is that of the row, column by column. */
  predicate IsDeviceOf(d: DiscoveryDevice, row: Columns) {
    && |row| == 10 && d.deviceKey == Trim(row[2]) && d.vendor == Trim(row[3]) && d.index == ParseOptI64(row[4])
    && d.name == Trim(row[5]) && d.uuid == EmptyToOpt(row[6]) && d.pciBusId == EmptyToOpt(row[7])
    && d.driverVersion == EmptyToOpt(row[8]) && d.message == EmptyToOpt(row[9])
  }

  /** The sample is that of the row, column by column. */
  predicate IsSampleOf(m: MetricSample, row: Columns) {
    && |row| == 12 && m.deviceKey == Trim(row[2]) && m.memoryTotalMb == ParseOptF64(row[3])
    && m.memoryUsedMb == ParseOptF64(row[4]) && m.memoryFreeMb == ParseOptF64(row[5])
    && m.utilizationPercent == ParseOptF64(row[6]) && m.memoryUtilizationPercent == ParseOptF64(row[7])
    && m.temperatureC == ParseOptF64(row[8]) && m.powerW == ParseOptF64(row[9])
    && m.healthStatus == Trim(row[10]) && m.message == EmptyToOpt(row[11])
  }

  /** Which rows name which key: ten columns behind "DEVICE", twelve behind "METRIC", schema 1, and a key that is not
      blank; and a sample needs a health that is not blank. */
  lemma ClaimsExactly(row: Columns, key: string)
    ensures DeviceKey(row) == Some(key) <==>
              |row| == 10 && row[0] == "DEVICE" && row[1] == "1" && key == Trim(row[2]) != ""
    ensures MetricKey(row) == Some(key) <==>
              |row| == 12 && row[0] == "METRIC" && row[1] == "1" && key == Trim(row[2]) != ""
    ensures MetricKey(row) == Some(key) ==> (IsHealthy(row) <==> Trim(row[10]) != "")
  {
  }

  /** What a status row is read as: six columns, then schema 1, then one of four words; or else the first of these that
      it misses. */
  lemma StatusRowIs(row: Columns)
    ensures KindOf(row) == StatusRow <==> row != [] && row[0] == "STATUS"
    ensures match ReadHeader(row)
            case Success(h) =>
              && IsValidStatus(row)
              && h.status == Some(match row[2] case "ok" => Ok case "not_available" => NotAvailable
                                               case "partial" => Partial case _ => Error)
              && h.vendor == EmptyToOpt(row[3]) && h.collector == EmptyToOpt(row[4]) && h.message == EmptyToOpt(row[5])
            case Failure(e) =>
              && !IsValidStatus(row)
              && e == if |row| != 6 then ColumnCount(|row|)
                      else if row[1] != "1" then SchemaVersion(row[1]) else UnknownStatus(row[2])
  {
  }

  /** Row `n` is the first malformed status row, and `e` is what is wrong with it. */
  ghost predicate IsFirstMalformed(rows: seq<Columns>, n: int, e: ParseError) {
    && 0 <= n < |rows| && KindOf(rows[n]) == StatusRow && ReadHeader(rows[n]) == Failure(e)
    && forall m :: 0 <= m < n && KindOf(rows[m]) == StatusRow ==> ReadHeader(rows[m]).Success?
  }

  /** Row `n` is the last status row, and reads as the header. */
  ghost predicate IsLastStatus(rows: seq<Columns>, n: int, h: Header) {
    && 0 <= n < |rows| && KindOf(rows[n]) == StatusRow && ReadHeader(rows[n]) == Success(h)
    && forall m :: n < m < |rows| ==> KindOf(rows[m]) != StatusRow
  }

  ghost predicate NoneMalformed(rows: seq<Columns>) {
    forall n :: 0 <= n < |rows| && KindOf(rows[n]) == StatusRow ==> ReadHeader(rows[n]).Success?
  }

  ghost predicate NoStatus(rows: seq<Columns>) {
    forall n :: 0 <= n < |rows| ==> KindOf(rows[n]) != StatusRow
  }

  /** The report as a whole: the first malformed status row is the error, a report without status row is one too, and
      the last status row gives the header. */
  lemma ReportExactly<T>(rows: seq<Columns>, entries: seq<T>)
    ensures match Report(rows, entries)
            case Success(p) => p.rows == entries && NoneMalformed(rows) && exists n :: IsLastStatus(rows, n, p.header)
            case Failure(e) => (e == MissingStatus && NoStatus(rows)) || exists n :: IsFirstMalformed(rows, n, e)
  {
    FirstErrorIs(rows);
    LastHeaderIs(rows);
    hide FirstError, LastHeader, NoneMalformed, NoStatus, IsLastStatus, IsFirstMalformed;
  }

  lemma {:induction false} FirstErrorIs(rows: seq<Columns>)
    ensures match FirstError(rows)
            case None => NoneMalformed(rows)
            case Some(e) => exists n :: IsFirstMalformed(rows, n, e)
  {
    hide KindOf, ReadHeader;
    if rows != [] {
      var front, row := rows[..|rows| - 1], rows[|rows| - 1];
      FirstErrorIs(front);
      if FirstError(front).None? {
        forall n | 0 <= n < |front| && KindOf(rows[n]) == StatusRow ensures ReadHeader(rows[n]).Success? {
          assert front[n] == rows[n];
        }
        assert FirstError(rows) == StatusError(row);
        if StatusError(row).Some? {
          assert IsFirstMalformed(rows, |front|, StatusError(row).value);
        }
      } else {
        var n :| IsFirstMalformed(front, n, FirstError(front).value);
        assert FirstError(rows) == FirstError(front);
        assert IsFirstMalformed(rows, n, FirstError(rows).value);
      }
    }
  }

  lemma {:induction false} LastHeaderIs(rows: seq<Columns>)
    ensures FirstError(rows).None? ==>
              if LastHeader(rows).status.None? then NoStatus(rows)
              else exists n :: IsLastStatus(rows, n, LastHeader(rows))
  {
    if rows != [] {
      var front, row := rows[..|rows| - 1], rows[|rows| - 1];
      LastHeaderIs(front);
      StatusRowExactly(row);
      hide KindOf, ReadHeader;
      if FirstError(rows).None? {
        if KindOf(row) == StatusRow {
          assert IsLastStatus(rows, |front|, LastHeader(rows));
        } else if n :| IsLastStatus(front, n, LastHeader(front)) {
          assert IsLastStatus(rows, n, LastHeader(front));
        }
      }
    }
  }

  predicate Always(row: Columns) {
    true
  }

  lemma AreFirstClaimsSnoc(front: seq<Columns>, row: Columns, key: Columns -> Option<string>, keep: Columns -> bool,
                           at: seq<nat>)
    requires AreFirstClaims(front, key, keep, at)
    ensures AreFirstClaims(front + [row], key, keep,
                           if IsFirstClaim(front, row, key) && keep(row) then at + [|front|] else at)
  {
    var rows := front + [row];
    forall i | 0 <= i <= |front| ensures rows[..i] == front[..i] {}
    assert front[..|front|] == front;
    forall i | 0 <= i < |front| && IsFirstClaim(rows[..i], rows[i], key) && keep(rows[i]) ensures i in at {
      assert rows[i] == front[i];
    }
    hide IsFirstClaim;
  }

  ghost function FirstClaims(rows: seq<Columns>, key: Columns -> Option<string>, keep: Columns -> bool): seq<nat> {
    if rows == [] then []
    else
      var n := |rows| - 1;
      FirstClaims(rows[..n], key, keep) + if IsFirstClaim(rows[..n], rows[n], key) && keep(rows[n]) then [n] else []
  }

  lemma {:induction false} FirstClaimsAreFirst(rows: seq<Columns>, key: Columns -> Option<string>,
                                               keep: Columns -> bool)
    ensures AreFirstClaims(rows, key, keep, FirstClaims(rows, key, keep))
  {
    if rows != [] {
      var n := |rows| - 1;
      FirstClaimsAreFirst(rows[..n], key, keep);
      AreFirstClaimsSnoc(rows[..n], rows[n], key, keep, FirstClaims(rows[..n], key, keep));
      assert rows == rows[..n] + [rows[n]];
      hide AreFirstClaims, IsFirstClaim;
      var at := FirstClaims(rows[..n], key, keep);
      assert at + [] == at;
    }
  }

  ghost predicate DevicesAt(rows: seq<Columns>, at: seq<nat>, devices: seq<DiscoveryDevice>) {
    |devices| == |at| && forall k :: 0 <= k < |at| ==>
      at[k] < |rows| && IsDeviceOf(devices[k], rows[at[k]])
  }

  lemma {:induction false} DevicesAtClaims(rows: seq<Columns>)
    ensures DevicesAt(rows, FirstClaims(rows, DeviceKey, Always), Devices(rows))
  {
    if rows != [] {
      var n := |rows| - 1;
      DevicesAtClaims(rows[..n]);
      assert IsFirstClaim(rows[..n], rows[n], DeviceKey) ==> IsDeviceOf(DeviceOf(rows[n]), rows[n]);
      hide IsFirstClaim, DeviceOf, IsDeviceOf;
    }
  }

  /** The devices are those of the rows that first name their key, in the order of the rows: the first row wins. */
  lemma DevicesAreFirstClaims(rows: seq<Columns>)
    ensures exists at :: AreFirstClaims(rows, DeviceKey, Always, at) && DevicesAt(rows, at, Devices(rows))
  {
    FirstClaimsAreFirst(rows, DeviceKey, Always);
    DevicesAtClaims(rows);
    hide *;
  }

  ghost predicate SamplesAt(rows: seq<Columns>, at: seq<nat>, samples: seq<MetricSample>) {
    |samples| == |at| && forall k :: 0 <= k < |at| ==>
      at[k] < |rows| && IsSampleOf(samples[k], rows[at[k]])
  }

  lemma {:induction false} SamplesAtClaims(rows: seq<Columns>)
    ensures SamplesAt(rows, FirstClaims(rows, MetricKey, IsHealthy), Samples(rows))
  {
    if rows != [] {
      var n := |rows| - 1;
      SamplesAtClaims(rows[..n]);
      assert IsHealthy(rows[n]) ==> IsSampleOf(SampleOf(rows[n]), rows[n]);
      hide IsFirstClaim, IsHealthy, SampleOf, IsSampleOf;
    }
  }

  /** The samples are those of the rows that first name their key, when that row states a health. */
  lemma SamplesAreFirstClaims(rows: seq<Columns>)
    ensures exists at :: AreFirstClaims(rows, MetricKey, IsHealthy, at) && SamplesAt(rows, at, Samples(rows))
  {
    FirstClaimsAreFirst(rows, MetricKey, IsHealthy);
    SamplesAtClaims(rows);
    hide *;
  }

  predicate IsValidStatus(row: Columns) {
    |row| == 6 && row[1] == "1" && row[2] in {"ok", "not_available", "partial", "error"}
  }

  /** Nothing but the status rows can make a report fail: it fails exactly when one of them is malformed or there is
      none. */
  lemma {:induction false} FailsExactly(rows: seq<Columns>)
    ensures FirstError(rows).Some? || LastHeader(rows).status.None? <==>
              || (exists row :: row in rows && KindOf(row) == StatusRow && !IsValidStatus(row))
              || (forall row :: row in rows ==> KindOf(row) != StatusRow)
    ensures FirstError(rows).None? <==> forall row :: row in rows && KindOf(row) == StatusRow ==> IsValidStatus(row)
    ensures LastHeader(rows).status.Some? <==>
              exists row :: row in rows && KindOf(row) == StatusRow && IsValidStatus(row)
  {
    if rows == [] {
      NothingParsed();
    } else {
      var front, row := rows[..|rows| - 1], rows[|rows| - 1];
      FailsExactly(front);
      assert rows == front + [row];
      HeaderSnoc(front, row);
      StatusRowExactly(row);
      hide FirstError, LastHeader, ReadHeader, KindOf, IsValidStatus, StatusError;
    }
  }

  lemma StatusRowExactly(row: Columns)
    ensures ReadHeader(row).Success? <==> IsValidStatus(row)
    ensures ReadHeader(row).Success? ==> ReadHeader(row).value.status.Some?
  {
  }

  ghost predicate UniqueKeys(keys: seq<string>) {
    && (forall k :: 0 <= k < |keys| ==> keys[k] != "")
    && (forall k, m :: 0 <= k < m < |keys| ==> keys[k] != keys[m])
  }

  function DeviceKeys(devices: seq<DiscoveryDevice>): (keys: seq<string>)
    ensures |keys| == |devices| && forall k :: 0 <= k < |keys| ==> keys[k] == devices[k].deviceKey
  {
    if devices == [] then [] else [devices[0].deviceKey] + DeviceKeys(devices[1..])
  }

  function SampleKeys(samples: seq<MetricSample>): (keys: seq<string>)
    ensures |keys| == |samples| && forall k :: 0 <= k < |keys| ==> keys[k] == samples[k].deviceKey
  {
    if samples == [] then [] else [samples[0].deviceKey] + SampleKeys(samples[1..])
  }

  lemma DeviceKeysClaimed(rows: seq<Columns>) returns (at: seq<nat>)
    ensures AreFirstClaims(rows, DeviceKey, Always, at) && |at| == |Devices(rows)|
    ensures forall k :: 0 <= k < |at| ==> at[k] < |rows| && DeviceKey(rows[at[k]]) == Some(Devices(rows)[k].deviceKey)
  {
    DevicesAreFirstClaims(rows);
    at :| AreFirstClaims(rows, DeviceKey, Always, at) && DevicesAt(rows, at, Devices(rows));
    ClaimsDiffer(rows, DeviceKey, Always, at);
    hide AreFirstClaims, Devices, Trim;
  }

  lemma SampleKeysClaimed(rows: seq<Columns>) returns (at: seq<nat>)
    ensures AreFirstClaims(rows, MetricKey, IsHealthy, at) && |at| == |Samples(rows)|
    ensures forall k :: 0 <= k < |at| ==> at[k] < |rows| && MetricKey(rows[at[k]]) == Some(Samples(rows)[k].deviceKey)
  {
    SamplesAreFirstClaims(rows);
    at :| AreFirstClaims(rows, MetricKey, IsHealthy, at) && SamplesAt(rows, at, Samples(rows));
    ClaimsDiffer(rows, MetricKey, IsHealthy, at);
    hide AreFirstClaims, Samples, Trim, ParseOptF64;
  }

  /** Whatever the text, the keys that come out of parsing are not empty and do not repeat. */
  lemma ParsedKeysAreUnique(rows: seq<Columns>)
    ensures UniqueKeys(DeviceKeys(Devices(rows))) && UniqueKeys(SampleKeys(Samples(rows)))
  {
    hide AreFirstClaims, Devices, Samples, DeviceKey, MetricKey, UniqueKeys;
    ClaimedNotEmpty();
    var at := DeviceKeysClaimed(rows);
    ClaimedKeysUnique(rows, DeviceKey, Always, at, DeviceKeys(Devices(rows)));
    var healthy := SampleKeysClaimed(rows);
    ClaimedKeysUnique(rows, MetricKey, IsHealthy, healthy, SampleKeys(Samples(rows)));
  }

  lemma ClaimedKeysUnique(rows: seq<Columns>, key: Columns -> Option<string>, keep: Columns -> bool, at: seq<nat>,
                          keys: seq<string>)
    requires AreFirstClaims(rows, key, keep, at) && |at| == |keys|
    requires forall k :: 0 <= k < |at| ==> at[k] < |rows| && key(rows[at[k]]) == Some(keys[k])
    requires forall row: Columns :: key(row) != Some("")
    ensures UniqueKeys(keys)
  {
    hide AreFirstClaims;
    ClaimsDiffer(rows, key, keep, at);
    forall k | 0 <= k < |keys| ensures keys[k] != "" {
      assert key(rows[at[k]]) == Some(keys[k]);
    }
    forall k, m | 0 <= k < m < |keys| ensures keys[k] != keys[m] {
      assert key(rows[at[k]]) == Some(keys[k]) && key(rows[at[m]]) == Some(keys[m]);
    }
  }

  lemma ClaimedNotEmpty()
    ensures forall row: Columns :: DeviceKey(row) != Some("") && MetricKey(row) != Some("")
  {
  }

  lemma ClaimsDiffer(rows: seq<Columns>, key: Columns -> Option<string>, keep: Columns -> bool, at: seq<nat>)
    requires AreFirstClaims(rows, key, keep, at)
    ensures forall k :: 0 <= k < |at| ==> at[k] < |rows| && key(rows[at[k]]).Some?
    ensures forall k, m :: 0 <= k < m < |at| ==> key(rows[at[k]]) != key(rows[at[m]])
  {
    forall k, m | 0 <= k < m < |at| ensures key(rows[at[k]]) != key(rows[at[m]]) {
      assert rows[at[k]] == rows[..at[m]][at[k]];
    }
  }

  /** A metrics row without a health still claims its key, so a later complete row for that key is lost: a key gets
      a sample exactly when the first row that names it states a health. */
  lemma SampleExactly(rows: seq<Columns>, i: nat)
    requires i < |rows| && IsFirstClaim(rows[..i], rows[i], MetricKey)
    ensures (exists sample :: sample in Samples(rows) && Some(sample.deviceKey) == MetricKey(rows[i])) <==>
              IsHealthy(rows[i])
  {
    var at := SampleKeysClaimed(rows);
    hide MetricKey, Samples, IsHealthy;
    if IsHealthy(rows[i]) {
      var k :| 0 <= k < |at| && at[k] == i;
      assert Samples(rows)[k] in Samples(rows);
    }
    forall sample | sample in Samples(rows) && Some(sample.deviceKey) == MetricKey(rows[i]) ensures IsHealthy(rows[i]) {
      var k :| 0 <= k < |Samples(rows)| && Samples(rows)[k] == sample;
      FirstClaimIsUnique(rows, MetricKey, at[k], i);
    }
  }

  lemma FirstClaimIsUnique(rows: seq<Columns>, key: Columns -> Option<string>, i: nat, j: nat)
    requires i < |rows| && j < |rows|
    ensures IsFirstClaim(rows[..i], rows[i], key) && IsFirstClaim(rows[..j], rows[j], key) &&
            key(rows[i]) == key(rows[j]) ==>
              i == j
  {
    assert i < j ==> rows[..j][i] == rows[i];
    assert j < i ==> rows[..i][j] == rows[j];
  }
}
