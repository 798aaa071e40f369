/** What the collector pipeline reports to the Server. */
module CollectorReports {
  import opened Options
  import opened Text
  import opened CollectorTsv

  /** Memory figures are kept as the megabytes they are computed from. */
  datatype GpuMetrics = GpuMetrics(
    gpuKey: string, gpuIndex: Option<int>, vendor: string, name: string, uuid: Option<string>,
    driverVersion: Option<string>, memoryTotal: Option<Float>, memoryUsed: Option<Float>,
    utilizationPercent: Option<Float>, temperatureCelsius: Option<Float>,
    powerWatts: Option<Float>, collector: string)

  datatype EnableStatus =
    Allowed | Disabled | NotListed | NotRegistered | RegistryDisabled | DiscoverHashMismatch | MetricsHashMismatch

  datatype Stage = Discover | Metrics

  datatype CollectorError =
    | NoCollectorRoot
    | RegistryEmpty
    | NotEnabled(id: string, version: string, status: EnableStatus)
    | Unreadable(id: string, stage: Stage)
    | EntryMissing(id: string, version: string)
    | HashMismatch(id: string, stage: Stage)
    | TimedOut(id: string, stage: Stage)
    | Exited(id: string, stage: Stage, code: Option<int>, stderr: string)
    | Unparsable(id: string, stage: Stage, error: ParseError)
    | Unavailable(id: string, message: string)
    | MetricsOnly(id: string, deviceKey: string)
}

/** The join of a discovery report and a metrics report. */
module CollectorMerge {
  import opened Options
  import opened Text
  import opened CollectorTsv
  import opened CollectorReports

  /** The first sample with the key. */
  function FindSample(samples: seq<MetricSample>, key: string): (found: Option<MetricSample>)
    ensures found.None? <==> key !in SampleKeys(samples)
    ensures found.Some? ==> found.value in samples && found.value.deviceKey == key
  {
    if samples == [] then None
    else if samples[0].deviceKey == key then Some(samples[0])
    else FindSample(samples[1..], key)
  }

  function GpuOfDevice(device: DiscoveryDevice, samples: seq<MetricSample>, collectorName: string): GpuMetrics {
    var found := FindSample(samples, device.deviceKey);
    if found.None? then
      GpuMetrics(device.deviceKey, device.index, device.vendor, device.name, device.uuid, device.driverVersion,
                 None, None, None, None, None, collectorName)
    else
      var m := found.value;
      GpuMetrics(device.deviceKey, device.index, device.vendor, device.name, device.uuid, device.driverVersion,
                 m.memoryTotalMb, m.memoryUsedMb, m.utilizationPercent, m.temperatureC, m.powerW, collectorName)
  }

  function GpuOfSample(m: MetricSample, vendor: Option<string>, collectorName: string): GpuMetrics {
    GpuMetrics(m.deviceKey, None, vendor.GetOr("unknown"), m.deviceKey, None, None,
               m.memoryTotalMb, m.memoryUsedMb, m.utilizationPercent, m.temperatureC, m.powerW, collectorName)
  }

  /** The samples whose key no device has, in order. */
  function SamplesOnly(devices: seq<DiscoveryDevice>, samples: seq<MetricSample>): seq<MetricSample> {
    if samples == [] then []
    else
      var last := samples[|samples| - 1];
      SamplesOnly(devices, samples[..|samples| - 1]) + if last.deviceKey in DeviceKeys(devices) then [] else [last]
  }

  function DeviceGpus(devices: seq<DiscoveryDevice>, samples: seq<MetricSample>,
                      collectorName: string): (gpus: seq<GpuMetrics>)
    ensures |gpus| == |devices|
    ensures forall k :: 0 <= k < |gpus| ==> gpus[k] == GpuOfDevice(devices[k], samples, collectorName)
  {
    if devices == [] then []
    else DeviceGpus(devices[..|devices| - 1], samples, collectorName)
         + [GpuOfDevice(devices[|devices| - 1], samples, collectorName)]
  }

  function SampleGpus(only: seq<MetricSample>, vendor: Option<string>, collectorName: string): (gpus: seq<GpuMetrics>)
    ensures |gpus| == |only|
    ensures forall k :: 0 <= k < |gpus| ==> gpus[k] == GpuOfSample(only[k], vendor, collectorName)
  {
    if only == [] then []
    else SampleGpus(only[..|only| - 1], vendor, collectorName) + [GpuOfSample(only[|only| - 1], vendor, collectorName)]
  }

  function OnlyErrors(only: seq<MetricSample>, collectorName: string): (errors: seq<CollectorError>)
    ensures |errors| == |only|
    ensures forall k :: 0 <= k < |errors| ==> errors[k] == MetricsOnly(collectorName, only[k].deviceKey)
  {
    if only == [] then []
    else OnlyErrors(only[..|only| - 1], collectorName) + [MetricsOnly(collectorName, only[|only| - 1].deviceKey)]
  }

  function Joined(discovery: Parsed<DiscoveryDevice>, metrics: Parsed<MetricSample>,
                  collectorName: string): seq<GpuMetrics>
  {
    DeviceGpus(discovery.rows, metrics.rows, collectorName)
    + SampleGpus(SamplesOnly(discovery.rows, metrics.rows), metrics.header.vendor, collectorName)
  }

  method MergeIntoGpuMetrics(discovery: Parsed<DiscoveryDevice>, metrics: Parsed<MetricSample>, collectorName: string,
                             errors: seq<CollectorError>)
    returns (gpus: seq<GpuMetrics>, newErrors: seq<CollectorError>)
    ensures gpus == Joined(discovery, metrics, collectorName)
    ensures newErrors == errors + OnlyErrors(SamplesOnly(discovery.rows, metrics.rows), collectorName)
  {
    var devices, samples := discovery.rows, metrics.rows;
    newErrors := errors;
    var matchedMetricKeys: set<string> := {};
    gpus := [];
    hide GpuOfDevice, GpuOfSample, DeviceGpus, SampleGpus, OnlyErrors, SamplesOnly, FindSample, DeviceKeys, SampleKeys;
    for n := 0 to |devices|
      invariant gpus == DeviceGpus(devices[..n], samples, collectorName)
      invariant matchedMetricKeys == Matched(devices[..n], samples)
    {
      DevicesStep(devices, n, samples, collectorName);
      var metric := FindSample(samples, devices[n].deviceKey);
      if metric.Some? {
        matchedMetricKeys := matchedMetricKeys + {metric.value.deviceKey};
      }
      gpus := gpus + [GpuOfDevice(devices[n], samples, collectorName)];
    }
    assert devices[..|devices|] == devices;
    hide Matched;
    NoneOnly(devices, metrics.header.vendor, collectorName);
    assert gpus == gpus + [] && newErrors == errors + [];
    for n := 0 to |samples|
      invariant gpus == DeviceGpus(devices, samples, collectorName)
                        + SampleGpus(SamplesOnly(devices, samples[..n]), metrics.header.vendor, collectorName)
      invariant newErrors == errors + OnlyErrors(SamplesOnly(devices, samples[..n]), collectorName)
    {
      OnlyStep(devices, samples, n, metrics.header.vendor, collectorName);
      MatchedKey(devices, samples, n);
      var m := samples[n];
      if m.deviceKey !in matchedMetricKeys {
        newErrors := newErrors + [MetricsOnly(collectorName, m.deviceKey)];
        gpus := gpus + [GpuOfSample(m, metrics.header.vendor, collectorName)];
      }
    }
    assert samples[..|samples|] == samples;
  }

  ghost function Matched(devices: seq<DiscoveryDevice>, samples: seq<MetricSample>): set<string> {
    set d | d in devices && d.deviceKey in SampleKeys(samples) :: d.deviceKey
  }

  lemma DevicesStep(devices: seq<DiscoveryDevice>, n: nat, samples: seq<MetricSample>, name: string)
    requires n < |devices|
    ensures DeviceGpus(devices[..n + 1], samples, name) ==
              DeviceGpus(devices[..n], samples, name) + [GpuOfDevice(devices[n], samples, name)]
    ensures Matched(devices[..n + 1], samples) ==
              Matched(devices[..n], samples)
              + (if devices[n].deviceKey in SampleKeys(samples) then {devices[n].deviceKey} else {})
  {
    assert devices[..n + 1][..n] == devices[..n];
    assert devices[..n + 1] == devices[..n] + [devices[n]];
  }

  lemma NoneOnly(devices: seq<DiscoveryDevice>, vendor: Option<string>, name: string)
    ensures SamplesOnly(devices, []) == [] && SampleGpus([], vendor, name) == [] && OnlyErrors([], name) == []
  {
  }

  lemma OnlyStep(devices: seq<DiscoveryDevice>, samples: seq<MetricSample>, n: nat, vendor: Option<string>,
                 name: string)
    requires n < |samples|
    ensures var before, after := SamplesOnly(devices, samples[..n]), SamplesOnly(devices, samples[..n + 1]);
            if samples[n].deviceKey in DeviceKeys(devices) then after == before
            else
              && SampleGpus(after, vendor, name) == SampleGpus(before, vendor, name)
                 + [GpuOfSample(samples[n], vendor, name)]
              && OnlyErrors(after, name) == OnlyErrors(before, name) + [MetricsOnly(name, samples[n].deviceKey)]
  {
    assert samples[..n + 1][..n] == samples[..n];
    var before := SamplesOnly(devices, samples[..n]);
    assert before + [] == before;
    assert (before + [samples[n]])[..|before|] == before;
    hide GpuOfSample;
  }

  lemma MatchedKey(devices: seq<DiscoveryDevice>, samples: seq<MetricSample>, n: nat)
    requires n < |samples|
    ensures samples[n].deviceKey in Matched(devices, samples) <==> samples[n].deviceKey in DeviceKeys(devices)
  {
    assert SampleKeys(samples)[n] == samples[n].deviceKey;
    if samples[n].deviceKey in DeviceKeys(devices) {
      var k :| 0 <= k < |devices| && DeviceKeys(devices)[k] == samples[n].deviceKey;
      assert devices[k] in devices;
    }
    forall d | d in devices ensures d.deviceKey in DeviceKeys(devices) {
      DeviceKeyIn(devices, d);
    }
  }

  lemma DeviceKeyIn(devices: seq<DiscoveryDevice>, d: DiscoveryDevice)
    requires d in devices
    ensures d.deviceKey in DeviceKeys(devices)
  {
    var k :| 0 <= k < |devices| && devices[k] == d;
    assert DeviceKeys(devices)[k] == d.deviceKey;
  }

  // ---------------------------------------------------------------- a full outer join

  function GpuKeys(gpus: seq<GpuMetrics>): (keys: seq<string>)
    ensures |keys| == |gpus| && forall k :: 0 <= k < |keys| ==> keys[k] == gpus[k].gpuKey
  {
    if gpus == [] then [] else [gpus[0].gpuKey] + GpuKeys(gpus[1..])
  }

  /** Positions of the samples that no device has, in order, and what is found there. */
  ghost predicate AreOnly(devices: seq<DiscoveryDevice>, samples: seq<MetricSample>, at: seq<nat>,
                          only: seq<MetricSample>)
  {
    && |at| == |only|
    && (forall k :: 0 <= k < |at| ==>
          at[k] < |samples| && only[k] == samples[at[k]] && only[k].deviceKey !in DeviceKeys(devices))
    && (forall k, m :: 0 <= k < m < |at| ==> at[k] < at[m])
    && (forall i :: 0 <= i < |samples| && samples[i].deviceKey !in DeviceKeys(devices) ==> i in at)
  }

  lemma AreOnlySnoc(devices: seq<DiscoveryDevice>, front: seq<MetricSample>, m: MetricSample, at: seq<nat>,
                    only: seq<MetricSample>)
    requires AreOnly(devices, front, at, only)
    ensures if m.deviceKey in DeviceKeys(devices) then AreOnly(devices, front + [m], at, only)
            else AreOnly(devices, front + [m], at + [|front|], only + [m])
  {
    hide DeviceKeys;
    forall i | 0 <= i < |front| && front[i].deviceKey !in DeviceKeys(devices) ensures i in at {}
  }

  lemma {:induction false} SamplesOnlyAre(devices: seq<DiscoveryDevice>, samples: seq<MetricSample>)
    returns (at: seq<nat>)
    ensures AreOnly(devices, samples, at, SamplesOnly(devices, samples))
  {
    at := [];
    if samples != [] {
      var n := |samples| - 1;
      at := SamplesOnlyAre(devices, samples[..n]);
      var only := SamplesOnly(devices, samples[..n]);
      AreOnlySnoc(devices, samples[..n], samples[n], at, only);
      assert samples == samples[..n] + [samples[n]];
      assert only + [] == only;
      hide AreOnly;
      if samples[n].deviceKey !in DeviceKeys(devices) {
        at := at + [n];
      }
    }
  }

  /** The entry carries the metrics of the only sample with its key, or none. */
  ghost predicate HasMetricsOf(gpu: GpuMetrics, samples: seq<MetricSample>) {
    && (forall m :: m in samples && m.deviceKey == gpu.gpuKey ==>
          && gpu.memoryTotal == m.memoryTotalMb && gpu.memoryUsed == m.memoryUsedMb &&
             gpu.utilizationPercent == m.utilizationPercent
          && gpu.temperatureCelsius == m.temperatureC && gpu.powerWatts == m.powerW)
    && (gpu.gpuKey !in SampleKeys(samples) ==>
          gpu.memoryTotal == gpu.memoryUsed == gpu.utilizationPercent == gpu.temperatureCelsius
          == gpu.powerWatts == None)
  }

  ghost predicate HasIdentityOf(gpu: GpuMetrics, device: DiscoveryDevice) {
    && gpu.gpuKey == device.deviceKey && gpu.gpuIndex == device.index && gpu.vendor == device.vendor &&
       gpu.name == device.name
    && gpu.uuid == device.uuid && gpu.driverVersion == device.driverVersion
  }

  /** The key stands in for the name, the report's vendor for the vendor, and nothing else is known. */
  ghost predicate IsKnownByKeyOnly(gpu: GpuMetrics, key: string, vendor: Option<string>) {
    && gpu.gpuKey == gpu.name == key && gpu.gpuIndex.None? && gpu.uuid.None? && gpu.driverVersion.None?
    && (vendor.Some? ==> gpu.vendor == vendor.value) && (vendor.None? ==> gpu.vendor == "unknown")
  }

  lemma UniqueSample(samples: seq<MetricSample>, m: MetricSample, other: MetricSample)
    requires UniqueKeys(SampleKeys(samples)) && m in samples && other in samples && m.deviceKey == other.deviceKey
    ensures m == other
  {
    hide SampleKeys;
    var i :| 0 <= i < |samples| && samples[i] == m;
    var j :| 0 <= j < |samples| && samples[j] == other;
    assert SampleKeys(samples)[i] == SampleKeys(samples)[j];
  }

  lemma DeviceEntry(device: DiscoveryDevice, samples: seq<MetricSample>, collectorName: string)
    requires UniqueKeys(SampleKeys(samples))
    ensures var gpu := GpuOfDevice(device, samples, collectorName);
            HasIdentityOf(gpu, device) && HasMetricsOf(gpu, samples)
  {
    var found := FindSample(samples, device.deviceKey);
    forall m | m in samples && m.deviceKey == device.deviceKey ensures found == Some(m) {
      SampleKeyIn(samples, m);
      UniqueSample(samples, m, found.value);
    }
  }

  lemma SampleKeyIn(samples: seq<MetricSample>, m: MetricSample)
    requires m in samples
    ensures m.deviceKey in SampleKeys(samples)
  {
    var k :| 0 <= k < |samples| && samples[k] == m;
    assert SampleKeys(samples)[k] == m.deviceKey;
  }

  lemma SampleEntry(m: MetricSample, samples: seq<MetricSample>, vendor: Option<string>, collectorName: string)
    requires UniqueKeys(SampleKeys(samples)) && m in samples
    ensures var gpu := GpuOfSample(m, vendor, collectorName);
            HasMetricsOf(gpu, samples) && IsKnownByKeyOnly(gpu, m.deviceKey, vendor) && gpu.collector == collectorName
  {
    SampleKeyIn(samples, m);
    forall other | other in samples && other.deviceKey == m.deviceKey ensures other == m {
      UniqueSample(samples, m, other);
    }
  }

  /** The entries of the devices come first, in discovery order, each with the metrics of its key. */
  lemma DeviceEntries(discovery: Parsed<DiscoveryDevice>, metrics: Parsed<MetricSample>, name: string, k: nat)
    requires UniqueKeys(SampleKeys(metrics.rows)) && k < |discovery.rows|
    ensures var gpus := Joined(discovery, metrics, name);
            && k < |gpus| && HasIdentityOf(gpus[k], discovery.rows[k]) && HasMetricsOf(gpus[k], metrics.rows)
            && gpus[k].collector == name
  {
    DeviceEntry(discovery.rows[k], metrics.rows, name);
    assert GpuOfDevice(discovery.rows[k], metrics.rows, name).collector == name;
    hide GpuOfDevice, HasIdentityOf, HasMetricsOf, SamplesOnly, UniqueKeys;
  }

  /** Then come those of the samples without a device, in metrics order, and each of them is named by one error. */
  lemma MetricsOnlyEntries(discovery: Parsed<DiscoveryDevice>, metrics: Parsed<MetricSample>, name: string, k: nat)
    requires UniqueKeys(SampleKeys(metrics.rows)) && k < |SamplesOnly(discovery.rows, metrics.rows)|
    ensures var gpus, n := Joined(discovery, metrics, name), |discovery.rows|;
            var only := SamplesOnly(discovery.rows, metrics.rows);
            && |gpus| == n + |only| && |OnlyErrors(only, name)| == |only|
            && IsKnownByKeyOnly(gpus[n + k], only[k].deviceKey, metrics.header.vendor) && gpus[n + k].collector == name
            && HasMetricsOf(gpus[n + k], metrics.rows)
            && OnlyErrors(only, name)[k] == MetricsOnly(name, only[k].deviceKey)
  {
    var m := OnlyIsSample(discovery.rows, metrics.rows, k);
    MetricsOnlyAt(discovery, metrics, name, k);
    SampleEntry(m, metrics.rows, metrics.header.vendor, name);
    hide *;
  }

  lemma OnlyIsSample(devices: seq<DiscoveryDevice>, samples: seq<MetricSample>, k: nat) returns (m: MetricSample)
    requires k < |SamplesOnly(devices, samples)|
    ensures m == SamplesOnly(devices, samples)[k] && m in samples
  {
    var at := SamplesOnlyAre(devices, samples);
    m := samples[at[k]];
  }

  lemma MetricsOnlyAt(discovery: Parsed<DiscoveryDevice>, metrics: Parsed<MetricSample>, name: string, k: nat)
    requires k < |SamplesOnly(discovery.rows, metrics.rows)|
    ensures var gpus, n := Joined(discovery, metrics, name), |discovery.rows|;
            var only := SamplesOnly(discovery.rows, metrics.rows);
            && |gpus| == n + |only| && |OnlyErrors(only, name)| == |only|
            && gpus[n + k] == GpuOfSample(only[k], metrics.header.vendor, name)
            && OnlyErrors(only, name)[k] == MetricsOnly(name, only[k].deviceKey)
  {
    hide SamplesOnly, DeviceGpus, SampleGpus, OnlyErrors, GpuOfSample;
  }

  /** Each key of either report has exactly one entry, and there are no others. */
  lemma OuterJoinKeys(discovery: Parsed<DiscoveryDevice>, metrics: Parsed<MetricSample>, name: string)
    requires UniqueKeys(DeviceKeys(discovery.rows)) && UniqueKeys(SampleKeys(metrics.rows))
    ensures var keys := GpuKeys(Joined(discovery, metrics, name));
            && UniqueKeys(keys)
            && forall key :: key in keys <==> key in DeviceKeys(discovery.rows) || key in SampleKeys(metrics.rows)
  {
    var at := SamplesOnlyAre(discovery.rows, metrics.rows);
    var only := SamplesOnly(discovery.rows, metrics.rows);
    OnlyIsRest(discovery.rows, metrics.rows, at, only);
    KeysInOrder(discovery, metrics, name);
    hide *;
    KeysUnion(DeviceKeys(discovery.rows), SampleKeys(metrics.rows), at, SampleKeys(only));
  }

  lemma KeysInOrder(discovery: Parsed<DiscoveryDevice>, metrics: Parsed<MetricSample>, name: string)
    ensures GpuKeys(Joined(discovery, metrics, name)) ==
              DeviceKeys(discovery.rows) + SampleKeys(SamplesOnly(discovery.rows, metrics.rows))
  {
    hide SamplesOnly, DeviceGpus, SampleGpus, GpuKeys, DeviceKeys, SampleKeys;
  }

  /** `rest` are the keys of `right`, at the increasing positions `at`, that `left` lacks. */
  ghost predicate IsRest(left: seq<string>, right: seq<string>, at: seq<nat>, rest: seq<string>) {
    && |at| == |rest|
    && (forall k :: 0 <= k < |at| ==> at[k] < |right| && right[at[k]] == rest[k] && rest[k] !in left)
    && (forall k, m :: 0 <= k < m < |at| ==> at[k] < at[m])
    && (forall i :: 0 <= i < |right| && right[i] !in left ==> i in at)
  }

  lemma OnlyIsRest(devices: seq<DiscoveryDevice>, samples: seq<MetricSample>, at: seq<nat>, only: seq<MetricSample>)
    requires AreOnly(devices, samples, at, only)
    ensures IsRest(DeviceKeys(devices), SampleKeys(samples), at, SampleKeys(only))
  {
    hide DeviceKeys, SampleKeys;
  }

  lemma KeysUnion(left: seq<string>, right: seq<string>, at: seq<nat>, rest: seq<string>)
    requires UniqueKeys(left) && UniqueKeys(right) && IsRest(left, right, at, rest)
    ensures UniqueKeys(left + rest) && forall key :: key in left + rest <==> key in left || key in right
  {
    forall key | key in right && key !in left ensures key in rest {
      var i :| 0 <= i < |right| && right[i] == key;
      var k :| 0 <= k < |at| && at[k] == i;
      assert rest[k] == key;
    }
  }
}
