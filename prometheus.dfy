/**
 * prom::getMetrics and its writers (src/prometheus.cpp): the scrape text is written piece by piece
 * into one `char` array of `max_len + 1` characters and then read back as a C string.
 *
 * The array is wrapped with the text written into it so far (a ghost); every writer promises that
 * the text grows by exactly the piece the matching function of module Metrics describes.
 */
module Prometheus {
  import opened Common
  import opened Metrics
  import Counters
  import Utils

  // ---------------------------------------------------------------- the buffer

  /** The array getMetrics allocates, holding `text` from position 0. */
  class Buffer {
    const data: array<char>
    ghost var text: string

    ghost predicate Valid()
      reads this, data
    {
      |text| <= data.Length && forall k :: 0 <= k < |text| ==> data[k] == text[k]
    }

    /** A NUL follows the text, so a C string reader stops right after it. */
    ghost predicate Terminated()
      reads this, data
    {
      |text| < data.Length && data[|text|] == NUL
    }

    /** `new char[size]`, nothing written yet. */
    constructor (size: nat)
      ensures Valid() && text == [] && data.Length == size && fresh(data)
    {
      data := new char[size];
      text := [];
    }

    /** `buffer[at] = c`. */
    method Put(at: nat, c: char)
      requires Valid() && at == |text| && at < data.Length
      modifies this, data
      ensures Valid() && text == old(text) + [c]
    {
      data[at] := c;
      text := text + [c];
    }

    /** `buffer[at] = 0` right after the text. */
    method Terminate(at: nat)
      requires Valid() && at == |text| && at < data.Length
      modifies data
      ensures Valid() && Terminated()
    {
      data[at] := NUL;
    }

    /** strcpy(buffer + at, s): the characters of `s` and a NUL. */
    method Strcpy(at: nat, s: string)
      requires Valid() && at == |text| && at + |s| < data.Length
      modifies this, data
      ensures Valid() && Terminated() && text == old(text) + s
    {
      forall k | 0 <= k < |s| {
        data[at + k] := s[k];
      }
      data[at + |s|] := NUL;
      text := text + s;
      forall k | 0 <= k < |text|
        ensures data[k] == text[k]
      {
        if k >= at {
          assert data[at + (k - at)] == s[k - at];
        }
      }
    }

    /** sprintf(buffer + at, ...) of the formatted text `s`: strcpy that returns the length. */
    method Sprintf(at: nat, s: string) returns (n: nat)
      requires Valid() && at == |text| && at + |s| < data.Length
      modifies this, data
      ensures Valid() && Terminated() && text == old(text) + s && n == |s|
    {
      Strcpy(at, s);
      n := |s|;
    }

    /**
     * strncpy(buffer + at, s, n): the first `min(n, |s|)` characters of `s`, then NULs up to `n`
     * characters in all; when `n <= |s|` nothing terminates the copy.
     */
    method Strncpy(at: nat, s: string, n: nat)
      requires Valid() && at == |text| && at + n <= data.Length
      modifies this, data
      ensures Valid() && text == old(text) + s[..Min(n, |s|)]
      ensures |s| < n ==> Terminated()
    {
      var m := Min(n, |s|);
      forall k | 0 <= k < n {
        data[at + k] := if k < |s| then s[k] else NUL;
      }
      text := text + s[..m];
      forall k | 0 <= k < |text|
        ensures data[k] == text[k]
      {
        if k >= at {
          assert data[at + (k - at)] == s[k - at];
        }
      }
      if |s| < n {
        assert data[at + m] == NUL;
      }
    }

    /**
     * snprintf(buffer + at, size, ...) of the formatted text `s`: at most `size - 1` characters
     * and a NUL, nothing when `size` is 0; it returns the length of the whole text.
     */
    method Snprintf(at: nat, size: nat, s: string) returns (r: nat)
      requires Valid() && at == |text| && at + size <= data.Length
      modifies this, data
      ensures Valid() && r == |s|
      ensures text == old(text) + (if size == 0 then [] else s[..Min(size - 1, |s|)])
      ensures size > 0 ==> Terminated()
    {
      r := |s|;
      if size > 0 {
        Strcpy(at, s[..Min(size - 1, |s|)]);
      } else {
        assert old(text) + [] == text;
      }
    }
  }

  // ---------------------------------------------------------------- metric writers

  /** `[ns_]name[_unit]` as writeMetricMetadataLine and writeMetric spell it out. */
  method WriteName(b: Buffer, at: nat, ns: string, name: string, unit: string) returns (written: nat)
    requires b.Valid() && at == |b.text| && at + |MetricName(ns, name, unit)| < b.data.Length
    modifies b, b.data
    ensures b.Valid() && b.text == old(b.text) + MetricName(ns, name, unit)
    ensures written == |MetricName(ns, name, unit)|
  {
    ghost var done := b.text;
    MetricNameLength(ns, name, unit);
    written := 0;
    if |ns| > 0 {
      b.Strcpy(at + written, ns);
      written := written + |ns|;
      b.Put(at + written, '_');
      written := written + 1;
    }
    b.Strcpy(at + written, name);
    written := written + |name|;
    if |unit| > 0 {
      b.Put(at + written, '_');
      written := written + 1;
      b.Strcpy(at + written, unit);
      written := written + |unit|;
    }
    NamePieces(done, ns, name, unit);
  }

  /** The pieces WriteName appends, in its order, make up the metric name. */
  lemma NamePieces(done: string, ns: string, name: string, unit: string)
    ensures var named := (if |ns| > 0 then done + ns + "_" else done) + name;
      (if |unit| > 0 then named + "_" + unit else named) == done + MetricName(ns, name, unit)
  {
    var nsPart := if ns == "" then "" else ns + "_";
    var unitPart := if unit == "" then "" else "_" + unit;
    if |ns| > 0 {
      Assoc(done, ns, "_");
    }
    Assoc(done, nsPart, name);
    if |unit| > 0 {
      Assoc(done + nsPart + name, "_", unit);
    }
    Assoc(done, nsPart + name, unitPart);
  }

  /** writeMetricMetadataLine: `# FIELD NAME VALUE\n`, NUL-terminated; returns the characters written. */
  method WriteMetadataLine(b: Buffer, at: nat, field: string, ns: string, name: string, unit: string,
                           value: string)
    returns (written: nat)
    requires b.Valid() && at == |b.text| && at + |MetadataLine(field, ns, name, unit, value)| < b.data.Length
    modifies b, b.data
    ensures b.Valid() && b.Terminated() && b.text == old(b.text) + MetadataLine(field, ns, name, unit, value)
    ensures written == |MetadataLine(field, ns, name, unit, value)|
  {
    ghost var done := b.text;
    MetadataLineShape(field, ns, name, unit, value);
    written := 0;
    b.Put(at + written, '#');
    written := written + 1;
    b.Put(at + written, ' ');
    written := written + 1;
    b.Strcpy(at + written, field);
    written := written + |field|;
    b.Put(at + written, ' ');
    written := written + 1;
    var w := WriteName(b, at + written, ns, name, unit);
    written := written + w;
    b.Put(at + written, ' ');
    written := written + 1;
    b.Strcpy(at + written, value);
    written := written + |value|;
    b.Put(at + written, '\n');
    written := written + 1;
    b.Terminate(at + written);
    MetadataLinePieces(done, field, ns, name, unit, value);
  }

  lemma MetadataLinePieces(done: string, field: string, ns: string, name: string, unit: string, value: string)
    ensures done + ['#'] + [' '] + field + [' '] + MetricName(ns, name, unit) + [' '] + value + ['\n']
         == done + MetadataLine(field, ns, name, unit, value)
  {
  }

  /**
   * writeMetric: HELP and TYPE lines, the UNIT line under OpenMetrics, then the sample: the name
   * and `" %.3f\n"` of the reading, or `" NAN\n"` when there is none; NUL-terminated.
   */
  method WriteMetric(b: Buffer, at: nat, m: Metric, openmetrics: bool) returns (written: nat)
    requires b.Valid() && at == |b.text| && at + |MetricText(m, openmetrics)| < b.data.Length
    modifies b, b.data
    ensures b.Valid() && b.Terminated() && b.text == old(b.text) + MetricText(m, openmetrics)
    ensures written == |MetricText(m, openmetrics)|
  {
    ghost var done := b.text;
    written := WriteMetadataLines(b, at, m, openmetrics);
    var w := WriteName(b, at + written, m.ns, m.name, m.unit);
    written := written + w;
    match m.value {
      case Some(text) =>
        w := b.Sprintf(at + written, " " + text + "\n");
        written := written + w;
      case None =>
        b.Strcpy(at + written, " NAN\n");
        written := written + 5;
    }
    b.Terminate(at + written);
    MetricTextPieces(done, m, openmetrics);
  }

  /** The metadata lines writeMetric starts with. */
  function MetadataLines(m: Metric, openmetrics: bool): string {
    MetadataLine("HELP", m.ns, m.name, m.unit, m.description)
    + MetadataLine("TYPE", m.ns, m.name, m.unit, m.kind)
    + (if openmetrics then MetadataLine("UNIT", m.ns, m.name, m.unit, m.unit) else "")
  }

  lemma MetricTextPieces(done: string, m: Metric, openmetrics: bool)
    ensures done + MetadataLines(m, openmetrics) + MetricName(m.ns, m.name, m.unit) + SampleValue(m.value)
         == done + MetricText(m, openmetrics)
  {
    var lines := MetadataLines(m, openmetrics);
    var metricName := MetricName(m.ns, m.name, m.unit);
    Assoc(done, lines, metricName);
    Assoc(done, lines + metricName, SampleValue(m.value));
  }

  /** writeMetric's HELP, TYPE and (under OpenMetrics) UNIT calls. */
  method WriteMetadataLines(b: Buffer, at: nat, m: Metric, openmetrics: bool) returns (written: nat)
    requires b.Valid() && at == |b.text| && at + |MetricText(m, openmetrics)| < b.data.Length
    modifies b, b.data
    ensures b.Valid() && b.text == old(b.text) + MetadataLines(m, openmetrics)
    ensures written == |MetadataLines(m, openmetrics)|
    ensures at + written + |MetricName(m.ns, m.name, m.unit)| + |SampleValue(m.value)| < b.data.Length
  {
    ghost var done := b.text;
    MetricTextLength(m, openmetrics);
    MetadataLineShape("HELP", m.ns, m.name, m.unit, m.description);
    MetadataLineShape("TYPE", m.ns, m.name, m.unit, m.kind);
    MetadataLineShape("UNIT", m.ns, m.name, m.unit, m.unit);
    written := WriteMetadataLine(b, at, "HELP", m.ns, m.name, m.unit, m.description);
    var w := WriteMetadataLine(b, at + written, "TYPE", m.ns, m.name, m.unit, m.kind);
    written := written + w;
    if openmetrics {
      w := WriteMetadataLine(b, at + written, "UNIT", m.ns, m.name, m.unit, m.unit);
      written := written + w;
    }
    MetadataLinesPieces(done, m, openmetrics);
  }

  lemma MetadataLinesPieces(done: string, m: Metric, openmetrics: bool)
    ensures var two := done + MetadataLine("HELP", m.ns, m.name, m.unit, m.description)
                            + MetadataLine("TYPE", m.ns, m.name, m.unit, m.kind);
      (if openmetrics then two + MetadataLine("UNIT", m.ns, m.name, m.unit, m.unit) else two)
      == done + MetadataLines(m, openmetrics)
  {
    var help := MetadataLine("HELP", m.ns, m.name, m.unit, m.description);
    var kind := MetadataLine("TYPE", m.ns, m.name, m.unit, m.kind);
    var unitLine := if openmetrics then MetadataLine("UNIT", m.ns, m.name, m.unit, m.unit) else "";
    Assoc(done, help, kind);
    Assoc(done, help + kind, unitLine);
  }

  // ---------------------------------------------------------------- build info

  /** One `strcpy` of a label's name and one of its value, `len` advanced by their known lengths. */
  method WriteLabel(b: Buffer, at: nat, name: string, nameLength: nat, value: string, valueLength: nat)
    returns (len: nat)
    requires nameLength == |name| && valueLength == |value|
    requires b.Valid() && at == |b.text| && at + |name| + |value| < b.data.Length
    modifies b, b.data
    ensures b.Valid() && b.Terminated() && b.text == old(b.text) + name + value
    ensures len == at + |name| + |value|
  {
    b.Strcpy(at, name);
    len := at + nameLength;
    b.Strcpy(len, value);
    len := len + valueLength;
  }

  /**
   * The build_info sample: the strcpy chain of getMetrics, `len` advanced by each piece's known
   * length, the commit hash counted as seven characters.
   */
  method WriteBuildInfoSample(b: Buffer, at: nat, ns: string, info: BuildInfo) returns (len: nat)
    requires |info.commit| == 7
    requires b.Valid() && at == |b.text| && at + |BuildInfoSample(ns, info)| < b.data.Length
    modifies b, b.data
    ensures b.Valid() && b.Terminated() && b.text == old(b.text) + BuildInfoSample(ns, info)
    ensures len == at + |BuildInfoSample(ns, info)|
  {
    ghost var done := b.text;
    len := at;
    b.Strcpy(len, ns);
    len := len + |ns|;
    len := WriteLabel(b, len, "_build_info{esptherm_commit=\"", 29, info.commit, 7);
    len := WriteLabel(b, len, "\",mcu_type=\"", 12, info.mcuType, |info.mcuType|);
    len := WriteLabel(b, len, "\",arduino_version=\"", 19, info.arduinoVersion, |info.arduinoVersion|);
    len := WriteLabel(b, len, "\",sdk_version=\"", 15, info.sdkVersion, |info.sdkVersion|);
    len := WriteLabel(b, len, "\",cpp_std_version=\"", 19, info.cppVersion, |info.cppVersion|);
    b.Strcpy(len, "\"} 1\n");
    len := len + 5;
    BuildInfoSamplePieces(done, ns, info);
  }

  lemma BuildInfoSamplePieces(done: string, ns: string, info: BuildInfo)
    ensures done + ns + "_build_info{esptherm_commit=\"" + info.commit + "\",mcu_type=\"" + info.mcuType
            + "\",arduino_version=\"" + info.arduinoVersion + "\",sdk_version=\"" + info.sdkVersion
            + "\",cpp_std_version=\"" + info.cppVersion + "\"} 1\n"
         == done + BuildInfoSample(ns, info)
  {
  }

  /** The build_info group: HELP, TYPE ("info" under OpenMetrics, "gauge" otherwise) and the sample. */
  method WriteBuildInfo(b: Buffer, at: nat, ns: string, info: BuildInfo, openmetrics: bool) returns (len: nat)
    requires |info.commit| == 7
    requires b.Valid() && at == |b.text| && at + |BuildInfoText(ns, info, openmetrics)| < b.data.Length
    modifies b, b.data
    ensures b.Valid() && b.Terminated() && b.text == old(b.text) + BuildInfoText(ns, info, openmetrics)
    ensures len == at + |BuildInfoText(ns, info, openmetrics)|
  {
    ghost var done := b.text;
    ghost var help := MetadataLine("HELP", ns, "build_info", "", "A constant 1 with compile time information as labels.");
    ghost var kind := MetadataLine("TYPE", ns, "build_info", "", BuildInfoKind(openmetrics));
    assert BuildInfoText(ns, info, openmetrics) == help + kind + BuildInfoSample(ns, info);
    var w := WriteMetadataLine(b, at, "HELP", ns, "build_info", "",
                               "A constant 1 with compile time information as labels.");
    len := at + w;
    if openmetrics {
      w := WriteMetadataLine(b, len, "TYPE", ns, "build_info", "", "info");
    } else {
      w := WriteMetadataLine(b, len, "TYPE", ns, "build_info", "", "gauge");
    }
    len := len + w;
    len := WriteBuildInfoSample(b, len, ns, info);
    Assoc(done, help, kind);
    Assoc(done, help + kind, BuildInfoSample(ns, info));
  }

  // ---------------------------------------------------------------- the fixed groups

  /** The three gauges: external temperature, external humidity and the used heap. */
  method WriteGauges(b: Buffer, at: nat, ns: string, readings: Readings, openmetrics: bool) returns (len: nat)
    requires b.Valid() && at == |b.text| && at + |Gauges(ns, readings, openmetrics)| < b.data.Length
    modifies b, b.data
    ensures b.Valid() && b.Terminated() && b.text == old(b.text) + Gauges(ns, readings, openmetrics)
    ensures len == at + |Gauges(ns, readings, openmetrics)|
  {
    ghost var done := b.text;
    ghost var temperature := MetricText(TemperatureMetric(ns, readings.temperature), openmetrics);
    ghost var humidity := MetricText(HumidityMetric(ns, readings.humidity), openmetrics);
    ghost var heap := MetricText(HeapMetric(readings.usedHeap), openmetrics);
    var w := WriteMetric(b, at, TemperatureMetric(ns, readings.temperature), openmetrics);
    len := at + w;
    w := WriteMetric(b, len, HumidityMetric(ns, readings.humidity), openmetrics);
    len := len + w;
    w := WriteMetric(b, len, HeapMetric(readings.usedHeap), openmetrics);
    len := len + w;
    Assoc(done, temperature, humidity);
    Assoc(done, temperature + humidity, heap);
  }

  function Gauges(ns: string, readings: Readings, openmetrics: bool): string {
    MetricText(TemperatureMetric(ns, readings.temperature), openmetrics)
    + MetricText(HumidityMetric(ns, readings.humidity), openmetrics)
    + MetricText(HeapMetric(readings.usedHeap), openmetrics)
  }

  /** The HELP and TYPE lines of http_requests_total. */
  method WriteRequestsHeader(b: Buffer, at: nat, ns: string) returns (len: nat)
    requires b.Valid() && at == |b.text| && at + |RequestsHeader(ns)| < b.data.Length
    modifies b, b.data
    ensures b.Valid() && b.Terminated() && b.text == old(b.text) + RequestsHeader(ns)
    ensures len == at + |RequestsHeader(ns)|
  {
    ghost var done := b.text;
    ghost var help := MetadataLine("HELP", ns, "http_requests_total", "",
                                   "The total number of HTTP requests handled by this server.");
    ghost var kind := MetadataLine("TYPE", ns, "http_requests_total", "", "counter");
    var w := WriteMetadataLine(b, at, "HELP", ns, "http_requests_total", "",
                               "The total number of HTTP requests handled by this server.");
    len := at + w;
    w := WriteMetadataLine(b, len, "TYPE", ns, "http_requests_total", "", "counter");
    len := len + w;
    Assoc(done, help, kind);
  }

  /**
   * The groups before the counter lines: the gauges, build_info, and the HELP and TYPE lines of
   * http_requests_total.
   */
  method WriteFixedSections(b: Buffer, at: nat, ns: string, info: BuildInfo, readings: Readings,
                            openmetrics: bool)
    returns (len: nat)
    requires |info.commit| == 7
    requires b.Valid() && at == |b.text| && at + |FixedSections(ns, info, readings, openmetrics)| < b.data.Length
    modifies b, b.data
    ensures b.Valid() && b.Terminated() && b.text == old(b.text) + FixedSections(ns, info, readings, openmetrics)
    ensures len == at + |FixedSections(ns, info, readings, openmetrics)|
  {
    ghost var done := b.text;
    FixedSectionsPieces(done, ns, info, readings, openmetrics);
    len := WriteGauges(b, at, ns, readings, openmetrics);
    len := WriteBuildInfo(b, len, ns, info, openmetrics);
    len := WriteRequestsHeader(b, len, ns);
  }

  /** FixedSections is the concatenation WriteFixedSections builds, one group after the other. */
  lemma FixedSectionsPieces(done: string, ns: string, info: BuildInfo, readings: Readings, openmetrics: bool)
    ensures done + Gauges(ns, readings, openmetrics) + BuildInfoText(ns, info, openmetrics) + RequestsHeader(ns)
         == done + FixedSections(ns, info, readings, openmetrics)
    ensures |FixedSections(ns, info, readings, openmetrics)|
         == |Gauges(ns, readings, openmetrics)| + |BuildInfoText(ns, info, openmetrics)| + |RequestsHeader(ns)|
  {
    var gauges := Gauges(ns, readings, openmetrics);
    var buildInfo := BuildInfoText(ns, info, openmetrics);
    Assoc(done, gauges, buildInfo);
    Assoc(done, gauges + buildInfo, RequestsHeader(ns));
  }

  // ---------------------------------------------------------------- counter lines

  /**
   * One counter line: namespace, `_http_requests_total{method="`, the method methodLabel (the switch on
   * the method), each copied with strncpy bounded by the room left, then snprintf of code, path
   * and count bounded by the room left. `len` advances by each piece's full length.
   */
  method WriteRequestLine(b: Buffer, at: nat, maxLen: nat, ns: string, row: Counters.Row) returns (len: nat)
    requires b.Valid() && at == |b.text| && b.data.Length == maxLen + 1
    requires at + |RequestLine(ns, row)| < maxLen
    modifies b, b.data
    ensures b.Valid() && b.Terminated() && b.text == old(b.text) + RequestLine(ns, row)
    ensures len == at + |RequestLine(ns, row)|
  {
    ghost var done := b.text;
    var methodLabel := MethodLabel(row.key.requestMethod);
    var tail := CodeAndPath(row);
    len := at;
    b.Strncpy(len, ns, Min(maxLen - len, |ns|));
    len := len + |ns|;
    b.Strncpy(len, "_http_requests_total{method=\"", Min(maxLen - len, 29));
    len := len + 29;
    b.Strncpy(len, methodLabel, Min(maxLen - len, |methodLabel|));
    len := len + |methodLabel|;
    var n := b.Snprintf(len, maxLen - len, tail);
    len := len + n;
    RequestLinePieces(done, ns, row);
  }

  lemma RequestLinePieces(done: string, ns: string, row: Counters.Row)
    ensures var methodLabel := MethodLabel(row.key.requestMethod);
      done + ns[..|ns|] + "_http_requests_total{method=\""[..29] + methodLabel[..|methodLabel|] + CodeAndPath(row)[..|CodeAndPath(row)|]
      == done + RequestLine(ns, row)
  {
    var methodLabel := MethodLabel(row.key.requestMethod);
    assert ns[..|ns|] == ns && methodLabel[..|methodLabel|] == methodLabel;
    assert "_http_requests_total{method=\""[..29] == "_http_requests_total{method=\"";
    assert CodeAndPath(row)[..|CodeAndPath(row)|] == CodeAndPath(row);
    Assoc(done, ns, "_http_requests_total{method=\"");
    Assoc(done, ns + "_http_requests_total{method=\"", methodLabel);
    Assoc(done, ns + "_http_requests_total{method=\"" + methodLabel, CodeAndPath(row));
  }

  /** Writing one more row appends its line; a prefix of the rows never has longer lines than all of them. */
  lemma RowLinesStep(ns: string, rows: seq<Counters.Row>, j: nat)
    requires j < |rows|
    ensures RowLines(ns, rows[..j + 1]) == RowLines(ns, rows[..j]) + RequestLine(ns, rows[j])
    ensures |RowLines(ns, rows[..j + 1])| <= |RowLines(ns, rows)|
  {
    assert rows[..j + 1][..j] == rows[..j];
    assert rows[..j + 1] + rows[j + 1..] == rows;
    RowLinesAppend(ns, rows[..j + 1], rows[j + 1..]);
  }

  /**
   * The inner loop: one line per (method, status) cell of one path. The guard after each line is
   * unreachable under the requires. In the source its `break` ends only this inner loop; here
   * `stop` is returned so that the caller ends the outer loop too, as intended.
   */
  method WritePathLines(b: Buffer, at: nat, maxLen: nat, ns: string, stats: Counters.PathStats)
    returns (len: nat, stop: bool)
    requires b.Valid() && b.Terminated() && at == |b.text| && b.data.Length == maxLen + 1
    requires at + |RowLines(ns, Counters.CellRows(stats.path, stats.cells))| < maxLen
    modifies b, b.data
    ensures b.Valid() && b.Terminated()
    ensures b.text == old(b.text) + RowLines(ns, Counters.CellRows(stats.path, stats.cells))
    ensures len == |b.text| && !stop
  {
    ghost var done := b.text;
    ghost var rows := Counters.CellRows(stats.path, stats.cells);
    len := at;
    stop := false;
    var j := 0;
    assert done + RowLines(ns, rows[..0]) == done;
    while j < |stats.cells|
      invariant j <= |stats.cells|
      invariant b.Valid() && b.Terminated() && len == |b.text|
      invariant b.text == done + RowLines(ns, rows[..j])
    {
      var row := Counters.Row(stats.path, stats.cells[j].key, stats.cells[j].count);
      assert row == rows[j];
      RowLinesStep(ns, rows, j);
      len := WriteRequestLine(b, len, maxLen, ns, row);
      Assoc(done, RowLines(ns, rows[..j]), RequestLine(ns, row));
      assert len <= at + |RowLines(ns, rows)|;
      if len >= maxLen {
        assert false;
        stop := true;
        break;
      }
      j := j + 1;
    }
    assert rows[..j] == rows;
  }

  /** Splitting a table splits its rows. */
  lemma {:induction false} RowsSplit(t: Counters.Table, i: nat)
    requires i <= |t|
    ensures Counters.Rows(t) == Counters.Rows(t[..i]) + Counters.Rows(t[i..])
    decreases i
  {
    if i == 0 {
      assert t[..0] == [] && t[0..] == t;
    } else {
      var head := Counters.CellRows(t[0].path, t[0].cells);
      RowsSplit(t[1..], i - 1);
      assert t[1..][..i - 1] == t[..i][1..];
      assert t[1..][i - 1..] == t[i..];
      assert Counters.Rows(t[..i]) == head + Counters.Rows(t[..i][1..]);
    }
  }

  /** Taking one more path appends its cells' rows. */
  lemma RowsPrefixStep(t: Counters.Table, i: nat)
    requires i < |t|
    ensures Counters.Rows(t[..i + 1]) == Counters.Rows(t[..i]) + Counters.CellRows(t[i].path, t[i].cells)
  {
    var cells := Counters.CellRows(t[i].path, t[i].cells);
    RowsSplit(t[..i + 1], i);
    assert t[..i + 1][..i] == t[..i];
    assert t[..i + 1][i..] == [t[i]];
    assert Counters.Rows([t[i]]) == cells + Counters.Rows([]);
    assert cells + [] == cells;
  }

  /** Taking one more path appends its lines; a prefix of the paths never has longer lines than all of them. */
  lemma TableRowsStep(ns: string, t: Counters.Table, i: nat)
    requires i < |t|
    ensures var before := Counters.Rows(t[..i]);
      var cells := Counters.CellRows(t[i].path, t[i].cells);
      RowLines(ns, Counters.Rows(t[..i + 1])) == RowLines(ns, before) + RowLines(ns, cells)
      && |RowLines(ns, Counters.Rows(t[..i + 1]))| <= |RowLines(ns, Counters.Rows(t))|
  {
    RowsPrefixStep(t, i);
    RowLinesAppend(ns, Counters.Rows(t[..i]), Counters.CellRows(t[i].path, t[i].cells));
    RowsSplit(t, i + 1);
    RowLinesAppend(ns, Counters.Rows(t[..i + 1]), Counters.Rows(t[i + 1..]));
  }

  /**
   * The nested loops over paths and their cells, in the map's order. The guard is unreachable
   * under the requires; the source's `break` would end only the inner loop.
   */
  method WriteRequestLines(b: Buffer, at: nat, maxLen: nat, ns: string, table: Counters.Table) returns (len: nat)
    requires b.Valid() && b.Terminated() && at == |b.text| && b.data.Length == maxLen + 1
    requires at + |RowLines(ns, Counters.Rows(table))| < maxLen
    modifies b, b.data
    ensures b.Valid() && b.Terminated() && b.text == old(b.text) + RowLines(ns, Counters.Rows(table))
    ensures len == |b.text|
  {
    ghost var done := b.text;
    len := at;
    var i := 0;
    assert table[..0] == [] && done + RowLines(ns, []) == done;
    while i < |table|
      invariant i <= |table|
      invariant b.Valid() && b.Terminated() && len == |b.text|
      invariant b.text == done + RowLines(ns, Counters.Rows(table[..i]))
    {
      TableRowsStep(ns, table, i);
      ghost var before := RowLines(ns, Counters.Rows(table[..i]));
      var stop;
      len, stop := WritePathLines(b, len, maxLen, ns, table[i]);
      Assoc(done, before, RowLines(ns, Counters.CellRows(table[i].path, table[i].cells)));
      if stop {
        assert false;
        break;
      }
      i := i + 1;
    }
    assert table[..i] == table;
  }

  // ---------------------------------------------------------------- getMetrics

  /** getRequestCounts: the number of (method, status) entries over all paths, one per counter line. */
  method GetRequestCounts(table: Counters.Table) returns (count: nat)
    ensures count == Counters.Entries(table)
    ensures Counters.Sorted(table) ==> count == |Counters.Rows(table)|
  {
    count := 0;
    var i := 0;
    assert table[0..] == table;
    while i < |table|
      invariant i <= |table|
      invariant count + Counters.Entries(table[i..]) == Counters.Entries(table)
    {
      assert table[i..][1..] == table[i + 1..];
      count := count + |table[i].cells|;
      i := i + 1;
    }
    if Counters.Sorted(table) {
      Counters.RowsOrdered(table);
    }
  }

  /**
   * The loop that computes uri_len_sum, corrected to count every path once per counter line
   * that prints it (the path's length times its number of cells).
   */
  method SumPathLengths(table: Counters.Table) returns (sum: nat)
    ensures sum == PathCharsPerEntry(table)
  {
    sum := 0;
    var i := 0;
    assert table[0..] == table;
    while i < |table|
      invariant i <= |table|
      invariant sum + PathCharsPerEntry(table[i..]) == PathCharsPerEntry(table)
    {
      assert table[i..][1..] == table[i + 1..];
      sum := sum + |table[i].path| * |table[i].cells|;
      i := i + 1;
    }
  }

  /** max_len as getMetrics adds it up, with the corrected uri_len_sum. */
  method ComputeMaxLen(ns: string, info: BuildInfo, table: Counters.Table, openmetrics: bool) returns (maxLen: nat)
    ensures maxLen == MaxLen(ns, info, table, openmetrics)
  {
    var uriLenSum := SumPathLengths(table);
    var requestCounts := GetRequestCounts(table);
    var requests := 86 + 36 + |ns| * 2 + (83 + |ns|) * requestCounts + uriLenSum;
    assert requests == RequestsBudget(|ns|, table);
    maxLen := TemperatureBudget(|ns|, openmetrics) + HumidityBudget(|ns|, openmetrics)
              + HeapBudget(openmetrics) + BuildInfoBudget(|ns|, info, openmetrics)
              + requests + EofBudget(openmetrics);
  }

  /** The scrape text is the fixed groups followed by the tail. */
  lemma MetricsTextParts(ns: string, info: BuildInfo, readings: Readings, table: Counters.Table, openmetrics: bool)
    ensures MetricsText(ns, info, readings, table, openmetrics)
            == FixedSections(ns, info, readings, openmetrics) + Tail(ns, table, openmetrics)
  {
    Assoc(FixedSections(ns, info, readings, openmetrics), RowLines(ns, Counters.Rows(table)),
          if openmetrics then EOF_LINE else "");
  }

  /** What follows the fixed groups: one line per counter and, under OpenMetrics, "# EOF". */
  function Tail(ns: string, table: Counters.Table, openmetrics: bool): string {
    RowLines(ns, Counters.Rows(table)) + (if openmetrics then EOF_LINE else "")
  }

  /**
   * The counter lines, then "# EOF" by strncpy of 7 characters (so its NUL too), into a buffer
   * of `max_len + 1` characters.
   */
  method WriteTail(b: Buffer, at: nat, maxLen: nat, ns: string, table: Counters.Table, openmetrics: bool)
    requires b.Valid() && b.Terminated() && at == |b.text| && b.data.Length == maxLen + 1
    requires at + |Tail(ns, table, openmetrics)| < maxLen
    modifies b, b.data
    ensures b.Valid() && b.Terminated() && b.text == old(b.text) + Tail(ns, table, openmetrics)
  {
    ghost var done := b.text;
    ghost var lines := RowLines(ns, Counters.Rows(table));
    var len := WriteRequestLines(b, at, maxLen, ns, table);
    if openmetrics {
      b.Strncpy(len, EOF_LINE, Min(maxLen - len, 7));
      assert EOF_LINE[..6] == EOF_LINE;
      Assoc(done, lines, EOF_LINE);
    } else {
      assert lines + "" == lines;
    }
  }

  /** Under the corrected budget the fixed groups and the tail leave room for the final NUL. */
  lemma ScrapeFits(ns: string, info: BuildInfo, readings: Readings, table: Counters.Table, openmetrics: bool)
    requires WithinAssumptions(info, readings, table)
    ensures |info.commit| == 7
    ensures |FixedSections(ns, info, readings, openmetrics)| + |Tail(ns, table, openmetrics)| < MaxLen(ns, info, table, openmetrics)
    ensures MetricsText(ns, info, readings, table, openmetrics)
            == FixedSections(ns, info, readings, openmetrics) + Tail(ns, table, openmetrics)
  {
    MetricsFit(ns, info, readings, table, openmetrics);
    MetricsTextParts(ns, info, readings, table, openmetrics);
  }

  /**
   * The writing half of getMetrics: a buffer of `max_len + 1` characters receives the fixed
   * groups and the tail.
   */
  method WriteScrape(maxLen: nat, ns: string, info: BuildInfo, readings: Readings,
                     table: Counters.Table, openmetrics: bool)
    returns (b: Buffer)
    requires |info.commit| == 7
    requires |FixedSections(ns, info, readings, openmetrics)| + |Tail(ns, table, openmetrics)| < maxLen
    ensures fresh(b) && fresh(b.data) && b.data.Length == maxLen + 1
    ensures b.Valid() && b.Terminated()
    ensures b.text == FixedSections(ns, info, readings, openmetrics) + Tail(ns, table, openmetrics)
  {
    b := new Buffer(maxLen + 1);
    ghost var fixed := FixedSections(ns, info, readings, openmetrics);
    assert [] + fixed == fixed;
    var len := WriteFixedSections(b, 0, ns, info, readings, openmetrics);
    WriteTail(b, len, maxLen, ns, table, openmetrics);
  }

  /**
   * getMetrics with the corrected budget: the result is the buffer read as a C string, which is
   * the scrape text up to its first NUL.
   */
  method GetMetrics(ns: string, info: BuildInfo, readings: Readings, table: Counters.Table, openmetrics: bool)
    returns (metrics: string)
    requires WithinAssumptions(info, readings, table)
    ensures metrics == Utils.CStr(MetricsText(ns, info, readings, table, openmetrics))
  {
    var maxLen := ComputeMaxLen(ns, info, table, openmetrics);
    ScrapeFits(ns, info, readings, table, openmetrics);
    var b := WriteScrape(maxLen, ns, info, readings, table, openmetrics);
    TerminatedCStr(b);
    metrics := Utils.CStr(b.data[..]);
  }

  /** Read as a C string, a terminated buffer holds its text up to the text's first NUL. */
  lemma TerminatedCStr(b: Buffer)
    requires b.Valid() && b.Terminated()
    ensures Utils.CStr(b.data[..]) == Utils.CStr(b.text)
  {
    assert b.data[..][..|b.text|] == b.text;
    CStrOfTerminated(b.data[..], b.text);
  }

  /** A C string reader stops at the NUL after `t`, or earlier at a NUL inside `t`. */
  lemma CStrOfTerminated(s: string, t: string)
    requires |t| < |s| && s[..|t|] == t && s[|t|] == NUL
    ensures Utils.CStr(s) == Utils.CStr(t)
  {
    Utils.FirstNulSpec(s, 0, |s|);
    Utils.FirstNulSpec(t, 0, |t|);
  }
}
