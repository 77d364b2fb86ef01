/**
 * The text src/prometheus.cpp produces for a scrape: metric line groups, the build-info sample,
 * one line per request counter and the optional "# EOF" marker, together with the buffer budget
 * getMetrics computes before writing.
 */
module Metrics {
  import opened Common
  import opened Http
  import Counters

  // ---------------------------------------------------------------- metric lines

  /** `[ns_]name[_unit]`: the namespace and unit parts are left out when empty. */
  function MetricName(ns: string, name: string, unit: string): string {
    (if ns == "" then "" else ns + "_") + name + (if unit == "" then "" else "_" + unit)
  }

  /** writeMetricMetadataLine's text: `# FIELD NAME VALUE` and a newline. */
  function MetadataLine(field: string, ns: string, name: string, unit: string, value: string): string {
    "# " + field + " " + MetricName(ns, name, unit) + " " + value + "\n"
  }

  /** `s` is one text line: it ends with its only newline. */
  predicate IsLine(s: string) {
    |s| > 0 && s[|s| - 1] == '\n' && forall k :: 0 <= k < |s| - 1 ==> s[k] != '\n'
  }

  predicate NoNewline(s: string) {
    forall k :: 0 <= k < |s| ==> s[k] != '\n'
  }

  lemma NoNewlineConcat(a: string, b: string)
    ensures NoNewline(a + b) <==> NoNewline(a) && NoNewline(b)
  {
    if NoNewline(a) && NoNewline(b) {
      forall k | 0 <= k < |a + b|
        ensures (a + b)[k] != '\n'
      {
        if k >= |a| {
          assert (a + b)[k] == b[k - |a|];
        }
      }
    }
    if NoNewline(a + b) {
      forall k | 0 <= k < |b|
        ensures b[k] != '\n'
      {
        assert (a + b)[|a| + k] == b[k];
      }
      forall k | 0 <= k < |a|
        ensures a[k] != '\n'
      {
        assert (a + b)[k] == a[k];
      }
    }
  }

  lemma LineOf(body: string)
    requires NoNewline(body)
    ensures IsLine(body + "\n")
  {
    forall k | 0 <= k < |body|
      ensures (body + "\n")[k] != '\n'
    {
      assert (body + "\n")[k] == body[k];
    }
  }

  /**
   * The metric name's length: the namespace adds itself and its '_' only when non-empty, and
   * so does the unit.
   */
  lemma MetricNameLength(ns: string, name: string, unit: string)
    ensures |MetricName(ns, name, unit)|
         == (if ns == "" then 0 else |ns| + 1) + |name| + (if unit == "" then 0 else |unit| + 1)
    ensures ns == "" && unit == "" ==> MetricName(ns, name, unit) == name
  {
  }

  /**
   * A metadata line is one line of `7 + |field| + |name part| + |value|` characters... counted as
   * "# ", the field, a blank, the name, a blank, the value and the newline.
   */
  lemma MetadataLineShape(field: string, ns: string, name: string, unit: string, value: string)
    ensures var line := MetadataLine(field, ns, name, unit, value);
      |line| == 5 + |field| + |MetricName(ns, name, unit)| + |value|
      && line[..2] == "# " && line[2..2 + |field|] == field
    ensures NoNewline(field) && NoNewline(ns) && NoNewline(name) && NoNewline(unit) && NoNewline(value)
      ==> IsLine(MetadataLine(field, ns, name, unit, value))
  {
    var line := MetadataLine(field, ns, name, unit, value);
    assert line == "# " + field + (" " + MetricName(ns, name, unit) + " " + value + "\n");
    if NoNewline(field) && NoNewline(ns) && NoNewline(name) && NoNewline(unit) && NoNewline(value) {
      NoNewlineConcat(ns, "_");
      NoNewlineConcat("_", unit);
      var nsPart := if ns == "" then "" else ns + "_";
      var unitPart := if unit == "" then "" else "_" + unit;
      NoNewlineConcat(nsPart, name);
      NoNewlineConcat(nsPart + name, unitPart);
      var body := "# " + field + " " + MetricName(ns, name, unit) + " " + value;
      NoNewlineConcat("# ", field);
      NoNewlineConcat("# " + field, " ");
      NoNewlineConcat("# " + field + " ", MetricName(ns, name, unit));
      NoNewlineConcat("# " + field + " " + MetricName(ns, name, unit), " ");
      NoNewlineConcat("# " + field + " " + MetricName(ns, name, unit) + " ", value);
      LineOf(body);
    }
  }

  /** One gauge: its names, its description and type, and the reading (None for NaN). */
  datatype Metric = Metric(ns: string, name: string, unit: string, description: string, kind: string,
                           value: Option<string>)

  /** The sample's tail: `" %.3f\n"` of the reading, or `" NAN\n"`. */
  function SampleValue(value: Option<string>): string {
    match value
    case None => " NAN\n"
    case Some(text) => " " + text + "\n"
  }

  /** writeMetric's text: HELP and TYPE, UNIT under OpenMetrics only, then the sample. */
  function MetricText(m: Metric, openmetrics: bool): string {
    MetadataLine("HELP", m.ns, m.name, m.unit, m.description)
    + MetadataLine("TYPE", m.ns, m.name, m.unit, m.kind)
    + (if openmetrics then MetadataLine("UNIT", m.ns, m.name, m.unit, m.unit) else "")
    + MetricName(m.ns, m.name, m.unit) + SampleValue(m.value)
  }

  lemma MetricTextLength(m: Metric, openmetrics: bool)
    ensures var nameLength := |MetricName(m.ns, m.name, m.unit)|;
      |MetricText(m, openmetrics)|
      == (if openmetrics then 3 else 2) * (9 + nameLength) + |m.description| + |m.kind|
         + (if openmetrics then |m.unit| else 0) + nameLength + |SampleValue(m.value)|
  {
    MetadataLineShape("HELP", m.ns, m.name, m.unit, m.description);
    MetadataLineShape("TYPE", m.ns, m.name, m.unit, m.kind);
    MetadataLineShape("UNIT", m.ns, m.name, m.unit, m.unit);
  }

  /** `%.3f` of an integral value: its decimal digits and ".000". */
  function FixedText(n: nat): string {
    Decimal(n) + ".000"
  }

  /** The three gauges, each given the `%.3f` text of its reading. */
  function TemperatureMetric(ns: string, value: Option<string>): Metric {
    Metric(ns, "external_temperature", "celsius",
           "The current measured external temperature in degrees celsius.", "gauge", value)
  }

  function HumidityMetric(ns: string, value: Option<string>): Metric {
    Metric(ns, "external_humidity", "percent",
           "The current measured external relative humidity in percent.", "gauge", value)
  }

  function HeapMetric(usedHeap: nat): Metric {
    Metric("process", "heap", "bytes", "The amount of heap used on the ESP in bytes.", "gauge",
           Some(FixedText(usedHeap)))
  }

  // ---------------------------------------------------------------- build info

  /** The compile-time labels: commit hash, MCU type, Arduino, SDK and C++ standard versions. */
  datatype BuildInfo = BuildInfo(commit: string, mcuType: string, arduinoVersion: string,
                                 sdkVersion: string, cppVersion: string)

  /** The build_info sample; the namespace is written even when empty. */
  function BuildInfoSample(ns: string, info: BuildInfo): string {
    ns + "_build_info{esptherm_commit=\"" + info.commit + "\",mcu_type=\"" + info.mcuType
    + "\",arduino_version=\"" + info.arduinoVersion + "\",sdk_version=\"" + info.sdkVersion
    + "\",cpp_std_version=\"" + info.cppVersion + "\"} 1\n"
  }

  /** The build_info type: "info" under OpenMetrics, "gauge" otherwise. */
  function BuildInfoKind(openmetrics: bool): string {
    if openmetrics then "info" else "gauge"
  }

  function BuildInfoText(ns: string, info: BuildInfo, openmetrics: bool): string {
    MetadataLine("HELP", ns, "build_info", "", "A constant 1 with compile time information as labels.")
    + MetadataLine("TYPE", ns, "build_info", "", BuildInfoKind(openmetrics))
    + BuildInfoSample(ns, info)
  }

  // ---------------------------------------------------------------- request lines

  /** The method label: the lower-case method name, "unknown" for any other value. */
  function MethodLabel(m: Mask): string {
    if m == GET then "get"
    else if m == POST then "post"
    else if m == PUT then "put"
    else if m == PATCH then "patch"
    else if m == DELETE then "delete"
    else if m == HEAD then "head"
    else if m == OPTIONS then "options"
    else "unknown"
  }

  function LowerChar(c: char): char {
    if 'A' <= c <= 'Z' then (c as int - 'A' as int + 'a' as int) as char else c
  }

  function Lower(s: string): (r: string)
    ensures |r| == |s| && forall k :: 0 <= k < |s| ==> r[k] == LowerChar(s[k])
  {
    seq(|s|, k requires 0 <= k < |s| => LowerChar(s[k]))
  }

  /** The label is the method's name in lower case, and "unknown" for anything but the seven methods. */
  lemma MethodLabelIsLowerName(m: Mask)
    ensures m in METHODS ==> MethodLabel(m) == Lower(MethodName(m))
    ensures m !in METHODS ==> MethodLabel(m) == "unknown"
    ensures |MethodLabel(m)| <= 7
  {
    if m in METHODS {
      var i := MethodIndex(m);
      var name := MethodName(m);
      assert name == METHOD_NAMES[i];
      assert Lower(name) == MethodLabel(m);
    }
  }

  /** One counter line: `NS_http_requests_total{method="m",code="c",path="p"} count.000`. */
  function RequestLine(ns: string, row: Counters.Row): string {
    ns + "_http_requests_total{method=\"" + MethodLabel(row.key.requestMethod) + CodeAndPath(row)
  }

  /** The part of a counter line that snprintf formats: code, path and count. */
  function CodeAndPath(row: Counters.Row): string {
    "\",code=\"" + Decimal(row.key.status) + "\",path=\"" + row.path + "\"} " + FixedText(row.count) + "\n"
  }

  /** The counter lines of `rows`, in order. */
  function RowLines(ns: string, rows: seq<Counters.Row>): string {
    if rows == [] then "" else RowLines(ns, rows[..|rows| - 1]) + RequestLine(ns, rows[|rows| - 1])
  }

  lemma {:induction false} RowLinesAppend(ns: string, a: seq<Counters.Row>, b: seq<Counters.Row>)
    ensures RowLines(ns, a + b) == RowLines(ns, a) + RowLines(ns, b)
    decreases |b|
  {
    if b == [] {
      assert a + b == a;
    } else {
      var last := |b| - 1;
      var ab := a + b;
      var front := a + b[..last];
      var line := RequestLine(ns, b[last]);
      assert ab[..|ab| - 1] == front && ab[|ab| - 1] == b[last];
      assert RowLines(ns, ab) == RowLines(ns, front) + line;
      RowLinesAppend(ns, a, b[..last]);
      assert RowLines(ns, b) == RowLines(ns, b[..last]) + line;
      Assoc(RowLines(ns, a), RowLines(ns, b[..last]), line);
    }
  }

  /** The HELP and TYPE lines of http_requests_total. */
  function RequestsHeader(ns: string): string {
    MetadataLine("HELP", ns, "http_requests_total", "", "The total number of HTTP requests handled by this server.")
    + MetadataLine("TYPE", ns, "http_requests_total", "", "counter")
  }

  /** The sensor readings getMetrics reports; the two floats only through their `%.3f` text. */
  datatype Readings = Readings(temperature: Option<string>, humidity: Option<string>, usedHeap: nat)

  /** The metric groups before the counter lines. */
  function FixedSections(ns: string, info: BuildInfo, readings: Readings, openmetrics: bool): string {
    MetricText(TemperatureMetric(ns, readings.temperature), openmetrics)
    + MetricText(HumidityMetric(ns, readings.humidity), openmetrics)
    + MetricText(HeapMetric(readings.usedHeap), openmetrics)
    + BuildInfoText(ns, info, openmetrics)
    + RequestsHeader(ns)
  }

  const EOF_LINE: string := "# EOF\n"

  /** The whole scrape: the fixed groups, one line per counter in map order, "# EOF" under OpenMetrics. */
  function MetricsText(ns: string, info: BuildInfo, readings: Readings, table: Counters.Table, openmetrics: bool): string {
    FixedSections(ns, info, readings, openmetrics) + RowLines(ns, Counters.Rows(table))
    + (if openmetrics then EOF_LINE else "")
  }

  // ---------------------------------------------------------------- budgets

  /** temp_max_len, humidity_max_len and heap_max_len (the ESP32 build). */
  function TemperatureBudget(nsLength: nat, openmetrics: bool): nat {
    99 + 43 + nsLength * 3 + (if openmetrics then 45 + nsLength else 0) + 38
  }

  function HumidityBudget(nsLength: nat, openmetrics: bool): nat {
    94 + 40 + nsLength * 3 + (if openmetrics then 42 + nsLength else 0) + 35
  }

  function HeapBudget(openmetrics: bool): nat {
    71 + 32 + (if openmetrics then 32 else 0) + 34
  }

  /** build_info_max_len as written: 104 fixed characters for the sample line. */
  function BuildInfoBudgetAsWritten(nsLength: nat, info: BuildInfo, openmetrics: bool): nat {
    73 + 25 + nsLength * 3 + (if openmetrics then -1 else 0) + 104
    + |info.mcuType| + |info.arduinoVersion| + |info.sdkVersion| + |info.cppVersion|
  }

  /** build_info_max_len counting the sample line's 106 fixed characters. */
  function BuildInfoBudget(nsLength: nat, info: BuildInfo, openmetrics: bool): nat {
    73 + 25 + nsLength * 3 + (if openmetrics then -1 else 0) + 106
    + |info.mcuType| + |info.arduinoVersion| + |info.sdkVersion| + |info.cppVersion|
  }

  /** uri_len_sum: every path's length, once per path. */
  function UriLenSum(t: Counters.Table): nat {
    if t == [] then 0 else |t[0].path| + UriLenSum(t[1..])
  }

  /** Every path's length once per counter line that prints it. */
  function PathCharsPerEntry(t: Counters.Table): nat {
    if t == [] then 0 else |t[0].path| * |t[0].cells| + PathCharsPerEntry(t[1..])
  }

  /** web_requests_total_max_len as written. */
  function RequestsBudgetAsWritten(nsLength: nat, t: Counters.Table): nat {
    86 + 36 + nsLength * 2 + (83 + nsLength) * Counters.Entries(t) + UriLenSum(t)
  }

  /** web_requests_total_max_len with the path counted on every line. */
  function RequestsBudget(nsLength: nat, t: Counters.Table): nat {
    86 + 36 + nsLength * 2 + (83 + nsLength) * Counters.Entries(t) + PathCharsPerEntry(t)
  }

  /** eof_max_len as written: 5 characters for the 6 of "# EOF\n". */
  function EofBudgetAsWritten(openmetrics: bool): nat {
    if openmetrics then 5 else 0
  }

  /**
   * eof_max_len covering "# EOF\n" and the terminator that strncpy (for "# EOF") or snprintf
   * (for the last counter line) keeps inside `max_len`.
   */
  function EofBudget(openmetrics: bool): nat {
    (if openmetrics then 6 else 0) + 1
  }

  /** max_len as getMetrics computes it. */
  function MaxLenAsWritten(ns: string, info: BuildInfo, t: Counters.Table, openmetrics: bool): nat {
    TemperatureBudget(|ns|, openmetrics) + HumidityBudget(|ns|, openmetrics) + HeapBudget(openmetrics)
    + BuildInfoBudgetAsWritten(|ns|, info, openmetrics) + RequestsBudgetAsWritten(|ns|, t)
    + EofBudgetAsWritten(openmetrics)
  }

  /** max_len with the three corrections. */
  function MaxLen(ns: string, info: BuildInfo, t: Counters.Table, openmetrics: bool): nat {
    TemperatureBudget(|ns|, openmetrics) + HumidityBudget(|ns|, openmetrics) + HeapBudget(openmetrics)
    + BuildInfoBudget(|ns|, info, openmetrics) + RequestsBudget(|ns|, t) + EofBudget(openmetrics)
  }

  /**
   * What the budget comments assume: readings of at most three digits before and after the dot,
   * a used heap within 32 bits, a seven-character commit hash, three-digit status codes and
   * (from the counter table's invariant) counts within uint64_t.
   */
  predicate WithinAssumptions(info: BuildInfo, readings: Readings, t: Counters.Table) {
    (readings.temperature.Some? ==> |readings.temperature.value| <= 7)
    && (readings.humidity.Some? ==> |readings.humidity.value| <= 7)
    && readings.usedHeap < 0x1_0000_0000
    && |info.commit| == 7
    && Counters.Sorted(t)
    && forall i, j :: 0 <= i < |t| && 0 <= j < |t[i].cells| ==> t[i].cells[j].key.status < 1000
  }

  // ---------------------------------------------------------------- lengths of the sections

  lemma SampleValueLength(value: Option<string>)
    ensures |SampleValue(value)| == if value.Some? then |value.value| + 2 else 5
  {
  }

  lemma TemperatureFits(ns: string, value: Option<string>, openmetrics: bool)
    requires value.Some? ==> |value.value| <= 7
    ensures |MetricText(TemperatureMetric(ns, value), openmetrics)| <= TemperatureBudget(|ns|, openmetrics)
    ensures ns != "" && value.Some? && |value.value| == 7
      ==> |MetricText(TemperatureMetric(ns, value), openmetrics)| == TemperatureBudget(|ns|, openmetrics)
  {
    var m := TemperatureMetric(ns, value);
    MetricTextLength(m, openmetrics);
    MetricNameLength(ns, m.name, m.unit);
  }

  lemma HumidityFits(ns: string, value: Option<string>, openmetrics: bool)
    requires value.Some? ==> |value.value| <= 7
    ensures |MetricText(HumidityMetric(ns, value), openmetrics)| <= HumidityBudget(|ns|, openmetrics)
    ensures ns != "" && value.Some? && |value.value| == 7
      ==> |MetricText(HumidityMetric(ns, value), openmetrics)| == HumidityBudget(|ns|, openmetrics)
  {
    var m := HumidityMetric(ns, value);
    MetricTextLength(m, openmetrics);
    MetricNameLength(ns, m.name, m.unit);
  }

  lemma HeapFits(usedHeap: nat, openmetrics: bool)
    requires usedHeap < 0x1_0000_0000
    ensures |MetricText(HeapMetric(usedHeap), openmetrics)| <= HeapBudget(openmetrics)
    ensures usedHeap >= 1_000_000_000 ==> |MetricText(HeapMetric(usedHeap), openmetrics)| == HeapBudget(openmetrics)
  {
    var m := HeapMetric(usedHeap);
    MetricTextLength(m, openmetrics);
    MetricNameLength(m.ns, m.name, m.unit);
    assert Pow10(9) == 1_000_000_000 && Pow10(10) == 10_000_000_000;
    DecimalLength(usedHeap, 10);
    DecimalLength(usedHeap, 9);
  }

  lemma BuildInfoLength(ns: string, info: BuildInfo, openmetrics: bool)
    requires |info.commit| == 7
    ensures |BuildInfoText(ns, info, openmetrics)|
         == BuildInfoBudget(|ns|, info, openmetrics) - (if ns == "" then 2 else 0)
  {
    MetadataLineShape("HELP", ns, "build_info", "", "A constant 1 with compile time information as labels.");
    MetadataLineShape("TYPE", ns, "build_info", "", BuildInfoKind(openmetrics));
    MetricNameLength(ns, "build_info", "");
  }

  lemma RequestsHeaderLength(ns: string)
    ensures |RequestsHeader(ns)| == 86 + 36 + |ns| * 2 - (if ns == "" then 2 else 0)
  {
    MetadataLineShape("HELP", ns, "http_requests_total", "", "The total number of HTTP requests handled by this server.");
    MetadataLineShape("TYPE", ns, "http_requests_total", "", "counter");
    MetricNameLength(ns, "http_requests_total", "");
  }

  /** A count below 2^64 has at most 20 digits. */
  lemma CountDigits(count: nat)
    requires count < Counters.COUNT_MODULUS
    ensures |FixedText(count)| <= 24
  {
    assert Pow10(10) == 10_000_000_000;
    Pow10Add(10, 10);
    DecimalLength(count, 20);
  }

  /** With a 3-digit status, each counter line is at most `83 + |ns| + |path|` characters. */
  lemma RequestLineFits(ns: string, row: Counters.Row)
    requires row.key.status < 1000 && row.count < Counters.COUNT_MODULUS
    ensures |RequestLine(ns, row)| <= 83 + |ns| + |row.path|
  {
    MethodLabelIsLowerName(row.key.requestMethod);
    CountDigits(row.count);
    assert Pow10(3) == 1000;
    DecimalLength(row.key.status, 3);
  }

  /** The budget of a run of counter lines: `83 + |ns| + |path|` per line. */
  function RowsBudget(nsLength: nat, rows: seq<Counters.Row>): nat {
    if rows == [] then 0 else RowsBudget(nsLength, rows[..|rows| - 1]) + 83 + nsLength + |rows[|rows| - 1].path|
  }

  predicate RowsWithinAssumptions(rows: seq<Counters.Row>) {
    forall i :: 0 <= i < |rows| ==> rows[i].key.status < 1000 && rows[i].count < Counters.COUNT_MODULUS
  }

  lemma {:induction false} RowLinesFit(ns: string, rows: seq<Counters.Row>)
    requires RowsWithinAssumptions(rows)
    ensures |RowLines(ns, rows)| <= RowsBudget(|ns|, rows)
    decreases |rows|
  {
    if rows != [] {
      var last := |rows| - 1;
      RowLinesFit(ns, rows[..last]);
      RequestLineFits(ns, rows[last]);
    }
  }

  lemma {:induction false} RowsBudgetAppend(nsLength: nat, a: seq<Counters.Row>, b: seq<Counters.Row>)
    ensures RowsBudget(nsLength, a + b) == RowsBudget(nsLength, a) + RowsBudget(nsLength, b)
    decreases |b|
  {
    if b != [] {
      var last := |b| - 1;
      assert (a + b)[..|a + b| - 1] == a + b[..last];
      RowsBudgetAppend(nsLength, a, b[..last]);
    } else {
      assert a + b == a;
    }
  }

  lemma {:induction false} CellRowsBudget(nsLength: nat, path: string, cells: seq<Counters.Cell>)
    ensures RowsBudget(nsLength, Counters.CellRows(path, cells)) == (83 + nsLength + |path|) * |cells|
    decreases |cells|
  {
    if cells != [] {
      var n := |cells|;
      var rows := Counters.CellRows(path, cells);
      var perLine := 83 + nsLength + |path|;
      assert rows[..n - 1] == Counters.CellRows(path, cells[..n - 1]);
      CellRowsBudget(nsLength, path, cells[..n - 1]);
      assert RowsBudget(nsLength, rows) == RowsBudget(nsLength, rows[..n - 1]) + perLine;
      MulStep(perLine, n - 1);
    }
  }

  lemma MulStep(c: nat, n: nat)
    ensures c * (n + 1) == c * n + c
  {
  }

  lemma Distribute(a: nat, b: nat, n: nat)
    ensures (a + b) * n == a * n + b * n
    ensures n * (a + b) == n * a + n * b
  {
  }

  /** The per-line budget summed over the table is the corrected web_requests_total_max_len's count part. */
  lemma {:induction false} TableRowsBudget(nsLength: nat, t: Counters.Table)
    ensures RowsBudget(nsLength, Counters.Rows(t)) == (83 + nsLength) * Counters.Entries(t) + PathCharsPerEntry(t)
    decreases |t|
  {
    if t != [] {
      var head := Counters.CellRows(t[0].path, t[0].cells);
      var p := 83 + nsLength;
      var n := |t[0].cells|;
      var e := Counters.Entries(t[1..]);
      assert Counters.Rows(t) == head + Counters.Rows(t[1..]);
      RowsBudgetAppend(nsLength, head, Counters.Rows(t[1..]));
      CellRowsBudget(nsLength, t[0].path, t[0].cells);
      TableRowsBudget(nsLength, t[1..]);
      Distribute(p, |t[0].path|, n);
      Distribute(n, e, p);
      assert Counters.Entries(t) == n + e;
      assert PathCharsPerEntry(t) == |t[0].path| * n + PathCharsPerEntry(t[1..]);
    }
  }

  lemma {:induction false} TableRowsWithinAssumptions(t: Counters.Table)
    requires Counters.Sorted(t)
    requires forall i, j :: 0 <= i < |t| && 0 <= j < |t[i].cells| ==> t[i].cells[j].key.status < 1000
    ensures RowsWithinAssumptions(Counters.Rows(t))
    decreases |t|
  {
    if t != [] {
      assert Counters.Sorted(t[1..]);
      TableRowsWithinAssumptions(t[1..]);
      var head := Counters.CellRows(t[0].path, t[0].cells);
      var rows := Counters.Rows(t);
      forall i | 0 <= i < |rows|
        ensures rows[i].key.status < 1000 && rows[i].count < Counters.COUNT_MODULUS
      {
        if i < |head| {
          assert rows[i] == head[i];
        } else {
          assert rows[i] == Counters.Rows(t[1..])[i - |head|];
        }
      }
    }
  }

  /** The groups before the counter lines fit their five budgets. */
  lemma FixedSectionsFit(ns: string, info: BuildInfo, readings: Readings, openmetrics: bool)
    requires (readings.temperature.Some? ==> |readings.temperature.value| <= 7)
    requires (readings.humidity.Some? ==> |readings.humidity.value| <= 7)
    requires readings.usedHeap < 0x1_0000_0000 && |info.commit| == 7
    ensures |FixedSections(ns, info, readings, openmetrics)|
         <= TemperatureBudget(|ns|, openmetrics) + HumidityBudget(|ns|, openmetrics) + HeapBudget(openmetrics)
            + BuildInfoBudget(|ns|, info, openmetrics) + 86 + 36 + |ns| * 2
  {
    TemperatureFits(ns, readings.temperature, openmetrics);
    HumidityFits(ns, readings.humidity, openmetrics);
    HeapFits(readings.usedHeap, openmetrics);
    BuildInfoLength(ns, info, openmetrics);
    RequestsHeaderLength(ns);
  }

  /** max_len is the budget of the fixed groups, the per-line budget of the counters and the EOF budget. */
  lemma MaxLenParts(ns: string, info: BuildInfo, t: Counters.Table, openmetrics: bool)
    ensures MaxLen(ns, info, t, openmetrics)
         == TemperatureBudget(|ns|, openmetrics) + HumidityBudget(|ns|, openmetrics) + HeapBudget(openmetrics)
            + BuildInfoBudget(|ns|, info, openmetrics) + 86 + 36 + |ns| * 2
            + RowsBudget(|ns|, Counters.Rows(t)) + EofBudget(openmetrics)
  {
    TableRowsBudget(|ns|, t);
  }

  lemma TableLinesFit(ns: string, t: Counters.Table)
    requires Counters.Sorted(t)
    requires forall i, j :: 0 <= i < |t| && 0 <= j < |t[i].cells| ==> t[i].cells[j].key.status < 1000
    ensures |RowLines(ns, Counters.Rows(t))| <= RowsBudget(|ns|, Counters.Rows(t))
  {
    TableRowsWithinAssumptions(t);
    RowLinesFit(ns, Counters.Rows(t));
  }

  /**
   * The corrected budget is an upper bound: the whole scrape and the terminator that the last
   * write keeps inside the buffer fit in `max_len`.
   */
  lemma MetricsFit(ns: string, info: BuildInfo, readings: Readings, t: Counters.Table, openmetrics: bool)
    requires WithinAssumptions(info, readings, t)
    ensures |FixedSections(ns, info, readings, openmetrics)| + RowsBudget(|ns|, Counters.Rows(t))
            + (if openmetrics then 6 else 0) < MaxLen(ns, info, t, openmetrics)
    ensures |MetricsText(ns, info, readings, t, openmetrics)| < MaxLen(ns, info, t, openmetrics)
  {
    FixedSectionsFit(ns, info, readings, openmetrics);
    MaxLenParts(ns, info, t, openmetrics);
    TableLinesFit(ns, t);
  }

  // ---------------------------------------------------------------- findings about the budget

  /** The build_info sample has 106 fixed characters; build_info_max_len budgets 104. */
  lemma BuildInfoOverBudget(ns: string, info: BuildInfo, openmetrics: bool)
    requires ns != "" && |info.commit| == 7
    ensures |BuildInfoText(ns, info, openmetrics)| == BuildInfoBudgetAsWritten(|ns|, info, openmetrics) + 2
  {
    BuildInfoLength(ns, info, openmetrics);
  }

  /** uri_len_sum falls short by each path's length once for every further counter line of that path. */
  lemma {:induction false} UriLenSumShortfall(t: Counters.Table)
    requires Counters.Sorted(t)
    ensures UriLenSum(t) <= PathCharsPerEntry(t)
    ensures (exists i :: 0 <= i < |t| && |t[i].path| > 0 && |t[i].cells| > 1) ==> UriLenSum(t) < PathCharsPerEntry(t)
    decreases |t|
  {
    if t != [] {
      assert Counters.Sorted(t[1..]);
      UriLenSumShortfall(t[1..]);
      if exists i :: 0 <= i < |t| && |t[i].path| > 0 && |t[i].cells| > 1 {
        var i :| 0 <= i < |t| && |t[i].path| > 0 && |t[i].cells| > 1;
        if i > 0 {
          assert t[1..][i - 1] == t[i];
        }
      }
      MulStep(|t[0].path|, |t[0].cells| - 1);
    }
  }

  /** The exact length of a counter line, piece by piece. */
  lemma RequestLineLength(ns: string, row: Counters.Row)
    ensures |RequestLine(ns, row)|
         == |ns| + 49 + |MethodLabel(row.key.requestMethod)| + |Decimal(row.key.status)| + |row.path|
            + |FixedText(row.count)|
  {
  }

  /** Sample inputs: readings and heap at the sizes the budget comments allow. */
  const SAMPLE_NS: string := "esptherm"
  const SAMPLE_INFO: BuildInfo := BuildInfo("0123abc", "esp32", "2.0.5", "v4.4.2", "201703")
  const SAMPLE_READINGS: Readings := Readings(Some("100.000"), Some("100.000"), 4_000_000_000)
  /** A client-chosen path of 100 characters below a registered prefix. */
  const SAMPLE_PATH: string := "/index.html/" + seq(88, _ => 'a')

  /** One path requested once with GET and once with HEAD. */
  const SAMPLE_TABLE: Counters.Table :=
    [Counters.PathStats(SAMPLE_PATH, [Counters.Cell(Counters.Key(GET, 200), 1),
                                      Counters.Cell(Counters.Key(HEAD, 200), 1)])]

  lemma SampleRows()
    ensures Counters.Rows(SAMPLE_TABLE)
         == [Counters.Row(SAMPLE_PATH, Counters.Key(GET, 200), 1),
             Counters.Row(SAMPLE_PATH, Counters.Key(HEAD, 200), 1)]
    ensures Counters.Entries(SAMPLE_TABLE) == 2 && UriLenSum(SAMPLE_TABLE) == 100
  {
    assert SAMPLE_TABLE[1..] == [];
  }

  /**
   * For this sample the scrape is 58 characters longer than the `max_len` getMetrics allocates:
   * 2 for build_info, 1 for "# EOF\n" and 55 because the 100-character path is budgeted once but
   * printed on both lines, less the 23 and 22 characters the per-line budget leaves unused for
   * these short counts. The writes run past the end of the buffer.
   */
  lemma MaxLenAsWrittenTooSmall()
    ensures |MetricsText(SAMPLE_NS, SAMPLE_INFO, SAMPLE_READINGS, SAMPLE_TABLE, true)|
         == MaxLenAsWritten(SAMPLE_NS, SAMPLE_INFO, SAMPLE_TABLE, true) + 58
  {
    SampleFixedSections();
    SampleRowLines();
    SampleRows();
  }

  lemma SampleFixedSections()
    ensures |FixedSections(SAMPLE_NS, SAMPLE_INFO, SAMPLE_READINGS, true)|
         == TemperatureBudget(8, true) + HumidityBudget(8, true) + HeapBudget(true)
            + BuildInfoBudgetAsWritten(8, SAMPLE_INFO, true) + 2 + 138
  {
    TemperatureFits(SAMPLE_NS, SAMPLE_READINGS.temperature, true);
    HumidityFits(SAMPLE_NS, SAMPLE_READINGS.humidity, true);
    HeapFits(SAMPLE_READINGS.usedHeap, true);
    BuildInfoLength(SAMPLE_NS, SAMPLE_INFO, true);
    RequestsHeaderLength(SAMPLE_NS);
  }

  lemma SampleRowLines()
    ensures |RowLines(SAMPLE_NS, Counters.Rows(SAMPLE_TABLE))| == 337
  {
    SampleRows();
    var rows := Counters.Rows(SAMPLE_TABLE);
    RequestLineLength(SAMPLE_NS, rows[0]);
    RequestLineLength(SAMPLE_NS, rows[1]);
    assert |Decimal(200)| == 3 && |FixedText(1)| == 5 && |SAMPLE_PATH| == 100;
    assert |RequestLine(SAMPLE_NS, rows[0])| == 168 && |RequestLine(SAMPLE_NS, rows[1])| == 169;
    assert rows[..1][..0] == [];
    assert RowLines(SAMPLE_NS, rows) == RowLines(SAMPLE_NS, rows[..1]) + RequestLine(SAMPLE_NS, rows[1]);
  }

  // ---------------------------------------------------------------- the overflow guard

  /**
   * Where the loops of getMetrics begin each counter line, as written: `lines[i]` holds the line
   * lengths of path `i`; after a line that brings `len` to `max_len` the `break` leaves only the
   * inner loop, so the next path's lines are still begun.
   */
  function StartsAsWritten(lines: seq<seq<nat>>, len: nat, maxLen: nat): seq<nat>
    decreases |lines|, 1
  {
    if lines == [] then [] else PathStartsAsWritten(lines, 0, len, maxLen)
  }

  function PathStartsAsWritten(lines: seq<seq<nat>>, j: nat, len: nat, maxLen: nat): seq<nat>
    requires lines != []
    decreases |lines|, 0, |lines[0]| - j
  {
    if j >= |lines[0]| then StartsAsWritten(lines[1..], len, maxLen)
    else if len + lines[0][j] >= maxLen then [len] + StartsAsWritten(lines[1..], len + lines[0][j], maxLen)
    else [len] + PathStartsAsWritten(lines, j + 1, len + lines[0][j], maxLen)
  }

  /** Two one-line paths with a budget of 5: the second line is begun at 10, past the buffer. */
  lemma GuardLeavesInnerLoopOnly()
    ensures StartsAsWritten([[10], [10]], 0, 5) == [0, 10]
  {
    assert [[10], [10]][1..] == [[10]];
    assert [[10]][1..] == [];
  }

  /** The guard as intended: once `len` reaches `max_len` no further line is begun. */
  function StartsGuarded(lines: seq<nat>, len: nat, maxLen: nat): seq<nat> {
    if lines == [] then []
    else if len + lines[0] >= maxLen then [len]
    else [len] + StartsGuarded(lines[1..], len + lines[0], maxLen)
  }

  lemma {:induction false} GuardedStartsBelowMaxLen(lines: seq<nat>, len: nat, maxLen: nat)
    requires len < maxLen
    ensures forall k :: 0 <= k < |StartsGuarded(lines, len, maxLen)| ==> StartsGuarded(lines, len, maxLen)[k] < maxLen
    decreases |lines|
  {
    if lines != [] && len + lines[0] < maxLen {
      GuardedStartsBelowMaxLen(lines[1..], len + lines[0], maxLen);
    }
  }
}
