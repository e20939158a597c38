/**
  The reporting half of parse-trace.py's `main`: the three phase durations
  derived from the timestamps dictionary and the `key=value` lines printed
  for a shell script to read.
 */
module TraceReport {
  import opened Wrappers
  import opened TraceRows
  import opened TraceProfile
  import opened Decimal

  const NsPerMs: nat := 1_000_000

  /** Python's `ts.get(key)`: `None` for a key the dictionary lacks. */
  function Get(ts: Timestamps, k: Key): Option<nat> {
    if k in ts then ts[k] else None
  }

  /** Python truthiness of a dictionary value: `None` and `0` are false. */
  predicate Truthy(v: Option<nat>) {
    v.Some? && v.value != 0
  }

  /**
    `(ts[to] - ts[from]) / 1_000_000` when both `ts.get` values are truthy,
    else `None`. The quotient is kept exact, as the nanosecond difference.
   */
  function Span(ts: Timestamps, from: Key, to: Key): Option<int> {
    var start := Get(ts, from);
    var end := Get(ts, to);
    if Truthy(start) && Truthy(end) then Some(end.value - start.value) else None
  }

  /** `runtime_ms`, `vm_init_ms` and `managed_ms`, as nanosecond differences. */
  datatype Durations = Durations(runtime: Option<int>, vmInit: Option<int>, managed: Option<int>)

  function DurationsOf(ts: Timestamps): Durations {
    Durations(
      Span(ts, XamarinMainStart, XamarinInitEnd),
      Span(ts, VmInitStart, VmInitEnd),
      Span(ts, XamarinInitEnd, FinishedLaunchingEnd))
  }

  /** `int(ns / 1_000_000)`: the millisecond count truncated toward zero. */
  function NsToMs(ns: int): (ms: int)
    ensures ns >= 0 ==> 0 <= ms && ms * NsPerMs <= ns < (ms + 1) * NsPerMs
    ensures ns < 0 ==> ms <= 0 && (ms - 1) * NsPerMs < ns <= ms * NsPerMs
  {
    if ns >= 0 then ns / NsPerMs else -((-ns) / NsPerMs)
  }

  /** What one output line reports. */
  datatype Field = NotAvailable | Millis(ms: int)

  /** `int(x) if x else 'N/A'`: a missing or zero duration is not available. */
  function FieldOf(span: Option<int>): Field {
    if span.Some? && span.value != 0 then Millis(NsToMs(span.value)) else NotAvailable
  }

  function FieldText(f: Field): string {
    match f
    case NotAvailable => "N/A"
    case Millis(ms) => IntToString(ms)
  }

  /**
    The printed value of a duration: `N/A` exactly when the duration is
    missing or zero, otherwise a decimal integer that reads back to the
    millisecond count truncated toward zero.
   */
  lemma PrintedDuration(span: Option<int>)
    ensures FieldText(FieldOf(span)) == "N/A" <==> span.None? || span.value == 0
    ensures span.Some? && span.value != 0 ==>
      exists m :: ParseInt(FieldText(FieldOf(span))) == Some(m) &&
        (span.value > 0 ==> 0 <= m && m * NsPerMs <= span.value < (m + 1) * NsPerMs) &&
        (span.value < 0 ==> m <= 0 && (m - 1) * NsPerMs < span.value <= m * NsPerMs)
  {
    if span.Some? && span.value != 0 {
      var m := NsToMs(span.value);
      ParseIntOfIntToString(m);
      assert ParseInt("N/A") == None by {
        assert !IsDigit("N/A"[0]);
      }
      assert ParseInt(FieldText(FieldOf(span))) == Some(m);
    }
  }

  const RuntimeKey: string := "runtime_ms"
  const VmInitKey: string := "vm_init_ms"
  const ManagedKey: string := "managed_ms"

  /** The three lines `main` prints for a timestamps dictionary. */
  function ReportLines(ts: Timestamps): (lines: seq<string>)
    ensures |lines| == 3
  {
    var d := DurationsOf(ts);
    [RuntimeKey + "=" + FieldText(FieldOf(d.runtime)),
     VmInitKey + "=" + FieldText(FieldOf(d.vmInit)),
     ManagedKey + "=" + FieldText(FieldOf(d.managed))]
  }

  /** Reading a value back, as the shell script that consumes the lines does. */
  function ParseField(s: string): Option<Field> {
    if s == "N/A" then Some(NotAvailable)
    else match ParseInt(s)
      case Some(ms) => Some(Millis(ms))
      case None => None
  }

  /** The value of a `key=value` line, when the line is for `key`. */
  function ValueOf(line: string, key: string): Option<string> {
    var prefix := key + "=";
    if prefix <= line then Some(line[|prefix|..]) else None
  }

  lemma ParseFieldOfFieldText(f: Field)
    ensures ParseField(FieldText(f)) == Some(f)
  {
    if f.Millis? {
      ParseIntOfIntToString(f.ms);
    }
  }

  lemma ValueOfLine(key: string, value: string)
    ensures ValueOf(key + "=" + value, key) == Some(value)
  {
    var prefix := key + "=";
    assert prefix + value == key + "=" + value;
    assert (prefix + value)[|prefix|..] == value;
  }

  /** Each printed line carries its key and gives back the field it reports. */
  lemma ReportLinesReadBack(ts: Timestamps)
    ensures var d := DurationsOf(ts);
      var lines := ReportLines(ts);
      && (ValueOf(lines[0], RuntimeKey).Some? && ParseField(ValueOf(lines[0], RuntimeKey).value) == Some(FieldOf(d.runtime)))
      && (ValueOf(lines[1], VmInitKey).Some? && ParseField(ValueOf(lines[1], VmInitKey).value) == Some(FieldOf(d.vmInit)))
      && (ValueOf(lines[2], ManagedKey).Some? && ParseField(ValueOf(lines[2], ManagedKey).value) == Some(FieldOf(d.managed)))
  {
    var d := DurationsOf(ts);
    ValueOfLine(RuntimeKey, FieldText(FieldOf(d.runtime)));
    ValueOfLine(VmInitKey, FieldText(FieldOf(d.vmInit)));
    ValueOfLine(ManagedKey, FieldText(FieldOf(d.managed)));
    ParseFieldOfFieldText(FieldOf(d.runtime));
    ParseFieldOfFieldText(FieldOf(d.vmInit));
    ParseFieldOfFieldText(FieldOf(d.managed));
  }

  /**
    Of a scanned trace: `runtime_ms` is defined exactly when 'xamarin_main_start'
    and 'xamarin_init_end' are both present and nonzero, and it is their difference.
   */
  lemma RuntimeSpan(rows: seq<Row>)
    ensures var ts := ProfileOf(Rows(rows));
      var start := Slot(rows, XamarinMainStart);
      var end := Slot(rows, XamarinInitEnd);
      && (DurationsOf(ts).runtime.Some? <==> Truthy(start) && Truthy(end))
      && (DurationsOf(ts).runtime.Some? ==> DurationsOf(ts).runtime.value == end.value - start.value)
  {
  }

  /** Likewise for `vm_init_ms`, over 'vm_init_start' and 'vm_init_end'. */
  lemma VmInitSpan(rows: seq<Row>)
    ensures var ts := ProfileOf(Rows(rows));
      var start := Slot(rows, VmInitStart);
      var end := Slot(rows, VmInitEnd);
      && (DurationsOf(ts).vmInit.Some? <==> Truthy(start) && Truthy(end))
      && (DurationsOf(ts).vmInit.Some? ==> DurationsOf(ts).vmInit.value == end.value - start.value)
  {
  }

  /** Likewise for `managed_ms`, over 'xamarin_init_end' and 'finished_launching_end'. */
  lemma ManagedSpan(rows: seq<Row>)
    ensures var ts := ProfileOf(Rows(rows));
      var start := Slot(rows, XamarinInitEnd);
      var end := Slot(rows, FinishedLaunchingEnd);
      && (DurationsOf(ts).managed.Some? <==> Truthy(start) && Truthy(end))
      && (DurationsOf(ts).managed.Some? ==> DurationsOf(ts).managed.value == end.value - start.value)
  {
  }

  /** A blank export reports every duration as not available. */
  lemma BlankReport()
    ensures ReportLines(ProfileOf(Blank)) == ["runtime_ms=N/A", "vm_init_ms=N/A", "managed_ms=N/A"]
  {
    assert RuntimeKey + "=" + "N/A" == "runtime_ms=N/A";
    assert VmInitKey + "=" + "N/A" == "vm_init_ms=N/A";
    assert ManagedKey + "=" + "N/A" == "managed_ms=N/A";
  }

  /** No timed row naming `xamarin_main` means `runtime_ms=N/A`. */
  lemma RuntimeNeedsXamarinMain(rows: seq<Row>)
    requires forall i :: 0 <= i < |rows| ==> !Hit(rows[i], XamarinMain)
    ensures ReportLines(ProfileOf(Rows(rows)))[0] == "runtime_ms=N/A"
  {
    SlotNoneIffNoHit(rows, XamarinMainStart);
    assert RuntimeKey + "=" + "N/A" == "runtime_ms=N/A";
  }

  /**
    With non-decreasing sample times the VM initialisation time is never
    negative: `vm_init_ms` is `N/A` or a count of at least zero.
   */
  lemma VmInitNotNegative(rows: seq<Row>)
    requires TimesNonDecreasing(rows)
    ensures var d := DurationsOf(ProfileOf(Rows(rows)));
      && (d.vmInit.Some? ==> d.vmInit.value >= 0)
      && (FieldOf(d.vmInit).Millis? ==> FieldOf(d.vmInit).ms >= 0)
  {
    VmInitOrdered(rows);
  }
}
