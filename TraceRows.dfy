/**
  One sample row of an `xctrace` time-profile export, as `parse_time_profile`
  in parse-trace.py sees it: the text of the `<row>...</row>` element and the
  digits of the first `<sample-time>` element that holds a number, if any. The markers are
  the substring tests made on the row text, and `FirstTime` / `LastTime` are
  reference definitions of "the sample time of the first / last timed row that
  carries a marker", independent of the order in which the script scans.
 */
module TraceRows {
  import opened Wrappers

  /** `sub` occurs in `s` starting at index `i`. */
  predicate OccursAt(s: string, sub: string, i: int) {
    0 <= i && i + |sub| <= |s| && s[i..i + |sub|] == sub
  }

  /** Python's `sub in s` on strings, scanning `s` from the left. */
  function Contains(s: string, sub: string): bool
    decreases |s|
  {
    if |s| < |sub| then false
    else if sub <= s then true
    else Contains(s[1..], sub)
  }

  /** `Contains` holds exactly when `sub` occurs somewhere in `s`. */
  lemma {:induction false} ContainsIffOccurs(s: string, sub: string)
    ensures Contains(s, sub) <==> exists i :: OccursAt(s, sub, i)
    decreases |s|
  {
    if |s| < |sub| {
      assert forall i :: !OccursAt(s, sub, i);
    } else if sub <= s {
      assert OccursAt(s, sub, 0);
    } else {
      ContainsIffOccurs(s[1..], sub);
      forall i ensures OccursAt(s[1..], sub, i) <==> OccursAt(s, sub, i + 1) {
        if 0 <= i && i + |sub| <= |s| - 1 {
          assert s[1..][i..i + |sub|] == s[i + 1..i + 1 + |sub|];
        }
      }
      assert !OccursAt(s, sub, 0);
      assert forall i :: OccursAt(s, sub, i) ==> OccursAt(s[1..], sub, i - 1);
    }
  }

  /** The function markers the script looks for in a row. */
  datatype Marker =
    | XamarinMain        // name="xamarin_main"
    | VmInitialize       // xamarin_vm_initialize" or xamarin_bridge_vm_initialize"
    | XamarinInitialize  // name="xamarin_initialize"
    | UIApplicationMain  // xamarin_UIApplicationMain
    | FinishedLaunching  // FinishedLaunching or _reportMainSceneUpdateFinished

  /** The substrings the script looks for. */
  const MainNeedle: string := "name=\"xamarin_main\""
  const VmNeedle: string := "xamarin_vm_initialize\""
  const BridgeVmNeedle: string := "xamarin_bridge_vm_initialize\""
  const InitializeNeedle: string := "name=\"xamarin_initialize\""
  const UIApplicationMainNeedle: string := "xamarin_UIApplicationMain"
  const FinishedLaunchingNeedle: string := "FinishedLaunching"
  const SceneUpdateNeedle: string := "_reportMainSceneUpdateFinished"

  /** The substring tests of parse-trace.py, one per marker. */
  predicate Mentions(text: string, m: Marker) {
    match m
    case XamarinMain => Contains(text, MainNeedle)
    case VmInitialize => Contains(text, VmNeedle) || Contains(text, BridgeVmNeedle)
    case XamarinInitialize => Contains(text, InitializeNeedle)
    case UIApplicationMain => Contains(text, UIApplicationMainNeedle)
    case FinishedLaunching => Contains(text, FinishedLaunchingNeedle) || Contains(text, SceneUpdateNeedle)
  }

  /** A row: its sample time in nanoseconds (absent when no `<sample-time>` element of the row holds a number) and its text. */
  datatype Row = Row(sampleTime: Option<nat>, text: string)

  /** The row has a sample time and mentions the marker. */
  predicate Hit(row: Row, m: Marker) {
    row.sampleTime.Some? && Mentions(row.text, m)
  }

  /** Sample times are non-decreasing along the rows that have one. */
  predicate TimesNonDecreasing(rows: seq<Row>) {
    forall i, j :: 0 <= i < j < |rows| && rows[i].sampleTime.Some? && rows[j].sampleTime.Some? ==>
      rows[i].sampleTime.value <= rows[j].sampleTime.value
  }

  /** The sample time of the first row that hits `m`. */
  function FirstTime(rows: seq<Row>, m: Marker): Option<nat> {
    if rows == [] then None
    else if Hit(rows[0], m) then rows[0].sampleTime
    else FirstTime(rows[1..], m)
  }

  /** The sample time of the last row that hits `m`. */
  function LastTime(rows: seq<Row>, m: Marker): Option<nat> {
    if rows == [] then None
    else
      var later := LastTime(rows[1..], m);
      if later.Some? then later
      else if Hit(rows[0], m) then rows[0].sampleTime
      else None
  }

  lemma {:induction false} FirstTimeAppend(a: seq<Row>, b: seq<Row>, m: Marker)
    ensures FirstTime(a + b, m) == if FirstTime(a, m).Some? then FirstTime(a, m) else FirstTime(b, m)
  {
    if a == [] {
      assert a + b == b;
    } else {
      assert (a + b)[0] == a[0];
      assert (a + b)[1..] == a[1..] + b;
      FirstTimeAppend(a[1..], b, m);
    }
  }

  lemma {:induction false} LastTimeAppend(a: seq<Row>, b: seq<Row>, m: Marker)
    ensures LastTime(a + b, m) == if LastTime(b, m).Some? then LastTime(b, m) else LastTime(a, m)
  {
    if a == [] {
      assert a + b == b;
    } else {
      assert (a + b)[0] == a[0];
      assert (a + b)[1..] == a[1..] + b;
      LastTimeAppend(a[1..], b, m);
    }
  }

  /** A single row sets the first time exactly when it hits. */
  lemma FirstTimeSingle(r: Row, m: Marker)
    ensures FirstTime([r], m) == if Hit(r, m) then r.sampleTime else None
  {
    assert [r][1..] == [];
  }

  /** A single row sets the last time exactly when it hits. */
  lemma LastTimeSingle(r: Row, m: Marker)
    ensures LastTime([r], m) == if Hit(r, m) then r.sampleTime else None
  {
    assert [r][1..] == [];
  }

  /** Scanning one more row: the first time is kept once it is set. */
  lemma FirstTimeSnoc(rows: seq<Row>, r: Row, m: Marker)
    ensures FirstTime(rows + [r], m) ==
      if FirstTime(rows, m).Some? then FirstTime(rows, m)
      else if Hit(r, m) then r.sampleTime else None
  {
    FirstTimeAppend(rows, [r], m);
    FirstTimeSingle(r, m);
  }

  /** Scanning one more row: the last time moves to that row exactly when it hits. */
  lemma LastTimeSnoc(rows: seq<Row>, r: Row, m: Marker)
    ensures LastTime(rows + [r], m) == if Hit(r, m) then r.sampleTime else LastTime(rows, m)
  {
    LastTimeAppend(rows, [r], m);
    LastTimeSingle(r, m);
  }

  lemma {:induction false} FirstTimeNoneIff(rows: seq<Row>, m: Marker)
    ensures FirstTime(rows, m).None? <==> forall i :: 0 <= i < |rows| ==> !Hit(rows[i], m)
  {
    if rows != [] {
      FirstTimeNoneIff(rows[1..], m);
      assert forall i :: 1 <= i < |rows| ==> rows[1..][i - 1] == rows[i];
    }
  }

  lemma {:induction false} LastTimeNoneIff(rows: seq<Row>, m: Marker)
    ensures LastTime(rows, m).None? <==> forall i :: 0 <= i < |rows| ==> !Hit(rows[i], m)
  {
    if rows != [] {
      LastTimeNoneIff(rows[1..], m);
      assert forall i :: 1 <= i < |rows| ==> rows[1..][i - 1] == rows[i];
    }
  }

  /** The first hitting row decides the first time. */
  lemma FirstTimeAt(rows: seq<Row>, m: Marker, i: int)
    requires 0 <= i < |rows| && Hit(rows[i], m)
    requires forall j :: 0 <= j < i ==> !Hit(rows[j], m)
    ensures FirstTime(rows, m) == rows[i].sampleTime
  {
    assert rows == rows[..i] + rows[i..];
    FirstTimeNoneIff(rows[..i], m);
    FirstTimeAppend(rows[..i], rows[i..], m);
    assert rows[i..][0] == rows[i];
  }

  /** The last hitting row decides the last time. */
  lemma LastTimeAt(rows: seq<Row>, m: Marker, i: int)
    requires 0 <= i < |rows| && Hit(rows[i], m)
    requires forall j :: i < j < |rows| ==> !Hit(rows[j], m)
    ensures LastTime(rows, m) == rows[i].sampleTime
  {
    var tail := rows[i + 1..];
    assert rows == rows[..i] + [rows[i]] + tail;
    LastTimeNoneIff(tail, m);
    assert forall j :: 0 <= j < |tail| ==> tail[j] == rows[i + 1 + j];
    LastTimeAppend(rows[..i] + [rows[i]], tail, m);
    LastTimeSnoc(rows[..i], rows[i], m);
  }

  /** When set, the first time belongs to a hitting row with no hitting row before it. */
  lemma {:induction false} FirstTimeWitness(rows: seq<Row>, m: Marker) returns (i: nat)
    requires FirstTime(rows, m).Some?
    ensures i < |rows| && Hit(rows[i], m) && rows[i].sampleTime == FirstTime(rows, m)
    ensures forall j :: 0 <= j < i ==> !Hit(rows[j], m)
  {
    if Hit(rows[0], m) {
      i := 0;
    } else {
      var k := FirstTimeWitness(rows[1..], m);
      i := k + 1;
      assert forall j :: 1 <= j < i ==> rows[j] == rows[1..][j - 1];
    }
  }

  /** When set, the last time belongs to a hitting row with no hitting row after it. */
  lemma {:induction false} LastTimeWitness(rows: seq<Row>, m: Marker) returns (i: nat)
    requires LastTime(rows, m).Some?
    ensures i < |rows| && Hit(rows[i], m) && rows[i].sampleTime == LastTime(rows, m)
    ensures forall j :: i < j < |rows| ==> !Hit(rows[j], m)
  {
    if LastTime(rows[1..], m).Some? {
      var k := LastTimeWitness(rows[1..], m);
      i := k + 1;
      assert forall j :: i < j < |rows| ==> rows[j] == rows[1..][j - 1];
    } else {
      i := 0;
      LastTimeNoneIff(rows[1..], m);
      assert forall j :: 0 < j < |rows| ==> rows[j] == rows[1..][j - 1];
    }
  }

  /** With non-decreasing sample times, the first time of a marker is at most its last time. */
  lemma FirstNotAfterLast(rows: seq<Row>, m: Marker)
    requires TimesNonDecreasing(rows)
    ensures FirstTime(rows, m).Some? <==> LastTime(rows, m).Some?
    ensures FirstTime(rows, m).Some? ==> FirstTime(rows, m).value <= LastTime(rows, m).value
  {
    FirstTimeNoneIff(rows, m);
    LastTimeNoneIff(rows, m);
    if FirstTime(rows, m).Some? {
      var i := FirstTimeWitness(rows, m);
      var j := LastTimeWitness(rows, m);
      assert i <= j;
    }
  }
}
