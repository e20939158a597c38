/**
  The launch checkpoint timer of apps/SampleMAUI/Platforms/iOS/AppDelegate.cs:
  two static `ulong` fields, the baseline `startDate` and the last checkpoint
  `date`, and `DebugLaunchTimePrint`, which reads the time of day in
  microseconds and reports the time since the last checkpoint and since the
  baseline. The clock reading is a parameter; `ulong` arithmetic is unchecked
  and wraps modulo 2^64.
 */
module LaunchTiming {

  const Two64: int := 0x1_0000_0000_0000_0000

  newtype u64 = x: int | 0 <= x < 0x1_0000_0000_0000_0000
  newtype i64 = x: int | -0x8000_0000_0000_0000 <= x < 0x8000_0000_0000_0000
  newtype i32 = x: int | -0x8000_0000 <= x < 0x8000_0000

  /** The `TimeVal` struct `gettimeofday` fills in: `tv_sec` is a `long`, `tv_usec` an `int`. */
  datatype TimeVal = TimeVal(tvSec: i64, tvUsec: i32)

  /** C#'s unchecked `(ulong)` cast: the two's-complement bits read as unsigned. */
  function ToULong(x: int): (r: u64)
    ensures (r as int - x) % Two64 == 0
  {
    (x % Two64) as u64
  }

  /** Unchecked `ulong` multiplication. */
  function WrapMul(a: u64, b: u64): (r: u64)
    ensures (r as int - a as int * b as int) % Two64 == 0
  {
    ((a as int * b as int) % Two64) as u64
  }

  /** Unchecked `ulong` addition. */
  function WrapAdd(a: u64, b: u64): (r: u64)
    ensures (r as int - (a as int + b as int)) % Two64 == 0
  {
    ((a as int + b as int) % Two64) as u64
  }

  /** Unchecked `ulong` subtraction: `b + r == a` modulo 2^64, exact when `b <= a`. */
  function WrapSub(a: u64, b: u64): (r: u64)
    ensures (b as int + r as int) % Two64 == a as int
    ensures b <= a ==> r as int == a as int - b as int
    ensures a < b ==> r as int == a as int - b as int + Two64
  {
    ((a as int - b as int) % Two64) as u64
  }

  /** Two integers that differ by a multiple of 2^64 leave the same remainder. */
  lemma SameResidue(x: int, y: int)
    requires (x - y) % Two64 == 0
    ensures x % Two64 == y % Two64
  {
    var k := (x - y) / Two64;
    assert x == y + k * Two64;
  }

  /** The sum of two multiples of 2^64 is one. */
  lemma SumOfMultiples(a: int, b: int)
    requires a % Two64 == 0 && b % Two64 == 0
    ensures (a + b) % Two64 == 0
  {
    var i, j := a / Two64, b / Two64;
    assert a + b == (i + j) * Two64;
  }

  /** Multiplying congruent numbers by the same factor keeps them congruent. */
  lemma MulResidue(a: int, x: int, c: int)
    requires (a - x) % Two64 == 0
    ensures (a * c - x * c) % Two64 == 0
  {
    var k := (a - x) / Two64;
    assert a - x == k * Two64;
    assert a * c - x * c == (a - x) * c;
    assert (a - x) * c == (k * c) * Two64;
  }

  /** `(ulong)tv.tv_sec * 1000000UL + (ulong)tv.tv_usec`, the reading in microseconds. */
  function Micros(tv: TimeVal): (r: u64)
    ensures r as int == (tv.tvSec as int * 1_000_000 + tv.tvUsec as int) % Two64
  {
    var sec := ToULong(tv.tvSec as int);
    var usec := ToULong(tv.tvUsec as int);
    var scaled := WrapMul(sec, 1_000_000);
    var r := WrapAdd(scaled, usec);
    var exact := tv.tvSec as int * 1_000_000 + tv.tvUsec as int;
    MulResidue(sec as int, tv.tvSec as int, 1_000_000);
    SumOfMultiples(scaled as int - sec as int * 1_000_000, sec as int * 1_000_000 - tv.tvSec as int * 1_000_000);
    SumOfMultiples(scaled as int - tv.tvSec as int * 1_000_000, usec as int - tv.tvUsec as int);
    SumOfMultiples(r as int - (scaled as int + usec as int), scaled as int + usec as int - exact);
    SameResidue(r as int, exact);
    r
  }

  /** A reading inside the `ulong` range is exact and gives back its seconds and microseconds. */
  lemma MicrosExact(tv: TimeVal)
    requires 0 <= tv.tvSec && 0 <= tv.tvUsec < 1_000_000
    requires tv.tvSec as int * 1_000_000 + tv.tvUsec as int < Two64
    ensures Micros(tv) as int == tv.tvSec as int * 1_000_000 + tv.tvUsec as int
    ensures Micros(tv) as int / 1_000_000 == tv.tvSec as int
    ensures Micros(tv) as int % 1_000_000 == tv.tvUsec as int
  {
  }

  /** The two static fields. */
  datatype TimerState = TimerState(startDate: u64, date: u64)

  /** What one call prints: `unow - date` and `unow - startDate`, in microseconds. */
  datatype Report = Report(delta: u64, total: u64)

  datatype Outcome = Outcome(next: TimerState, report: Report)

  /** Static fields start at zero. */
  const Initial: TimerState := TimerState(0, 0)

  /** One call of `DebugLaunchTimePrint` with the reading `now`. */
  function Step(s: TimerState, now: u64): (o: Outcome)
    ensures o.next.date == now
    ensures s.startDate == 0 ==> o.next.startDate == now && o.report == Report(0, 0)
    ensures s.startDate != 0 ==> o.next.startDate == s.startDate
    ensures s.startDate != 0 ==> o.report == Report(WrapSub(now, s.date), WrapSub(now, s.startDate))
  {
    var start := if s.startDate == 0 then now else s.startDate;
    var last := if s.startDate == 0 then start else s.date;
    Outcome(TimerState(start, now), Report(WrapSub(now, last), WrapSub(now, start)))
  }

  /** The reports of successive calls with the readings `rs`. */
  function Run(s: TimerState, rs: seq<u64>): (reports: seq<Report>)
    ensures |reports| == |rs|
    decreases |rs|
  {
    if rs == [] then [] else var o := Step(s, rs[0]); [o.report] + Run(o.next, rs[1..])
  }

  /** The fields after successive calls with the readings `rs`. */
  function Final(s: TimerState, rs: seq<u64>): TimerState
    decreases |rs|
  {
    if rs == [] then s else Final(Step(s, rs[0]).next, rs[1..])
  }

  /** The first nonzero reading, or 0 when there is none. */
  function FirstNonZero(rs: seq<u64>): u64 {
    if rs == [] then 0 else if rs[0] != 0 then rs[0] else FirstNonZero(rs[1..])
  }

  predicate NonDecreasing(rs: seq<u64>) {
    forall i, j :: 0 <= i < j < |rs| ==> rs[i] <= rs[j]
  }

  function SumDeltas(reports: seq<Report>): int {
    if reports == [] then 0 else reports[0].delta as int + SumDeltas(reports[1..])
  }

  /** States the timer can reach: while there is no baseline, `date` is 0 too. */
  predicate Consistent(s: TimerState) {
    s.startDate == 0 ==> s.date == 0
  }

  /** The time from the baseline to the last checkpoint. */
  function Elapsed(s: TimerState): u64 {
    WrapSub(s.date, s.startDate)
  }

  class AppDelegate {
    var startDate: u64
    var date: u64

    function State(): TimerState
      reads this
    {
      TimerState(startDate, date)
    }

    constructor ()
      ensures State() == Initial
    {
      startDate, date := 0, 0;
    }

    /** Takes the checkpoint and returns the two printed values. */
    method DebugLaunchTimePrint(tv: TimeVal) returns (delta: u64, total: u64)
      modifies this
      ensures Step(old(State()), Micros(tv)) == Outcome(State(), Report(delta, total))
      ensures date == Micros(tv)
      ensures old(startDate) != 0 ==> startDate == old(startDate)
    {
      var unow := Micros(tv);
      if startDate == 0 {
        startDate := unow;
        date := startDate;
      }
      delta := WrapSub(unow, date);
      total := WrapSub(unow, startDate);
      date := unow;
    }

    /**
      The checkpoints `FinishedLaunching` takes before and after the framework's
      own launch work; `begin` and `end` are the two clock readings.
     */
    method FinishedLaunching(begin: TimeVal, end: TimeVal) returns (first: Report, second: Report)
      modifies this
      ensures [first, second] == Run(old(State()), [Micros(begin), Micros(end)])
      ensures State() == Final(old(State()), [Micros(begin), Micros(end)])
    {
      ghost var before := State();
      var d, t := DebugLaunchTimePrint(begin);
      first := Report(d, t);
      ghost var between := State();
      d, t := DebugLaunchTimePrint(end);
      second := Report(d, t);
      var rs := [Micros(begin), Micros(end)];
      assert rs[1..] == [Micros(end)] && rs[1..][1..] == [];
      assert Final(between, rs[1..]) == State();
    }
  }

  /** Every call keeps the timer in a reachable state. */
  lemma StepConsistent(s: TimerState, now: u64)
    requires Consistent(s)
    ensures Consistent(Step(s, now).next)
  {
  }

  /** A reading of 0 before any baseline leaves the baseline unset. */
  lemma ZeroReadingLeavesBaselineUnset(s: TimerState)
    requires s.startDate == 0
    ensures Step(s, 0).next == Initial
  {
  }

  /** A reading below the last checkpoint wraps instead of failing. */
  lemma EarlierReadingWraps(s: TimerState, now: u64)
    requires s.startDate != 0 && now < s.date
    ensures Step(s, now).report.delta as int == now as int - s.date as int + Two64
  {
  }

  /** Once set, the baseline stays unchanged over any later calls. */
  lemma {:induction false} BaselineFixed(s: TimerState, rs: seq<u64>)
    requires s.startDate != 0
    ensures Final(s, rs).startDate == s.startDate
    decreases |rs|
  {
    if rs != [] {
      BaselineFixed(Step(s, rs[0]).next, rs[1..]);
    }
  }

  /**
    From the initial state the baseline is the first nonzero reading (zero
    readings re-arm it), and `date` is the last reading.
   */
  lemma {:induction false} FinalFromInitial(rs: seq<u64>)
    ensures Final(Initial, rs).startDate == FirstNonZero(rs)
    ensures rs != [] ==> Final(Initial, rs).date == rs[|rs| - 1]
    decreases |rs|
  {
    if rs != [] {
      var next := Step(Initial, rs[0]).next;
      if rs[0] == 0 {
        assert next == Initial;
        FinalFromInitial(rs[1..]);
      } else {
        BaselineFixed(next, rs[1..]);
      }
      FinalDate(next, rs[1..]);
    }
  }


  lemma {:induction false} FinalDate(s: TimerState, rs: seq<u64>)
    ensures rs != [] ==> Final(s, rs).date == rs[|rs| - 1]
    decreases |rs|
  {
    if |rs| > 1 {
      FinalDate(Step(s, rs[0]).next, rs[1..]);
    }
  }

  /** With non-decreasing readings the baseline never passes the last checkpoint. */
  lemma {:induction false} StartNotAfterDate(s: TimerState, rs: seq<u64>)
    requires Consistent(s) && s.startDate <= s.date
    requires NonDecreasing(rs) && (rs != [] ==> s.date <= rs[0])
    ensures Final(s, rs).startDate <= Final(s, rs).date
    decreases |rs|
  {
    if rs != [] {
      var next := Step(s, rs[0]).next;
      assert next.startDate <= next.date;
      StartNotAfterDate(next, rs[1..]);
    }
  }

  /**
    Once the baseline is taken, with non-decreasing readings each call reports
    the step from the previous reading and the distance from the baseline.
   */
  lemma {:induction false} DeltasAfterBaseline(s: TimerState, rs: seq<u64>)
    requires s.startDate != 0 && s.startDate <= s.date
    requires NonDecreasing(rs) && (rs != [] ==> s.date <= rs[0])
    ensures forall k :: 0 <= k < |rs| ==>
      Run(s, rs)[k].delta as int == rs[k] as int - (if k == 0 then s.date else rs[k - 1]) as int &&
      Run(s, rs)[k].total as int == rs[k] as int - s.startDate as int
    decreases |rs|
  {
    if rs != [] {
      var next := Step(s, rs[0]).next;
      DeltasAfterBaseline(next, rs[1..]);
      var reports := Run(s, rs);
      forall k | 0 <= k < |rs|
        ensures reports[k].delta as int == rs[k] as int - (if k == 0 then s.date else rs[k - 1]) as int
        ensures reports[k].total as int == rs[k] as int - s.startDate as int
      {
        if k > 0 {
          assert reports[k] == Run(next, rs[1..])[k - 1];
          assert rs[1..][k - 1] == rs[k];
          if k > 1 {
            assert rs[1..][k - 2] == rs[k - 1];
          }
        }
      }
    }
  }

  /**
    For non-decreasing readings whose first one is nonzero, the first call
    reports (0, 0) and call k reports (t[k] - t[k-1], t[k] - t[0]).
   */
  lemma DeltasAndTotals(rs: seq<u64>)
    requires NonDecreasing(rs) && |rs| > 0 && rs[0] != 0
    ensures Run(Initial, rs)[0] == Report(0, 0)
    ensures forall k :: 1 <= k < |rs| ==>
      Run(Initial, rs)[k].delta as int == rs[k] as int - rs[k - 1] as int &&
      Run(Initial, rs)[k].total as int == rs[k] as int - rs[0] as int
  {
    var next := Step(Initial, rs[0]).next;
    DeltasAfterBaseline(next, rs[1..]);
    var reports := Run(Initial, rs);
    forall k | 1 <= k < |rs|
      ensures reports[k].delta as int == rs[k] as int - rs[k - 1] as int
      ensures reports[k].total as int == rs[k] as int - rs[0] as int
    {
      assert reports[k] == Run(next, rs[1..])[k - 1];
      assert rs[1..][k - 1] == rs[k];
      if k > 1 {
        assert rs[1..][k - 2] == rs[k - 1];
      }
    }
  }

  /** With non-decreasing readings nothing wraps: every total is the elapsed time before the run plus the deltas so far. */
  lemma {:induction false} TotalsAccumulate(s: TimerState, rs: seq<u64>)
    requires Consistent(s) && s.startDate <= s.date
    requires NonDecreasing(rs) && (rs != [] ==> s.date <= rs[0])
    ensures forall k :: 0 <= k < |rs| ==>
      Run(s, rs)[k].total as int == Elapsed(s) as int + SumDeltas(Run(s, rs)[..k + 1])
    decreases |rs|
  {
    if rs != [] {
      var o := Step(s, rs[0]);
      TotalsAccumulate(o.next, rs[1..]);
      var reports := Run(s, rs);
      var rest := Run(o.next, rs[1..]);
      assert Elapsed(o.next) as int == Elapsed(s) as int + o.report.delta as int;
      forall k | 0 <= k < |rs|
        ensures reports[k].total as int == Elapsed(s) as int + SumDeltas(reports[..k + 1])
      {
        assert reports[..k + 1][1..] == rest[..k];
        if k > 0 {
          assert reports[k] == rest[k - 1];
        }
      }
    }
  }

  /** With non-decreasing readings every reported total is the sum of the deltas reported so far. */
  lemma TotalIsSumOfDeltas(rs: seq<u64>)
    requires NonDecreasing(rs)
    ensures forall k :: 0 <= k < |rs| ==> Run(Initial, rs)[k].total as int == SumDeltas(Run(Initial, rs)[..k + 1])
  {
    TotalsAccumulate(Initial, rs);
  }

  /** Each call reports as total the new elapsed time, which is the old one plus the delta, modulo 2^64. */
  lemma ElapsedStep(s: TimerState, now: u64)
    requires Consistent(s)
    ensures Step(s, now).report.total == Elapsed(Step(s, now).next)
    ensures Elapsed(Step(s, now).next) as int == (Elapsed(s) as int + Step(s, now).report.delta as int) % Two64
  {
    if s.startDate != 0 {
      var d := Step(s, now).report.delta as int;
      SameResidue(Elapsed(s) as int + d, now as int - s.startDate as int);
    }
  }

  /** The reports of a run are the first call's report followed by the reports of the rest. */
  lemma RunCons(s: TimerState, rs: seq<u64>)
    requires rs != []
    ensures Run(s, rs)[0] == Step(s, rs[0]).report
    ensures Run(s, rs)[1..] == Run(Step(s, rs[0]).next, rs[1..])
  {
  }

  /** The `k`-th total, modulo 2^64, is the elapsed time before the run plus the deltas up to it. */
  lemma {:induction false} TotalAtModulo(s: TimerState, rs: seq<u64>, k: nat)
    requires Consistent(s) && k < |rs|
    ensures Run(s, rs)[k].total as int == (Elapsed(s) as int + SumDeltas(Run(s, rs)[..k + 1])) % Two64
    decreases k
  {
    var o := Step(s, rs[0]);
    var all := Run(s, rs);
    var rest := Run(o.next, rs[1..]);
    RunCons(s, rs);
    ElapsedStep(s, rs[0]);
    assert all[..k + 1][1..] == rest[..k];
    if k > 0 {
      StepConsistent(s, rs[0]);
      TotalAtModulo(o.next, rs[1..], k - 1);
      assert all[k] == rest[k - 1];
      var e2 := Elapsed(o.next) as int;
      SameResidue(e2 + SumDeltas(rest[..k]), Elapsed(s) as int + o.report.delta as int + SumDeltas(rest[..k]));
    }
  }

  /** Unchecked `ulong` arithmetic: every total is the elapsed time before the run plus the deltas so far, modulo 2^64. */
  lemma TotalsAccumulateModulo(s: TimerState, rs: seq<u64>)
    requires Consistent(s)
    ensures forall k :: 0 <= k < |rs| ==>
      Run(s, rs)[k].total as int == (Elapsed(s) as int + SumDeltas(Run(s, rs)[..k + 1])) % Two64
  {
    forall k | 0 <= k < |rs|
      ensures Run(s, rs)[k].total as int == (Elapsed(s) as int + SumDeltas(Run(s, rs)[..k + 1])) % Two64
    {
      TotalAtModulo(s, rs, k);
    }
  }

  /** From the initial state, whatever the readings, every total is the sum of the deltas so far, modulo 2^64. */
  lemma TotalIsSumOfDeltasModulo(rs: seq<u64>)
    ensures forall k :: 0 <= k < |rs| ==>
      Run(Initial, rs)[k].total as int == SumDeltas(Run(Initial, rs)[..k + 1]) % Two64
  {
    TotalsAccumulateModulo(Initial, rs);
  }

  /** Readings of 1000, 1500 and 4200 microseconds report (0, 0), (500, 500) and (2700, 3200). */
  lemma ThreeCheckpoints()
    ensures Run(Initial, [1000, 1500, 4200]) == [Report(0, 0), Report(500, 500), Report(2700, 3200)]
  {
    var rs: seq<u64> := [1000, 1500, 4200];
    assert rs[1..] == [1500, 4200] && rs[1..][1..] == [4200] && rs[1..][1..][1..] == [];
  }
}
