# Launch-time measurement of coreclr-ios-perf, modelled in Dafny

The repository measures how long a .NET iOS app takes to start. Two pieces do the measuring.

- `parse-trace.py` reads an Instruments (`xctrace`) Time Profiler export. It scans the sample rows once and records six launch timestamps in a dictionary: the first `xamarin_main` sample, the first and last VM-initialisation samples, the last `xamarin_initialize` sample, the last `xamarin_UIApplicationMain` sample, and the last `FinishedLaunching` (or scene-update) sample. From these it derives three durations: runtime startup, VM initialisation and managed startup. It prints them as `key=value` lines in milliseconds, or `N/A`.
- `apps/SampleMAUI/Platforms/iOS/AppDelegate.cs` holds a checkpoint timer. It has two static `ulong` fields: `startDate`, the baseline, and `date`, the last checkpoint. `DebugLaunchTimePrint` reads the time of day in microseconds, reports the time since the last checkpoint and since the baseline, and moves the checkpoint. `FinishedLaunching` takes one checkpoint before the framework's launch work and one after it.

The Dafny modules follow that split:

- `TraceRows`: sample rows, the substring markers the script tests for, and reference definitions `FirstTime` and `LastTime` of a marker's first and last timed occurrence.
- `TraceProfile`: `parse_time_profile` as an imperative loop over the rows. The loop rebinds a `map` value to an updated copy for each slot it changes, and is proved equal to `ProfileOf`, a function built from the reference definitions.
- `TraceReport`: the durations computed in `main`, the truncation to milliseconds, the three output lines, and reading those lines back.
- `Decimal`: Python's `str(int)` and its inverse. The inverse is there so the read-back property can be stated.
- `LaunchTiming`: the `AppDelegate` class with its two fields, unchecked 64-bit arithmetic, and the pure `Step`/`Run`/`Final` specification the methods are proved against.
- `Wrappers`: `Option`.

Modelling decisions:

- The export is a parameter. `Blank` means the output is empty or only whitespace. Otherwise the export is the list of `<row>` elements.
- Each row is passed in as its text plus the digits of the first `<sample-time>` element that holds a number, which are absent when no such element exists.
- The clock reading of `DebugLaunchTimePrint` is a `TimeVal` parameter.
- The `N/A` test follows Python truthiness. A timestamp that is missing **or zero** makes its duration unavailable, and so does a duration that is exactly zero.
- A nonzero duration under one millisecond prints as `0`.
- The 'ui_app_main' slot is recorded like the others (parse-trace.py:68-70), even though `main` never reads it.

## Model

| member | source | states |
|---|---|---|
| TraceProfile.ParseTimeProfile | parse-trace.py:22-76 | The row-by-row scan returns exactly `ProfileOf`: `{}` for a blank export, otherwise the six keys, each holding its slot's first- or last-occurrence value |
| TraceProfile.SlotSnoc | parse-trace.py:54-74 | One more row changes a slot exactly when it is a timed row with the slot's marker: a last-occurrence slot is always overwritten, a first-occurrence slot only while it is still None |
| TraceProfile.EmptyInput | parse-trace.py:26-42 | A blank export gives the empty dictionary; an export with no rows gives the six keys, all None |
| TraceProfile.ProfileKeys | parse-trace.py:35-42 | Every non-blank export yields exactly the six keys |
| TraceProfile.SlotNoneIffNoHit | parse-trace.py:35-74 | A slot remains None if and only if no timed row mentions its marker |
| TraceProfile.UntimedRowIgnored | parse-trace.py:49-51 | Inserting a row without a sample time anywhere changes no slot |
| TraceProfile.XamarinMainStartFirstWins | parse-trace.py:55-56 | 'xamarin_main_start' is the time of the first timed row naming `xamarin_main`, and later rows never change it |
| TraceProfile.VmInitFirstAndLast | parse-trace.py:59-62 | 'vm_init_start' is the first and 'vm_init_end' the last timed row mentioning `xamarin_vm_initialize"` or `xamarin_bridge_vm_initialize"` |
| TraceProfile.VmInitBothSet | parse-trace.py:59-62 | One timed VM-initialisation row sets both VM slots |
| TraceProfile.LastWins | parse-trace.py:65-74 | 'xamarin_init_end', 'ui_app_main' and 'finished_launching_end' hold the time of the last timed row that matches their marker |
| TraceProfile.OtherRowUnchanged | parse-trace.py:54-74 | A row that does not hit a slot's marker leaves that slot unchanged |
| TraceProfile.VmInitOrdered | parse-trace.py:58-62 | With non-decreasing sample times both VM slots are set or both are None, and start <= end |
| TraceRows.ContainsIffOccurs | parse-trace.py:55 | The `in` test on a row holds if and only if the needle occurs at some index of the row text |
| TraceRows.FirstTimeSnoc | parse-trace.py:55-61 | Scanning one more row keeps a first-occurrence time once set, and otherwise takes the row's time if it hits |
| TraceRows.LastTimeSnoc | parse-trace.py:62-74 | Scanning one more row moves a last-occurrence time to that row exactly when the row hits |
| TraceRows.FirstTimeAppend | parse-trace.py:47-56 | The first occurrence in a concatenation is the first part's, if any, else the second part's |
| TraceRows.LastTimeAppend | parse-trace.py:47-74 | The last occurrence in a concatenation is the second part's, if any, else the first part's |
| TraceRows.FirstTimeNoneIff | parse-trace.py:55-56 | There is no first time if and only if no row hits |
| TraceRows.LastTimeNoneIff | parse-trace.py:65-66 | There is no last time if and only if no row hits |
| TraceRows.FirstTimeAt | parse-trace.py:55-56 | The first hitting row determines the first time |
| TraceRows.LastTimeAt | parse-trace.py:65-66 | The last hitting row determines the last time |
| TraceRows.FirstTimeWitness | parse-trace.py:55-56 | A first time that is set belongs to a hitting row with no hitting row before it |
| TraceRows.LastTimeWitness | parse-trace.py:65-66 | A last time that is set belongs to a hitting row with no hitting row after it |
| TraceRows.FirstNotAfterLast | parse-trace.py:58-62 | With non-decreasing sample times a marker has a first time if and only if it has a last time, and first <= last |
| TraceReport.NsToMs | parse-trace.py:94-105 | `int(ns / 1_000_000)` truncates toward zero: for non-negative ns, ms * 10^6 <= ns < (ms + 1) * 10^6, and the mirror bounds for negative ns |
| TraceReport.PrintedDuration | parse-trace.py:105-107 | A printed value is `N/A` if and only if its duration is missing or zero; otherwise it is a decimal integer that reads back to the millisecond count truncated toward zero (m * 10^6 <= ns < (m + 1) * 10^6 for positive spans, the mirror bounds for negative ones) |
| TraceReport.ReportLines | parse-trace.py:105-107 | Exactly three lines are printed |
| TraceReport.ParseFieldOfFieldText | parse-trace.py:105-107 | Every printed value reads back to the field it encodes |
| TraceReport.ValueOfLine | parse-trace.py:104-107 | A `key=value` line gives back its value for its key |
| TraceReport.ReportLinesReadBack | parse-trace.py:104-107 | Lines 0, 1 and 2 carry the keys `runtime_ms`, `vm_init_ms` and `managed_ms` and read back to the runtime, VM-init and managed fields |
| TraceReport.RuntimeSpan | parse-trace.py:92-94 | For a scanned trace, `runtime_ms` is defined if and only if 'xamarin_main_start' and 'xamarin_init_end' are truthy, and it is end minus start |
| TraceReport.VmInitSpan | parse-trace.py:96-98 | Likewise for 'vm_init_start' to 'vm_init_end' |
| TraceReport.ManagedSpan | parse-trace.py:100-102 | Likewise for 'xamarin_init_end' to 'finished_launching_end' |
| TraceReport.BlankReport | parse-trace.py:26-107 | A blank export prints `runtime_ms=N/A`, `vm_init_ms=N/A` and `managed_ms=N/A` |
| TraceReport.RuntimeNeedsXamarinMain | parse-trace.py:55-105 | With no timed `xamarin_main` row the first line is `runtime_ms=N/A` |
| TraceReport.VmInitNotNegative | parse-trace.py:96-106 | With non-decreasing sample times the VM-init duration and its millisecond count are never negative |
| Decimal.NatToString | parse-trace.py:105-107 | The decimal text of a natural number is non-empty and all digits, with no leading zero |
| Decimal.DigitsValueOfNatToString | parse-trace.py:105-107 | The digits read back to the number |
| Decimal.ParseIntOfIntToString | parse-trace.py:105-107 | `str(i)`, sign included, reads back to `i` |
| Decimal.IntToStringInjective | parse-trace.py:105-107 | Distinct integers print differently |
| LaunchTiming.ToULong | apps/SampleMAUI/Platforms/iOS/AppDelegate.cs:29 | The `(ulong)` cast is congruent to its operand modulo 2^64 |
| LaunchTiming.WrapMul | apps/SampleMAUI/Platforms/iOS/AppDelegate.cs:29 | Unchecked `ulong` multiplication is congruent to the exact product modulo 2^64 |
| LaunchTiming.WrapAdd | apps/SampleMAUI/Platforms/iOS/AppDelegate.cs:29 | Unchecked `ulong` addition is congruent to the exact sum modulo 2^64 |
| LaunchTiming.WrapSub | apps/SampleMAUI/Platforms/iOS/AppDelegate.cs:37 | `b + (a - b)` wraps back to `a`; the difference is exact when b <= a and 2^64 larger than the exact one otherwise |
| LaunchTiming.Micros | apps/SampleMAUI/Platforms/iOS/AppDelegate.cs:27-29 | The reading is (tv_sec * 1000000 + tv_usec) mod 2^64, for any signed seconds and microseconds |
| LaunchTiming.MicrosExact | apps/SampleMAUI/Platforms/iOS/AppDelegate.cs:29 | A reading inside the range is exact and gives back its seconds and microseconds |
| LaunchTiming.Step | apps/SampleMAUI/Platforms/iOS/AppDelegate.cs:31-38 | `date` becomes the reading; with no baseline the reading becomes the baseline and (0, 0) is reported; otherwise the baseline is kept and (now - date, now - startDate) is reported, both unchecked |
| LaunchTiming.Run | apps/SampleMAUI/Platforms/iOS/AppDelegate.cs:25-39 | Successive calls give one report per reading |
| LaunchTiming.AppDelegate.constructor | apps/SampleMAUI/Platforms/iOS/AppDelegate.cs:10-11 | The timer starts with both fields zero, as the static fields are at process start |
| LaunchTiming.AppDelegate.DebugLaunchTimePrint | apps/SampleMAUI/Platforms/iOS/AppDelegate.cs:25-39 | Updates the two fields and returns the two printed values exactly as `Step` prescribes; `date` ends as the reading and a set baseline is kept |
| LaunchTiming.AppDelegate.FinishedLaunching | apps/SampleMAUI/Platforms/iOS/AppDelegate.cs:41-52 | The two checkpoint reports and the final fields are those of `Run` and `Final` over the begin and end readings |
| LaunchTiming.StepConsistent | apps/SampleMAUI/Platforms/iOS/AppDelegate.cs:31-38 | If there is no baseline, `date` is zero; every call preserves this |
| LaunchTiming.ZeroReadingLeavesBaselineUnset | apps/SampleMAUI/Platforms/iOS/AppDelegate.cs:31-35 | A zero reading before the baseline leaves both fields zero, so the next call still takes the baseline |
| LaunchTiming.EarlierReadingWraps | apps/SampleMAUI/Platforms/iOS/AppDelegate.cs:37 | A reading earlier than the last checkpoint reports a delta wrapped by 2^64 |
| LaunchTiming.BaselineFixed | apps/SampleMAUI/Platforms/iOS/AppDelegate.cs:31-35 | Once set, the baseline never changes |
| LaunchTiming.FinalFromInitial | apps/SampleMAUI/Platforms/iOS/AppDelegate.cs:10-38 | From zeroed fields, the baseline is the first nonzero reading and `date` is the last reading |
| LaunchTiming.FinalDate | apps/SampleMAUI/Platforms/iOS/AppDelegate.cs:38 | After any calls, `date` is the last reading |
| LaunchTiming.StartNotAfterDate | apps/SampleMAUI/Platforms/iOS/AppDelegate.cs:31-38 | With non-decreasing readings the baseline never passes the last checkpoint |
| LaunchTiming.DeltasAfterBaseline | apps/SampleMAUI/Platforms/iOS/AppDelegate.cs:37-38 | Once the baseline is set, with non-decreasing readings each call reports the exact step from the previous reading and the exact distance from the baseline |
| LaunchTiming.DeltasAndTotals | apps/SampleMAUI/Platforms/iOS/AppDelegate.cs:31-38 | For non-decreasing readings with a nonzero first one, call 0 reports (0, 0) and call k reports (t[k] - t[k-1], t[k] - t[0]) |
| LaunchTiming.TotalsAccumulate | apps/SampleMAUI/Platforms/iOS/AppDelegate.cs:37-38 | With non-decreasing readings each total is the elapsed time before the run plus the deltas reported so far |
| LaunchTiming.TotalIsSumOfDeltas | apps/SampleMAUI/Platforms/iOS/AppDelegate.cs:37-38 | From zeroed fields with non-decreasing readings, each total is the sum of the deltas reported so far |
| LaunchTiming.ElapsedStep | apps/SampleMAUI/Platforms/iOS/AppDelegate.cs:37-38 | Each call reports the new elapsed time as its total, and that is the old elapsed time plus the delta modulo 2^64 |
| LaunchTiming.TotalAtModulo | apps/SampleMAUI/Platforms/iOS/AppDelegate.cs:37-38 | For any readings, the k-th total is the elapsed time before the run plus the first k + 1 deltas, modulo 2^64 |
| LaunchTiming.TotalsAccumulateModulo | apps/SampleMAUI/Platforms/iOS/AppDelegate.cs:37-38 | The same for every k at once |
| LaunchTiming.TotalIsSumOfDeltasModulo | apps/SampleMAUI/Platforms/iOS/AppDelegate.cs:37-38 | From zeroed fields, for any readings, each total is the sum of the deltas so far modulo 2^64 |
| LaunchTiming.ThreeCheckpoints | apps/SampleMAUI/Platforms/iOS/AppDelegate.cs:31-38 | Readings 1000, 1500 and 4200 report (0, 0), (500, 500) and (2700, 3200) |

## Left out

- `export_table` and `xcrun xctrace export` (parse-trace.py:14-20): running the export is a subprocess call. Its stdout is the `Export` parameter.
- The regular expressions (parse-trace.py:45, 49): splitting the output into `<row>` elements and extracting the `<sample-time>` digits are not modelled. Rows come in as text plus an optional natural number.
- `main`'s argument check and exit status (parse-trace.py:79-83): command-line handling and `print` are I/O. `ReportLines` is the printed text.
- TraceReport.NsToMs: the source divides to a float and then truncates with `int`. The model divides integers exactly, so float rounding of very large nanosecond counts, and the `OverflowError` for quotients beyond the float range, are not captured.
- `gettimeofday` (AppDelegate.cs:13-14, 28): a P/Invoke into the C library. Its `TimeVal` result is a parameter, and its return code is ignored by the source and by the model.
- The `Console.Error.WriteLine` line (AppDelegate.cs:37): the output is not modelled. The method returns the two values the line prints, and the `msg` label is not modelled because it only appears in the output.
- `base.FinishedLaunching` and its result (AppDelegate.cs:46, 51): framework code that is not visible here. `FinishedLaunching` models only the two checkpoints.
- `CreateMauiApp` (AppDelegate.cs:23), `MyMauiApp/` and `apps/SampleiOS/`: app bootstrapping and UI code with no timing logic. They are not part of this model.
- The `private static` fields and static `DebugLaunchTimePrint` (AppDelegate.cs:10-11, 25): the process-wide pair is modelled as the fields of one `AppDelegate` object, and the method as an instance method on it. Each constructed object therefore starts a timer of its own, so sharing of the pair between several delegates in one process is not captured.
- Concurrency: the static fields are not synchronised in the source either. The model treats calls as sequential.
- `gettimeofday` is a wall clock, and its return code is ignored (AppDelegate.cs:28). A failed call leaves `tv` zeroed, so the reading is 0. `msg` is never checked. The model follows the code. Readings can go backwards, and `EarlierReadingWraps` states what is reported then.
