/**
  `parse_time_profile` of parse-trace.py: one pass over the exported sample
  rows that keeps a dictionary of six launch timestamps, each slot with its own
  rule (first occurrence, last occurrence, or first and last of one marker).
 */
module TraceProfile {
  import opened Wrappers
  import opened TraceRows

  /** The six keys of the timestamps dictionary. */
  datatype Key =
    | XamarinMainStart      // 'xamarin_main_start'
    | VmInitStart           // 'vm_init_start'
    | VmInitEnd             // 'vm_init_end'
    | XamarinInitEnd        // 'xamarin_init_end'
    | UiAppMain             // 'ui_app_main'
    | FinishedLaunchingEnd  // 'finished_launching_end'

  /** The Python dictionary: a key maps to `None` or to a time in nanoseconds. */
  type Timestamps = map<Key, Option<nat>>

  /**
    What the `xctrace export` produced: output that is empty or only
    whitespace, or the list of `<row>` elements found in it.
   */
  datatype Export = Blank | Rows(rows: seq<Row>)

  const AllKeys: set<Key> :=
    {XamarinMainStart, VmInitStart, VmInitEnd, XamarinInitEnd, UiAppMain, FinishedLaunchingEnd}

  /** The marker whose rows feed a slot. */
  function MarkerOf(k: Key): Marker {
    match k
    case XamarinMainStart => XamarinMain
    case VmInitStart => VmInitialize
    case VmInitEnd => VmInitialize
    case XamarinInitEnd => XamarinInitialize
    case UiAppMain => UIApplicationMain
    case FinishedLaunchingEnd => FinishedLaunching
  }

  /** The slots that keep the first occurrence; all others keep the last. */
  predicate KeepsFirst(k: Key) {
    k == XamarinMainStart || k == VmInitStart
  }

  /** The value a slot ends with after all of `rows`. */
  function Slot(rows: seq<Row>, k: Key): Option<nat> {
    if KeepsFirst(k) then FirstTime(rows, MarkerOf(k)) else LastTime(rows, MarkerOf(k))
  }

  /** The dictionary `parse_time_profile` returns. */
  function ProfileOf(exported: Export): Timestamps {
    match exported
    case Blank => map[]
    case Rows(rows) =>
      map[XamarinMainStart := Slot(rows, XamarinMainStart),
          VmInitStart := Slot(rows, VmInitStart),
          VmInitEnd := Slot(rows, VmInitEnd),
          XamarinInitEnd := Slot(rows, XamarinInitEnd),
          UiAppMain := Slot(rows, UiAppMain),
          FinishedLaunchingEnd := Slot(rows, FinishedLaunchingEnd)]
  }

  /** The per-row rule of each slot, as the scan applies it to one more row. */
  lemma {:induction false} SlotSnoc(rows: seq<Row>, r: Row, k: Key)
    ensures Slot(rows + [r], k) ==
      if Hit(r, MarkerOf(k)) && (!KeepsFirst(k) || Slot(rows, k).None?) then r.sampleTime
      else Slot(rows, k)
  {
    FirstTimeSnoc(rows, r, MarkerOf(k));
    LastTimeSnoc(rows, r, MarkerOf(k));
  }

  /** The script's scan, row by row, rebinding the dictionary value for each slot it changes. */
  method ParseTimeProfile(exported: Export) returns (timestamps: Timestamps)
    ensures timestamps == ProfileOf(exported)
  {
    if exported.Blank? {
      return map[];
    }
    var rows := exported.rows;
    timestamps := map[XamarinMainStart := None, VmInitStart := None, VmInitEnd := None,
                      XamarinInitEnd := None, UiAppMain := None, FinishedLaunchingEnd := None];
    assert rows[..0] == [];
    forall k ensures k in timestamps && timestamps[k] == Slot(rows[..0], k) {
      match k
      case XamarinMainStart =>
      case VmInitStart =>
      case VmInitEnd =>
      case XamarinInitEnd =>
      case UiAppMain =>
      case FinishedLaunchingEnd =>
    }
    for i := 0 to |rows|
      invariant forall k :: k in timestamps
      invariant forall k {:trigger Slot(rows[..i], k)} :: timestamps[k] == Slot(rows[..i], k)
    {
      var row := rows[i];
      ghost var before := timestamps;
      if row.sampleTime.None? {
        RowStep(rows, i, before, timestamps);
        continue;
      }
      var sampleTime := row.sampleTime.value;
      if timestamps[XamarinMainStart] == None && Mentions(row.text, XamarinMain) {
        timestamps := timestamps[XamarinMainStart := Some(sampleTime)];
      }
      if Mentions(row.text, VmInitialize) {
        if timestamps[VmInitStart] == None {
          timestamps := timestamps[VmInitStart := Some(sampleTime)];
        }
        timestamps := timestamps[VmInitEnd := Some(sampleTime)];
      }
      if Mentions(row.text, XamarinInitialize) {
        timestamps := timestamps[XamarinInitEnd := Some(sampleTime)];
      }
      if Mentions(row.text, UIApplicationMain) {
        timestamps := timestamps[UiAppMain := Some(sampleTime)];
      }
      if Mentions(row.text, FinishedLaunching) {
        timestamps := timestamps[FinishedLaunchingEnd := Some(sampleTime)];
      }
      RowStep(rows, i, before, timestamps);
    }
    assert rows[..|rows|] == rows;
    ProfileFromSlots(rows, timestamps);
  }

  /** A dictionary holding every slot's value for `rows` is the profile of `rows`. */
  lemma ProfileFromSlots(rows: seq<Row>, ts: Timestamps)
    requires forall k :: k in ts
    requires forall k {:trigger Slot(rows, k)} :: ts[k] == Slot(rows, k)
    ensures ts == ProfileOf(Rows(rows))
  {
    var p := ProfileOf(Rows(rows));
    forall k ensures k in p && p[k] == ts[k] {
      match k
      case XamarinMainStart =>
      case VmInitStart =>
      case VmInitEnd =>
      case XamarinInitEnd =>
      case UiAppMain =>
      case FinishedLaunchingEnd =>
    }
  }

  /**
    One iteration of the scan: if every slot held its value for the rows seen
    so far and the row updated each slot by its rule, every slot holds its
    value for one row more.
   */
  lemma RowStep(rows: seq<Row>, i: int, before: Timestamps, after: Timestamps)
    requires 0 <= i < |rows|
    requires forall k :: k in before
    requires forall k {:trigger Slot(rows[..i], k)} :: before[k] == Slot(rows[..i], k)
    requires after.Keys == before.Keys
    requires after[XamarinMainStart] ==
      if Hit(rows[i], XamarinMain) && before[XamarinMainStart].None? then rows[i].sampleTime
      else before[XamarinMainStart]
    requires after[VmInitStart] ==
      if Hit(rows[i], VmInitialize) && before[VmInitStart].None? then rows[i].sampleTime
      else before[VmInitStart]
    requires after[VmInitEnd] == if Hit(rows[i], VmInitialize) then rows[i].sampleTime else before[VmInitEnd]
    requires after[XamarinInitEnd] ==
      if Hit(rows[i], XamarinInitialize) then rows[i].sampleTime else before[XamarinInitEnd]
    requires after[UiAppMain] == if Hit(rows[i], UIApplicationMain) then rows[i].sampleTime else before[UiAppMain]
    requires after[FinishedLaunchingEnd] ==
      if Hit(rows[i], FinishedLaunching) then rows[i].sampleTime else before[FinishedLaunchingEnd]
    ensures forall k :: k in after
    ensures forall k {:trigger Slot(rows[..i + 1], k)} :: after[k] == Slot(rows[..i + 1], k)
  {
    assert rows[..i + 1] == rows[..i] + [rows[i]];
    forall k ensures k in after && after[k] == Slot(rows[..i + 1], k) {
      SlotSnoc(rows[..i], rows[i], k);
    }
  }

  /** A blank export gives the empty dictionary; no rows give six `None` slots. */
  lemma EmptyInput()
    ensures ProfileOf(Blank) == map[]
    ensures ProfileOf(Rows([])).Keys == AllKeys
    ensures forall k :: k in AllKeys ==> ProfileOf(Rows([]))[k] == None
  {
  }

  /** A non-blank export always yields all six keys. */
  lemma ProfileKeys(rows: seq<Row>)
    ensures ProfileOf(Rows(rows)).Keys == AllKeys
  {
  }

  /** A slot stays `None` exactly when no timed row mentions its marker. */
  lemma SlotNoneIffNoHit(rows: seq<Row>, k: Key)
    ensures ProfileOf(Rows(rows))[k].None? <==> forall i :: 0 <= i < |rows| ==> !Hit(rows[i], MarkerOf(k))
  {
    FirstTimeNoneIff(rows, MarkerOf(k));
    LastTimeNoneIff(rows, MarkerOf(k));
  }

  /** A row without a sample time can be removed without changing any slot. */
  lemma UntimedRowIgnored(before: seq<Row>, r: Row, after: seq<Row>)
    requires r.sampleTime.None?
    ensures ProfileOf(Rows(before + [r] + after)) == ProfileOf(Rows(before + after))
  {
    forall k ensures Slot(before + [r] + after, k) == Slot(before + after, k) {
      var m := MarkerOf(k);
      FirstTimeAppend(before + [r], after, m);
      FirstTimeAppend(before, after, m);
      LastTimeAppend(before + [r], after, m);
      LastTimeAppend(before, after, m);
      FirstTimeSnoc(before, r, m);
      LastTimeSnoc(before, r, m);
    }
  }

  /**
    'xamarin_main_start' is the time of the first timed row naming
    `xamarin_main`, and rows added later never overwrite it.
   */
  lemma XamarinMainStartFirstWins(rows: seq<Row>, i: int, more: seq<Row>)
    requires 0 <= i < |rows| && Hit(rows[i], XamarinMain)
    requires forall j :: 0 <= j < i ==> !Hit(rows[j], XamarinMain)
    ensures ProfileOf(Rows(rows))[XamarinMainStart] == rows[i].sampleTime
    ensures ProfileOf(Rows(rows + more))[XamarinMainStart] == rows[i].sampleTime
  {
    FirstTimeAt(rows, XamarinMain, i);
    FirstTimeAppend(rows, more, XamarinMain);
  }

  /**
    'vm_init_start' is the time of the first, and 'vm_init_end' of the last,
    timed row mentioning the VM initialisation; after any such row both are set.
   */
  lemma VmInitFirstAndLast(rows: seq<Row>, i: int, j: int)
    requires 0 <= i <= j < |rows| && Hit(rows[i], VmInitialize) && Hit(rows[j], VmInitialize)
    requires forall l :: 0 <= l < i ==> !Hit(rows[l], VmInitialize)
    requires forall l :: j < l < |rows| ==> !Hit(rows[l], VmInitialize)
    ensures ProfileOf(Rows(rows))[VmInitStart] == rows[i].sampleTime
    ensures ProfileOf(Rows(rows))[VmInitEnd] == rows[j].sampleTime
  {
    FirstTimeAt(rows, VmInitialize, i);
    LastTimeAt(rows, VmInitialize, j);
  }

  lemma VmInitBothSet(rows: seq<Row>, i: int)
    requires 0 <= i < |rows| && Hit(rows[i], VmInitialize)
    ensures ProfileOf(Rows(rows))[VmInitStart].Some? && ProfileOf(Rows(rows))[VmInitEnd].Some?
  {
    SlotNoneIffNoHit(rows, VmInitStart);
    SlotNoneIffNoHit(rows, VmInitEnd);
  }

  /**
    'xamarin_init_end', 'ui_app_main' and 'finished_launching_end' hold the
    time of the last timed row that matches their marker.
   */
  lemma LastWins(rows: seq<Row>, k: Key, i: int)
    requires !KeepsFirst(k)
    requires 0 <= i < |rows| && Hit(rows[i], MarkerOf(k))
    requires forall j :: i < j < |rows| ==> !Hit(rows[j], MarkerOf(k))
    ensures ProfileOf(Rows(rows))[k] == rows[i].sampleTime
  {
    LastTimeAt(rows, MarkerOf(k), i);
  }

  /** A row that does not hit a slot's marker leaves that slot unchanged. */
  lemma OtherRowUnchanged(rows: seq<Row>, r: Row, k: Key)
    requires !Hit(r, MarkerOf(k))
    ensures ProfileOf(Rows(rows + [r]))[k] == ProfileOf(Rows(rows))[k]
  {
    SlotSnoc(rows, r, k);
  }

  /** With non-decreasing sample times, 'vm_init_start' <= 'vm_init_end'. */
  lemma VmInitOrdered(rows: seq<Row>)
    requires TimesNonDecreasing(rows)
    ensures ProfileOf(Rows(rows))[VmInitStart].Some? <==> ProfileOf(Rows(rows))[VmInitEnd].Some?
    ensures ProfileOf(Rows(rows))[VmInitStart].Some? ==>
      ProfileOf(Rows(rows))[VmInitStart].value <= ProfileOf(Rows(rows))[VmInitEnd].value
  {
    FirstNotAfterLast(rows, VmInitialize);
  }
}
