/**
 * The acquisition layout of decloud/acquisitions/sensing_layout.py: an
 * insertion-ordered mapping from slot name to the slot's dict (S1 spec, S2
 * spec, S1/S2 gap and time window, in seconds), grown by `new_acquisition`,
 * and the lookups the tuple search runs on it.
 */
module SensingLayout {
  import opened Wrappers
  import opened JsonData
  import PyStr

  datatype S1Acquisition = S1Acquisition(ascending: Option<bool>)

  /** The minimum cloud percentage is kept as given: a number or a "random..." expression. */
  datatype S2Acquisition = S2Acquisition(minCloudPercent: Json, maxCloudPercent: Json)

  /**
   * The dict of one slot. A field is None while its key has not been written,
   * which happens when an assertion of `new_acquisition` fails after the slot
   * was inserted. `maxGap == Some(None)` is the stored value None.
   */
  datatype Entry = Entry(
    s1: Option<S1Acquisition>,
    s2: Option<S2Acquisition>,
    maxGap: Option<Option<real>>,
    begin: Option<real>,
    end: Option<real>)

  /** The layout's contents: slot names in insertion order, their dicts, and `OPTIONS`. */
  datatype LayoutValue = LayoutValue(names: seq<string>, entries: map<string, Entry>, options: Json)

  /** The exception `get_ref_name` raises when no slot is a reference. */
  const NoOriginError: string := "Exception"
  const SiblingsKey: string := "siblings"

  /** Hours to seconds, as the `* 3600` of the source. */
  function Seconds(hours: real): real {
    hours * 3600.0
  }

  function Min(a: real, b: real): real { if a <= b then a else b }
  function Max(a: real, b: real): real { if a <= b then b else a }

  /** The entry of `name`, or None where `self[name]` raises a KeyError. */
  function EntryOf(l: LayoutValue, name: string): (r: Option<Entry>)
    ensures r.Some? <==> name in l.entries
  {
    if name in l.entries then Some(l.entries[name]) else None
  }

  /** `is_ref`: the slot's window is [0, 0]; there is no stored origin flag. */
  function IsRef(l: LayoutValue, name: string): Result<bool> {
    if name !in l.entries then Err(KeyError)
    else if l.entries[name].begin.None? then Err(KeyError)
    else if l.entries[name].end.None? then Err(KeyError)
    else Ok(l.entries[name].begin.value == 0.0 && l.entries[name].end.value == 0.0)
  }

  function Need<T>(o: Option<T>, msg: string): (r: Result<T>)
    ensures r.Ok? <==> o.Some?
    ensures o.Some? ==> r == Ok(o.value)
  {
    if o.Some? then Ok(o.value) else Err(msg)
  }

  /** The slot at position `k` answers `is_ref` with True. */
  predicate RefAt(l: LayoutValue, k: int) {
    0 <= k < |l.names| && IsRef(l, l.names[k]) == Ok(true)
  }

  /** The slot at position `j` answers `is_ref` with False. */
  predicate NonRefAt(l: LayoutValue, j: int) {
    0 <= j < |l.names| && IsRef(l, l.names[j]) == Ok(false)
  }

  /** The loop of `get_ref_name` from position `i` on: the first slot that is a reference. */
  function RefFrom(l: LayoutValue, i: nat): (r: Result<nat>)
    requires i <= |l.names|
    ensures r.Ok? ==> i <= r.value && RefAt(l, r.value) && forall j :: i <= j < r.value ==> NonRefAt(l, j)
    ensures r.Err? ==> forall k :: i <= k < |l.names| && RefAt(l, k) ==> exists j :: i <= j < k && !NonRefAt(l, j)
    decreases |l.names| - i
  {
    if i == |l.names| then Err(NoOriginError)
    else
      var isRef := IsRef(l, l.names[i]);
      if isRef.Err? then
        assert !NonRefAt(l, i) && !RefAt(l, i);
        Err(isRef.msg)
      else if isRef.value then Ok(i)
      else RefFrom(l, i + 1)
  }

  /** `get_ref_name`: the first slot in insertion order whose window is [0, 0]. */
  function GetRefName(l: LayoutValue): (r: Result<string>)
    ensures r.Ok? ==> exists k :: RefAt(l, k) && l.names[k] == r.value && forall j :: 0 <= j < k ==> NonRefAt(l, j)
    ensures (forall j :: 0 <= j < |l.names| ==> NonRefAt(l, j)) ==> r.Err?
  {
    var k :- RefFrom(l, 0);
    assert !NonRefAt(l, k);
    Ok(l.names[k])
  }

  /** When every slot before position `k` answers False and slot `k` answers True, `get_ref_name` returns slot `k`. */
  lemma {:induction false} RefNameIsFirst(l: LayoutValue, k: nat)
    requires RefAt(l, k) && forall j :: 0 <= j < k ==> NonRefAt(l, j)
    ensures GetRefName(l) == Ok(l.names[k])
  {
    var r := RefFrom(l, 0);
    assert !NonRefAt(l, k);
    assert r.Ok?;
    assert !NonRefAt(l, r.value);
  }

  /** `get_timestamp_range` */
  function GetTimestampRange(l: LayoutValue, name: string): (r: Result<(real, real)>)
    ensures r.Ok? <==> name in l.entries && l.entries[name].begin.Some? && l.entries[name].end.Some?
  {
    var e :- Need(EntryOf(l, name), KeyError);
    var b :- Need(e.begin, KeyError);
    var t :- Need(e.end, KeyError);
    Ok((b, t))
  }

  /** `get_s1s2_max_timestamp_delta`: the stored gap, None when only one sensor is used. */
  function GetS1S2MaxTimestampDelta(l: LayoutValue, name: string): (r: Result<Option<real>>)
    ensures r.Ok? <==> name in l.entries && l.entries[name].maxGap.Some?
  {
    var e :- Need(EntryOf(l, name), KeyError);
    Need(e.maxGap, KeyError)
  }

  /** `has_s1_acquisition` */
  function HasS1(l: LayoutValue, name: string): (r: Result<bool>)
    ensures r.Ok? <==> name in l.entries
  {
    var e :- Need(EntryOf(l, name), KeyError);
    Ok(e.s1.Some?)
  }

  /** `has_s2_acquisition` */
  function HasS2(l: LayoutValue, name: string): (r: Result<bool>)
    ensures r.Ok? <==> name in l.entries
  {
    var e :- Need(EntryOf(l, name), KeyError);
    Ok(e.s2.Some?)
  }

  /** `get_s1_acquisition`: None exactly when the slot has no S1 key. */
  function GetS1(l: LayoutValue, name: string): (r: Result<Option<S1Acquisition>>)
    ensures r.Ok? <==> HasS1(l, name).Ok?
    ensures r == Ok(None) <==> HasS1(l, name) == Ok(false)
    ensures r.Ok? && r.value.Some? <==> HasS1(l, name) == Ok(true)
  {
    var e :- Need(EntryOf(l, name), KeyError);
    Ok(e.s1)
  }

  /** `get_s2_acquisition`: None exactly when the slot has no S2 key. */
  function GetS2(l: LayoutValue, name: string): (r: Result<Option<S2Acquisition>>)
    ensures r.Ok? <==> HasS2(l, name).Ok?
    ensures r == Ok(None) <==> HasS2(l, name) == Ok(false)
    ensures r.Ok? && r.value.Some? <==> HasS2(l, name) == Ok(true)
  {
    var e :- Need(EntryOf(l, name), KeyError);
    Ok(e.s2)
  }

  /** What Python's `for x in v` yields, or None where `v` is not iterable. */
  function Iterate(v: Json): Option<seq<Json>> {
    match v
    case Arr(items) => Some(items)
    case Obj(members) => Some(seq(|members|, i requires 0 <= i < |members| => Str(members[i].0)))
    case Str(s) => Some(seq(|s|, i requires 0 <= i < |s| => Str([s[i]])))
    case _ => None
  }

  /** Python's `x in group` for a string `x`, or None where it is a type error. */
  function MemberOf(x: string, group: Json): Option<bool> {
    match group
    case Arr(items) => Some(Str(x) in items)
    case Obj(members) => Some(HasKey(members, x))
    case Str(s) => Some(PyStr.Contains(s, x))
    case _ => None
  }

  /** `x` and `name` are both in `group`. */
  predicate Together(x: string, name: string, group: Json) {
    MemberOf(x, group) == Some(true) && MemberOf(name, group) == Some(true)
  }

  /** The inner loop of `is_siblings` over one group. */
  function InGroup(group: Json, acqs: seq<string>, name: string): (r: Result<bool>)
    ensures r == Ok(true) ==> exists a :: a in acqs && Together(a, name, group)
    ensures MemberOf(name, group).Some? ==>
              r == Ok(exists a :: a in acqs && Together(a, name, group)) || (|acqs| > 0 && r.Err?)
    ensures MemberOf(name, group).Some? && |acqs| > 0 ==> r.Ok?
    ensures |acqs| == 0 ==> r == Ok(false)
  {
    if |acqs| == 0 then Ok(false)
    else
      var m :- Need(MemberOf(acqs[0], group), TypeError);
      if m && MemberOf(name, group) == Some(true) then
        assert acqs[0] in acqs && Together(acqs[0], name, group);
        Ok(true)
      else
        var rest := InGroup(group, acqs[1..], name);
        assert forall a :: a in acqs[1..] ==> a in acqs;
        assert (exists a :: a in acqs && Together(a, name, group)) ==>
               Together(acqs[0], name, group) || exists a :: a in acqs[1..] && Together(a, name, group);
        rest
  }

  /** The outer loop of `is_siblings`, stopping at the first group that answers True. */
  function InGroups(groups: seq<Json>, acqs: seq<string>, name: string): (r: Result<bool>)
    ensures r == Ok(true) ==> exists g, a :: g in groups && a in acqs && Together(a, name, g)
    ensures (forall g :: g in groups ==> MemberOf(name, g).Some?) ==>
              r == Ok(exists g, a :: g in groups && a in acqs && Together(a, name, g))
  {
    if |groups| == 0 then Ok(false)
    else
      var first :- InGroup(groups[0], acqs, name);
      if first then Ok(true)
      else
        var rest := InGroups(groups[1..], acqs, name);
        assert forall g :: g in groups[1..] ==> g in groups;
        assert (exists g, a :: g in groups && a in acqs && Together(a, name, g)) ==>
               (exists a :: a in acqs && Together(a, name, groups[0])) ||
               exists g, a :: g in groups[1..] && a in acqs && Together(a, name, g);
        rest
  }

  /**
   * `is_siblings`: some group of `OPTIONS[SiblingsKey]` holds `name` and a member
   * of `acqs`; False without a SiblingsKey option.
   */
  function IsSiblings(l: LayoutValue, acqs: seq<string>, name: string): (r: Result<bool>)
    ensures l.options.Obj? && !HasKey(l.options.members, SiblingsKey) ==> r == Ok(false)
    ensures r == Ok(true) ==>
              Get(l.options, SiblingsKey).Some? && Iterate(Get(l.options, SiblingsKey).value).Some? &&
              exists g, a :: g in Iterate(Get(l.options, SiblingsKey).value).value && a in acqs && Together(a, name, g)
    ensures Get(l.options, SiblingsKey).Some? && Iterate(Get(l.options, SiblingsKey).value).Some? &&
            (forall g :: g in Iterate(Get(l.options, SiblingsKey).value).value ==> MemberOf(name, g).Some?) ==>
              r == Ok(exists g, a :: g in Iterate(Get(l.options, SiblingsKey).value).value && a in acqs && Together(a, name, g))
  {
    if !l.options.Obj? then Err(AttributeError)
    else if !HasKey(l.options.members, SiblingsKey) then Ok(false)
    else
      var groups :- Need(Iterate(Get(l.options, SiblingsKey).value), TypeError);
      InGroups(groups, acqs, name)
  }

  /**
   * `_cell_s1(n)`: None when the S1 cell of slot n can be printed, otherwise
   * the exception it raises: KeyError for a missing slot or gap key,
   * TypeError for the gap None, which `_round_hours` divides.
   */
  function S1CellError(l: LayoutValue, n: string): (r: Option<string>)
    ensures r.None? <==> n in l.entries && (l.entries[n].s1.Some? ==> l.entries[n].maxGap.Some? && l.entries[n].maxGap.value.Some?)
  {
    if n !in l.entries then Some(KeyError)
    else if l.entries[n].s1.None? then None
    else if l.entries[n].maxGap.None? then Some(KeyError)
    else if l.entries[n].maxGap.value.None? then Some(TypeError)
    else None
  }

  /** `_cell_s2(n)`: None when the S2 cell of slot n can be printed, otherwise KeyError for a missing window key. */
  function S2CellError(l: LayoutValue, n: string): (r: Option<string>)
    ensures r.None? <==> n in l.entries && (l.entries[n].s2.Some? ==> l.entries[n].begin.Some? && l.entries[n].end.Some?)
    ensures r.Some? ==> r.value == KeyError
  {
    if n !in l.entries then Some(KeyError)
    else if l.entries[n].s2.Some? && (l.entries[n].begin.None? || l.entries[n].end.None?) then Some(KeyError)
    else None
  }

  /** The S1 row (`line1`) from slot i on: the exception of its first cell that raises. */
  function S1RowFrom(l: LayoutValue, i: nat): (r: Outcome)
    requires i <= |l.names|
    ensures r.Pass? <==> forall j :: i <= j < |l.names| ==> S1CellError(l, l.names[j]).None?
    ensures forall k :: i <= k < |l.names| && S1CellError(l, l.names[k]).Some? &&
                        (forall j :: i <= j < k ==> S1CellError(l, l.names[j]).None?) ==>
              r == Fail(S1CellError(l, l.names[k]).value)
    decreases |l.names| - i
  {
    if i == |l.names| then Pass
    else
      match S1CellError(l, l.names[i])
      case Some(e) => Fail(e)
      case None => S1RowFrom(l, i + 1)
  }

  /** The S2 row (`line2`) from slot i on: the exception of its first cell that raises. */
  function S2RowFrom(l: LayoutValue, i: nat): (r: Outcome)
    requires i <= |l.names|
    ensures r.Pass? <==> forall j :: i <= j < |l.names| ==> S2CellError(l, l.names[j]).None?
    ensures r.Fail? ==> r == Fail(KeyError)
    decreases |l.names| - i
  {
    if i == |l.names| then Pass
    else
      match S2CellError(l, l.names[i])
      case Some(e) => Fail(e)
      case None => S2RowFrom(l, i + 1)
  }

  /**
   * `summarize` builds the whole S1 row before the S2 row, so it raises the
   * exception of the first S1 cell that raises, whatever the S2 cells; with
   * every S1 cell printable it raises KeyError exactly when an S2 cell lacks
   * a window key.
   */
  function Summarize(l: LayoutValue): (r: Outcome)
    ensures r.Pass? <==> forall n :: n in l.names ==>
              n in l.entries &&
              (l.entries[n].s1.Some? ==> l.entries[n].maxGap.Some? && l.entries[n].maxGap.value.Some?) &&
              (l.entries[n].s2.Some? ==> l.entries[n].begin.Some? && l.entries[n].end.Some?)
    ensures forall k :: 0 <= k < |l.names| && S1CellError(l, l.names[k]).Some? &&
                        (forall j :: 0 <= j < k ==> S1CellError(l, l.names[j]).None?) ==>
              r == Fail(S1CellError(l, l.names[k]).value)
    ensures (forall n :: n in l.names ==> S1CellError(l, n).None?) ==>
              (r.Fail? <==> exists n :: n in l.names && S2CellError(l, n).Some?) && (r.Fail? ==> r == Fail(KeyError))
  {
    var row1 := S1RowFrom(l, 0);
    if row1.Fail? then row1 else S2RowFrom(l, 0)
  }

  /**
   * An S2 slot left without its window by a failed `new_acquisition`, then an
   * S1-only slot whose gap is None: the S1 row raises TypeError before the
   * S2 row could raise KeyError.
   */
  lemma SummarizeS1RowFirst(s2: S2Acquisition)
    ensures var a := Entry(None, Some(s2), Some(None), None, None);
            var b := Entry(Some(S1Acquisition(None)), None, Some(None), Some(0.0), Some(0.0));
            Summarize(LayoutValue(["a", "b"], map["a" := a, "b" := b], Obj([]))) == Fail(TypeError)
  {
    var a := Entry(None, Some(s2), Some(None), None, None);
    var b := Entry(Some(S1Acquisition(None)), None, Some(None), Some(0.0), Some(0.0));
    var l := LayoutValue(["a", "b"], map["a" := a, "b" := b], Obj([]));
    assert S1CellError(l, l.names[0]).None?;
    assert S1CellError(l, l.names[1]) == Some(TypeError);
  }

  /** The stored window, in seconds, for the hours given in either order. */
  function Window(startHours: real, endHours: real): (real, real)
  {
    (Seconds(Min(startHours, endHours)), Seconds(Max(startHours, endHours)))
  }

  /** The window is the two hours in seconds, whatever the argument order. */
  lemma WindowEndpoints(startHours: real, endHours: real)
    ensures Window(startHours, endHours).0 <= Window(startHours, endHours).1
    ensures Window(startHours, endHours) == Window(endHours, startHours)
    ensures startHours <= endHours ==> Window(startHours, endHours) == (Seconds(startHours), Seconds(endHours))
    ensures endHours <= startHours ==> Window(startHours, endHours) == (Seconds(endHours), Seconds(startHours))
  {
  }

  /** At least one sensor is given. */
  predicate SensorsGiven(s1: Option<S1Acquisition>, s2: Option<S2Acquisition>) {
    s1.Some? || s2.Some?
  }

  /** With both sensors, the gap is a number greater than zero. */
  predicate GapAccepted(s1: Option<S1Acquisition>, s2: Option<S2Acquisition>, maxGapHours: Json) {
    s1.Some? && s2.Some? ==> Numeric(maxGapHours).Some? && Numeric(maxGapHours).value > 0.0
  }

  /** Every slot of `l` answers `is_ref` with False. */
  predicate NoRef(l: LayoutValue) {
    forall j :: 0 <= j < |l.names| ==> NonRefAt(l, j)
  }

  /** An origin slot has zero hours and no other slot of `l` is already a reference. */
  predicate OriginAccepted(l: LayoutValue, timeframeOrigin: Json, startHours: Json, endHours: Json) {
    timeframeOrigin == Bool(true) ==> NoRef(l) && EqualsZero(startHours) && EqualsZero(endHours)
  }

  /**
   * The origin assertions in source order from slot `i` on: the first other
   * slot that is a reference, or whose `is_ref` raises, fails the call; then
   * both hours must equal 0.
   */
  function OriginFrom(l: LayoutValue, i: nat, startHours: Json, endHours: Json): Outcome
    decreases |l.names| - i
  {
    if i >= |l.names| then
      if EqualsZero(startHours) && EqualsZero(endHours) then Pass else Fail(AssertionError)
    else
      match IsRef(l, l.names[i])
      case Err(msg) => Fail(msg)
      case Ok(isRef) => if isRef then Fail(AssertionError) else OriginFrom(l, i + 1, startHours, endHours)
  }

  /** The outcome of the origin assertions (lines 104-110 of the source) for a name new to `l`. */
  function OriginOutcome(l: LayoutValue, timeframeOrigin: Json, startHours: Json, endHours: Json): Outcome {
    if timeframeOrigin == Bool(true) then OriginFrom(l, 0, startHours, endHours) else Pass
  }

  /** The origin assertions from slot `i` on pass exactly when no slot from `i` on is a reference and both hours are 0. */
  lemma {:induction false} OriginFromPass(l: LayoutValue, i: nat, startHours: Json, endHours: Json)
    requires i <= |l.names|
    ensures OriginFrom(l, i, startHours, endHours).Pass? <==>
              (forall j :: i <= j < |l.names| ==> NonRefAt(l, j)) && EqualsZero(startHours) && EqualsZero(endHours)
    decreases |l.names| - i
  {
    if i < |l.names| {
      OriginFromPass(l, i + 1, startHours, endHours);
      assert NonRefAt(l, i) <==> IsRef(l, l.names[i]) == Ok(false);
      assert (forall j :: i <= j < |l.names| ==> NonRefAt(l, j)) <==>
             NonRefAt(l, i) && forall j :: i + 1 <= j < |l.names| ==> NonRefAt(l, j);
    }
  }

  /** The origin assertions pass exactly when `OriginAccepted` holds. */
  lemma OriginOutcomeMeaning(l: LayoutValue, timeframeOrigin: Json, startHours: Json, endHours: Json)
    ensures OriginOutcome(l, timeframeOrigin, startHours, endHours).Pass? <==>
            OriginAccepted(l, timeframeOrigin, startHours, endHours)
  {
    OriginFromPass(l, 0, startHours, endHours);
  }

  /** `min` and `max` of the hours can be multiplied by 3600. */
  predicate HoursNumeric(startHours: Json, endHours: Json) {
    Numeric(startHours).Some? && Numeric(endHours).Some?
  }

  /** Every condition `new_acquisition` asserts, in terms of the layout before the call. */
  predicate Admissible(l: LayoutValue, name: string, s1: Option<S1Acquisition>, s2: Option<S2Acquisition>,
                       maxGapHours: Json, timeframeOrigin: Json, startHours: Json, endHours: Json)
  {
    name !in l.entries && SensorsGiven(s1, s2) && GapAccepted(s1, s2, maxGapHours) &&
    OriginAccepted(l, timeframeOrigin, startHours, endHours) && HoursNumeric(startHours, endHours)
  }

  /** How `new_acquisition` ended (normally, or the exception it raised), and the dict of the new slot as it was left. */
  datatype Added = Added(outcome: Outcome, entry: Entry) {
    const ok: bool := outcome.Pass?
  }

  /** The outcome of the gap assertions when both sensors are given: None fails, and so does a gap not above 0. */
  function GapOutcome(maxGapHours: Json): Outcome {
    if maxGapHours == Null then Fail(AssertionError)
    else if Numeric(maxGapHours).None? then Fail(TypeError)
    else if Numeric(maxGapHours).value > 0.0 then Pass
    else Fail(AssertionError)
  }

  /** The sensor keys and the S1/S2 gap written into an empty dict (lines 84-101 of the source). */
  function SensorsStep(s1: Option<S1Acquisition>, s2: Option<S2Acquisition>, maxGapHours: Json): (r: Added)
    ensures r.entry.s1 == s1 && r.entry.s2 == s2 && r.entry.begin.None? && r.entry.end.None?
    ensures r.ok <==> SensorsGiven(s1, s2) && GapAccepted(s1, s2, maxGapHours)
    ensures !SensorsGiven(s1, s2) ==> r.entry == Entry(None, None, None, None, None)
  {
    var sensors := Entry(s1, s2, None, None, None);
    if !SensorsGiven(s1, s2) then Added(Fail(AssertionError), sensors)
    else if s1.Some? && s2.Some? && GapOutcome(maxGapHours).Fail? then Added(GapOutcome(maxGapHours), sensors.(maxGap := Some(None)))
    else Added(Pass, sensors.(maxGap := Some(if s1.Some? && s2.Some? then Some(Seconds(Numeric(maxGapHours).value)) else None)))
  }

  /** The origin checks and the window keys written into `e` (lines 104-112 of the source). */
  function WindowStep(l: LayoutValue, e: Entry, timeframeOrigin: Json, startHours: Json, endHours: Json): Added {
    WindowFrom(OriginOutcome(l, timeframeOrigin, startHours, endHours), e, startHours, endHours)
  }

  /** The window keys written into `e` once the origin assertions ended with `origin`. */
  function WindowFrom(origin: Outcome, e: Entry, startHours: Json, endHours: Json): (r: Added)
    ensures r.entry.s1 == e.s1 && r.entry.s2 == e.s2 && r.entry.maxGap == e.maxGap
    ensures r.ok <==> origin.Pass? && HoursNumeric(startHours, endHours)
    ensures !r.ok ==> r.entry == e
  {
    if origin.Fail? then Added(origin, e)
    else if !HoursNumeric(startHours, endHours) then Added(Fail(TypeError), e)
    else
      var w := Window(Numeric(startHours).value, Numeric(endHours).value);
      Added(Pass, e.(begin := Some(w.0), end := Some(w.1)))
  }

  /**
   * The new slot's dict as `new_acquisition` leaves it when `name` is new to
   * `l`: each write is made in source order up to the first failed assertion.
   */
  function AddedEntry(l: LayoutValue, s1: Option<S1Acquisition>, s2: Option<S2Acquisition>,
                      maxGapHours: Json, timeframeOrigin: Json, startHours: Json, endHours: Json): Added
  {
    var a := SensorsStep(s1, s2, maxGapHours);
    if !a.ok then a else WindowStep(l, a.entry, timeframeOrigin, startHours, endHours)
  }

  /**
   * `new_acquisition` of a new name returns normally exactly when every
   * assertion holds and both hours are numbers.
   */
  lemma AddedOkIff(l: LayoutValue, name: string, s1: Option<S1Acquisition>, s2: Option<S2Acquisition>,
                   maxGapHours: Json, timeframeOrigin: Json, startHours: Json, endHours: Json)
    requires name !in l.entries
    ensures AddedEntry(l, s1, s2, maxGapHours, timeframeOrigin, startHours, endHours).ok <==>
            Admissible(l, name, s1, s2, maxGapHours, timeframeOrigin, startHours, endHours)
  {
    OriginOutcomeMeaning(l, timeframeOrigin, startHours, endHours);
  }

  /**
   * The sensor keys are always written; without any sensor the dict stays
   * empty; a failed call never writes the window.
   */
  lemma AddedPartial(l: LayoutValue, s1: Option<S1Acquisition>, s2: Option<S2Acquisition>,
                     maxGapHours: Json, timeframeOrigin: Json, startHours: Json, endHours: Json)
    ensures var a := AddedEntry(l, s1, s2, maxGapHours, timeframeOrigin, startHours, endHours);
            a.entry.s1 == s1 && a.entry.s2 == s2 &&
            (!SensorsGiven(s1, s2) ==> !a.ok && a.entry == Entry(None, None, None, None, None)) &&
            (!a.ok ==> a.entry.begin.None? && a.entry.end.None?)
  {
    var sensors := SensorsStep(s1, s2, maxGapHours);
    if sensors.ok {
      var origin := OriginOutcome(l, timeframeOrigin, startHours, endHours);
      assert AddedEntry(l, s1, s2, maxGapHours, timeframeOrigin, startHours, endHours) ==
             WindowFrom(origin, sensors.entry, startHours, endHours);
    }
  }

  /**
   * A slot added normally stores the gap in seconds when both sensors are
   * given and None otherwise, and the window [min, max] of the hours in seconds.
   */
  lemma AddedStored(l: LayoutValue, s1: Option<S1Acquisition>, s2: Option<S2Acquisition>,
                    maxGapHours: Json, timeframeOrigin: Json, startHours: Json, endHours: Json)
    requires AddedEntry(l, s1, s2, maxGapHours, timeframeOrigin, startHours, endHours).ok
    ensures var e := AddedEntry(l, s1, s2, maxGapHours, timeframeOrigin, startHours, endHours).entry;
            (s1.Some? && s2.Some? ==> e.maxGap == Some(Some(Seconds(Numeric(maxGapHours).value))) && e.maxGap.value.value > 0.0) &&
            (s1.None? || s2.None? ==> e.maxGap == Some(None)) &&
            e.begin.Some? && e.end.Some? && e.begin.value <= e.end.value &&
            (e.begin.value, e.end.value) == Window(Numeric(startHours).value, Numeric(endHours).value)
  {
    WindowEndpoints(Numeric(startHours).value, Numeric(endHours).value);
  }

  /** The layout after the slot's dict is stored under `name`, at the end of the order. */
  function WithSlot(l: LayoutValue, name: string, e: Entry): LayoutValue {
    LayoutValue(l.names + [name], l.entries[name := e], l.options)
  }

  /** Storing a new slot leaves every older slot's `is_ref` answer as it was. */
  lemma {:induction false} OthersUnchanged(l: LayoutValue, name: string, e: Entry)
    requires name !in l.names
    ensures forall j :: 0 <= j < |l.names| ==> (NonRefAt(WithSlot(l, name, e), j) <==> NonRefAt(l, j))
  {
    var l' := WithSlot(l, name, e);
    forall j | 0 <= j < |l.names|
      ensures IsRef(l', l'.names[j]) == IsRef(l, l.names[j])
    {
      assert l'.names[j] == l.names[j];
    }
  }

  /**
   * A slot added normally is a reference exactly when both hours are 0,
   * whether or not it was declared the origin; one declared the origin is
   * what `get_ref_name` returns afterwards.
   */
  lemma {:induction false} AddedRef(l: LayoutValue, name: string, s1: Option<S1Acquisition>, s2: Option<S2Acquisition>,
                                    maxGapHours: Json, timeframeOrigin: Json, startHours: Json, endHours: Json)
    requires name !in l.names
    requires AddedEntry(l, s1, s2, maxGapHours, timeframeOrigin, startHours, endHours).ok
    ensures var l' := WithSlot(l, name, AddedEntry(l, s1, s2, maxGapHours, timeframeOrigin, startHours, endHours).entry);
            (IsRef(l', name) == Ok(true) <==> Numeric(startHours) == Some(0.0) && Numeric(endHours) == Some(0.0)) &&
            (timeframeOrigin == Bool(true) ==> GetRefName(l') == Ok(name))
  {
    var e := AddedEntry(l, s1, s2, maxGapHours, timeframeOrigin, startHours, endHours).entry;
    var l' := WithSlot(l, name, e);
    var lo, hi := Numeric(startHours).value, Numeric(endHours).value;
    WindowEndpoints(lo, hi);
    OriginOutcomeMeaning(l, timeframeOrigin, startHours, endHours);
    if timeframeOrigin == Bool(true) {
      OthersUnchanged(l, name, e);
      assert l'.names[|l.names|] == name;
      RefNameIsFirst(l', |l.names|);
    }
  }

  /**
   * The writes `new_acquisition` makes into the new slot's dict after
   * inserting it, stopping at the first failed assertion.
   */
  method FillEntry(l: LayoutValue, name: string, s1: Option<S1Acquisition>, s2: Option<S2Acquisition>,
                   maxGapHours: Json, timeframeOrigin: Json, startHours: Json, endHours: Json)
    returns (r: Outcome, e: Entry)
    requires name !in l.names
    ensures Added(r, e) == AddedEntry(l, s1, s2, maxGapHours, timeframeOrigin, startHours, endHours)
  {
    r, e := WriteSensors(s1, s2, maxGapHours);
    if r.Pass? {
      r, e := WriteWindow(l, name, e, timeframeOrigin, startHours, endHours);
    }
  }

  method WriteSensors(s1: Option<S1Acquisition>, s2: Option<S2Acquisition>, maxGapHours: Json)
    returns (r: Outcome, e: Entry)
    ensures Added(r, e) == SensorsStep(s1, s2, maxGapHours)
  {
    e := Entry(None, None, None, None, None);
    if s1.Some? {
      e := e.(s1 := s1);
    }
    if s2.Some? {
      e := e.(s2 := s2);
    }
    if s1.None? && s2.None? {
      return Fail(AssertionError), e;
    }
    e := e.(maxGap := Some(None));
    if s1.Some? && s2.Some? {
      if maxGapHours == Null {
        return Fail(AssertionError), e;
      }
      var gap := Numeric(maxGapHours);
      if gap.None? {
        return Fail(TypeError), e;
      }
      if !(gap.value > 0.0) {
        return Fail(AssertionError), e;
      }
      e := e.(maxGap := Some(Some(Seconds(gap.value))));
    }
    r := Pass;
  }

  method WriteWindow(l: LayoutValue, name: string, e0: Entry, timeframeOrigin: Json, startHours: Json, endHours: Json)
    returns (r: Outcome, e: Entry)
    requires name !in l.names
    ensures Added(r, e) == WindowStep(l, e0, timeframeOrigin, startHours, endHours)
  {
    e := e0;
    r := CheckOrigin(l, name, timeframeOrigin, startHours, endHours);
    if r.Fail? {
      return;
    }
    var lo := Numeric(startHours);
    var hi := Numeric(endHours);
    if lo.None? || hi.None? {
      return Fail(TypeError), e;
    }
    var w := Window(lo.value, hi.value);
    e := e.(begin := Some(w.0));
    e := e.(end := Some(w.1));
  }

  /** The assertions of an origin slot: no other slot is a reference yet, and both hours are 0. */
  method CheckOrigin(l: LayoutValue, name: string, timeframeOrigin: Json, startHours: Json, endHours: Json)
    returns (r: Outcome)
    requires name !in l.names
    ensures r == OriginOutcome(l, timeframeOrigin, startHours, endHours)
    ensures r.Pass? <==> OriginAccepted(l, timeframeOrigin, startHours, endHours)
  {
    OriginOutcomeMeaning(l, timeframeOrigin, startHours, endHours);
    if timeframeOrigin != Bool(true) {
      return Pass;
    }
    var i := 0;
    while i < |l.names|
      invariant 0 <= i <= |l.names|
      invariant OriginFrom(l, i, startHours, endHours) == OriginFrom(l, 0, startHours, endHours)
    {
      if l.names[i] != name {
        var isRef := IsRef(l, l.names[i]);
        if isRef.Err? {
          assert !NonRefAt(l, i);
          return Fail(isRef.msg);
        }
        if isRef.value {
          assert !NonRefAt(l, i);
          return Fail(AssertionError);
        }
      }
      i := i + 1;
    }
    if !EqualsZero(startHours) || !EqualsZero(endHours) {
      return Fail(AssertionError);
    }
    return Pass;
  }

  class AcquisitionsLayout {
    var names: seq<string>
    var entries: map<string, Entry>
    var options: Json

    /** The names are the keys of the dict, each once. */
    ghost predicate Valid()
      reads this
    {
      (forall n :: n in names <==> n in entries) &&
      (forall i, j :: 0 <= i < j < |names| ==> names[i] != names[j])
    }

    function Value(): LayoutValue
      reads this
    {
      LayoutValue(names, entries, options)
    }

    constructor ()
      ensures Valid() && names == [] && entries == map[] && options == Obj([])
    {
      names := [];
      entries := map[];
      options := Obj([]);
    }

    /** `options`: replaces `OPTIONS`. */
    method Options(o: Json)
      requires Valid()
      modifies this
      ensures Valid() && Value() == old(Value()).(options := o)
    {
      options := o;
    }

    /**
     * `new_acquisition`. A name already present fails and changes nothing;
     * otherwise the slot is inserted before the sensor, gap and origin
     * assertions run, so a failed call leaves a partial dict behind.
     */
    method NewAcquisition(name: string, s1: Option<S1Acquisition>, s2: Option<S2Acquisition>,
                          maxGapHours: Json, timeframeOrigin: Json, startHours: Json, endHours: Json)
      returns (r: Outcome)
      requires Valid()
      modifies this
      ensures Valid()
      ensures old(name in entries) ==> r == Fail(AssertionError) && Value() == old(Value())
      ensures !old(name in entries) ==>
                var a := AddedEntry(old(Value()), s1, s2, maxGapHours, timeframeOrigin, startHours, endHours);
                Value() == WithSlot(old(Value()), name, a.entry) && r == a.outcome
      ensures r.Pass? <==> Admissible(old(Value()), name, s1, s2, maxGapHours, timeframeOrigin, startHours, endHours)
      ensures r.Pass? && timeframeOrigin == Bool(true) ==> GetRefName(Value()) == Ok(name)
    {
      if name in entries {
        return Fail(AssertionError);
      }
      ghost var l0 := Value();
      AddedOkIff(l0, name, s1, s2, maxGapHours, timeframeOrigin, startHours, endHours);
      var e;
      r, e := FillEntry(Value(), name, s1, s2, maxGapHours, timeframeOrigin, startHours, endHours);
      names := names + [name];
      entries := entries[name := e];
      if r.Pass? {
        AddedRef(l0, name, s1, s2, maxGapHours, timeframeOrigin, startHours, endHours);
      }
    }
  }
}
