/**
 * The acquisition factory of decloud/acquisitions/acquisition_factory.py:
 * the mapping `json.load` made of a layout file, turned into a series of
 * `new_acquisition` calls (and one `options` call) on a fresh layout.
 * Opening and parsing the file is outside the model; the parsed top-level
 * mapping is the input, its members in file order.
 */
module AcquisitionFactory {
  import opened Wrappers
  import opened JsonData
  import opened SensingLayout
  import PyStr

  const OptionsKey: string := "options"
  const AcquisitionKey: string := "acquisition"
  const OriginKey: string := "timeframe_origin"
  const StartKey: string := "timeframe_start_hours"
  const EndKey: string := "timeframe_end_hours"
  const GapKey: string := "max_s1s2_gap_hours"
  const TypeKey: string := "type"
  const OrbitKey: string := "orbit"
  const MinCloudKey: string := "min_cloud_percent"
  const MaxCloudKey: string := "max_cloud_percent"
  const S1Type: string := "S1"
  const S2Type: string := "S2"

  /** `v[key] if key in v else d`, on a value already known to be a mapping. */
  function Default(v: Json, key: string, d: Json): (r: Json)
    ensures Has(v, key) ==> Get(v, key) == Some(r)
    ensures !Has(v, key) ==> r == d
  {
    if Has(v, key) then Get(v, key).value else d
  }

  /** The acquisition's TypeKey is the string `t`. */
  predicate TypeIs(acq: (string, Json), t: string) {
    Get(acq.1, TypeKey) == Some(Str(t))
  }

  /** The S2 spec of one acquisition: missing cloud percentages are 0. */
  function S2Of(spec: Json): (r: S2Acquisition)
    ensures !Has(spec, MinCloudKey) ==> r.minCloudPercent == Num(0.0)
    ensures !Has(spec, MaxCloudKey) ==> r.maxCloudPercent == Num(0.0)
    ensures Has(spec, MinCloudKey) ==> Get(spec, MinCloudKey) == Some(r.minCloudPercent)
    ensures Has(spec, MaxCloudKey) ==> Get(spec, MaxCloudKey) == Some(r.maxCloudPercent)
  {
    S2Acquisition(Default(spec, MinCloudKey, Num(0.0)), Default(spec, MaxCloudKey, Num(0.0)))
  }

  /** The sensor specs built so far by the inner loop. */
  type Sensors = (Option<S1Acquisition>, Option<S2Acquisition>)

  /**
   * One pass of the inner loop. `OrbitKey in acq` tests the acquisition's
   * name, a string, so an S1 acquisition is either unoriented or fails on
   * indexing that string with OrbitKey.
   */
  function SensorStep(prev: Sensors, acq: (string, Json)): (r: Result<Sensors>)
    ensures !acq.1.Obj? ==> r == Err(TypeError)
    ensures acq.1.Obj? && !HasKey(acq.1.members, TypeKey) ==> r == Err(KeyError)
  {
    var t :- Index(acq.1, TypeKey);
    if t == Str(S1Type) then
      if PyStr.Contains(acq.0, OrbitKey) then Err(TypeError)
      else Ok((Some(S1Acquisition(None)), prev.1))
    else if t == Str(S2Type) then Ok((prev.0, Some(S2Of(acq.1))))
    else Ok(prev)
  }

  /** The sensor specs after the inner loop has run over `acqs`. */
  function SensorsOf(acqs: seq<(string, Json)>): Result<Sensors> {
    if |acqs| == 0 then Ok((None, None))
    else
      var prev :- SensorsOf(acqs[..|acqs| - 1]);
      SensorStep(prev, acqs[|acqs| - 1])
  }

  /** The inner loop fails for good once one of its passes has failed. */
  lemma {:induction false} SensorsErrExtends(acqs: seq<(string, Json)>, k: nat)
    requires k <= |acqs| && SensorsOf(acqs[..k]).Err?
    ensures SensorsOf(acqs) == SensorsOf(acqs[..k])
    decreases |acqs|
  {
    if k < |acqs| {
      var front := acqs[..|acqs| - 1];
      assert front[..k] == acqs[..k];
      SensorsErrExtends(front, k);
    } else {
      assert acqs[..k] == acqs;
    }
  }

  /**
   * The first acquisition whose spec cannot be indexed by "type" decides the
   * exception: TypeError for a spec that is not a mapping, KeyError for a
   * mapping without the key.
   */
  lemma {:induction false} SensorsErrClass(acqs: seq<(string, Json)>, j: nat)
    requires j < |acqs| && SensorsOf(acqs[..j]).Ok?
    ensures !acqs[j].1.Obj? ==> SensorsOf(acqs) == Err(TypeError)
    ensures acqs[j].1.Obj? && !HasKey(acqs[j].1.members, TypeKey) ==> SensorsOf(acqs) == Err(KeyError)
    decreases |acqs|
  {
    var front := acqs[..|acqs| - 1];
    if j + 1 < |acqs| {
      assert front[..j] == acqs[..j] && front[j] == acqs[j];
      SensorsErrClass(front, j);
    } else {
      assert front == acqs[..j];
    }
  }

  /**
   * When several "S2" acquisitions are listed the last one wins; without
   * any, the S2 spec is None.
   */
  lemma {:induction false} SensorsLastS2Wins(acqs: seq<(string, Json)>)
    requires SensorsOf(acqs).Ok?
    ensures SensorsOf(acqs).value.1.None? <==> forall i :: 0 <= i < |acqs| ==> !TypeIs(acqs[i], S2Type)
    ensures forall i :: 0 <= i < |acqs| && TypeIs(acqs[i], S2Type) && LastOfType(acqs, i, S2Type) ==>
              SensorsOf(acqs).value.1 == Some(S2Of(acqs[i].1))
  {
    if |acqs| > 0 {
      var front := acqs[..|acqs| - 1];
      var last := acqs[|acqs| - 1];
      SensorsLastS2Wins(front);
      assert forall i :: 0 <= i < |front| ==> front[i] == acqs[i];
      StepS2(SensorsOf(front).value, last);
      if !TypeIs(last, S2Type) {
        forall i | 0 <= i < |acqs| && TypeIs(acqs[i], S2Type) && LastOfType(acqs, i, S2Type)
          ensures LastOfType(front, i, S2Type)
        {
        }
      }
    }
  }

  /** One pass replaces the S2 spec exactly for an "S2" acquisition. */
  lemma StepS2(prev: Sensors, acq: (string, Json))
    requires SensorStep(prev, acq).Ok?
    ensures SensorStep(prev, acq).value.1 == if TypeIs(acq, S2Type) then Some(S2Of(acq.1)) else prev.1
  {
  }

  /** One pass gives S1 exactly for an "S1" acquisition, and keeps it otherwise. */
  lemma StepS1(prev: Sensors, acq: (string, Json))
    requires SensorStep(prev, acq).Ok?
    ensures SensorStep(prev, acq).value.0 == if TypeIs(acq, S1Type) then Some(S1Acquisition(None)) else prev.0
  {
  }

  /** No acquisition after position `i` has type `t`. */
  predicate LastOfType(acqs: seq<(string, Json)>, i: int, t: string) {
    forall j :: 0 <= j < |acqs| && i < j ==> !TypeIs(acqs[j], t)
  }

  /** S1 is given exactly when some acquisition is "S1", and it is never oriented. */
  lemma {:induction false} SensorsS1Given(acqs: seq<(string, Json)>)
    requires SensorsOf(acqs).Ok?
    ensures SensorsOf(acqs).value.0.Some? <==> exists i :: 0 <= i < |acqs| && TypeIs(acqs[i], S1Type)
    ensures SensorsOf(acqs).value.0.Some? ==> SensorsOf(acqs).value.0.value.ascending.None?
  {
    if |acqs| > 0 {
      var front := acqs[..|acqs| - 1];
      SensorsS1Given(front);
      assert forall i :: 0 <= i < |front| ==> front[i] == acqs[i];
      StepS1(SensorsOf(front).value, acqs[|acqs| - 1]);
    }
  }

  /** An S1 acquisition whose name contains OrbitKey always makes the factory fail. */
  lemma {:induction false} SensorsOrbit(acqs: seq<(string, Json)>)
    requires SensorsOf(acqs).Ok?
    ensures forall i :: 0 <= i < |acqs| ==> Get(acqs[i].1, TypeKey).Some?
    ensures forall i :: 0 <= i < |acqs| && TypeIs(acqs[i], S1Type) ==> !PyStr.Contains(acqs[i].0, OrbitKey)
  {
    if |acqs| > 0 {
      var front := acqs[..|acqs| - 1];
      SensorsOrbit(front);
      assert forall i :: 0 <= i < |front| ==> front[i] == acqs[i];
      assert SensorsOf(acqs) == SensorStep(SensorsOf(front).value, acqs[|acqs| - 1]);
    }
  }

  /**
   * What `for acq in structure[step]["acquisition"]` visits with a working
   * `[acq]` lookup: the keys of a mapping. An empty list or string is
   * visited without a pass; a non-empty string, a non-empty list and any
   * other value raise a TypeError.
   */
  function AcquisitionMembers(a: Json): (r: Result<seq<(string, Json)>>)
    ensures r.Ok? <==> a.Obj? || a == Arr([]) || a == Str("")
    ensures a.Obj? ==> r == Ok(a.members)
  {
    match a
    case Obj(members) => Ok(members)
    case Arr(items) => if |items| == 0 then Ok([]) else Err(TypeError)
    case Str(s) => if |s| == 0 then Ok([]) else Err(TypeError)
    case _ => Err(TypeError)
  }

  /** The arguments the factory passes to `new_acquisition` for one step. */
  datatype StepArgs = StepArgs(
    s1: Option<S1Acquisition>,
    s2: Option<S2Acquisition>,
    maxGapHours: Json,
    timeframeOrigin: Json,
    startHours: Json,
    endHours: Json)

  /** The timeframe keys a step has: both hours without an origin key, neither with one. */
  predicate TimeframeKeysAccepted(v: Json) {
    if !Has(v, OriginKey) then Has(v, StartKey) && Has(v, EndKey)
    else !Has(v, StartKey) && !Has(v, EndKey)
  }

  /** The sensor specs, the timeframe assertions and the defaults of one (non-options) step `v`. */
  function ArgsOf(v: Json): (r: Result<StepArgs>)
    ensures !v.Obj? ==> r == Err(TypeError)
    ensures v.Obj? && !Has(v, AcquisitionKey) ==> r == Err(KeyError)
  {
    var acquisition :- Index(v, AcquisitionKey);
    var acqs :- AcquisitionMembers(acquisition);
    var sensors :- SensorsOf(acqs);
    if !TimeframeKeysAccepted(v) then Err(AssertionError)
    else
      Ok(StepArgs(sensors.0, sensors.1, Default(v, GapKey, Null), Default(v, OriginKey, Bool(false)),
                  Default(v, StartKey, Num(0.0)), Default(v, EndKey, Num(0.0))))
  }

  /**
   * A step's arguments exist exactly when its acquisitions can be read and its
   * timeframe keys are as required. A step without an origin key passes its
   * own hours and origin False; a step with one passes zero hours; a missing
   * gap is None.
   */
  lemma ArgsOfTimeframe(v: Json)
    ensures ArgsOf(v).Ok? <==>
              Get(v, AcquisitionKey).Some? && AcquisitionMembers(Get(v, AcquisitionKey).value).Ok? &&
              SensorsOf(AcquisitionMembers(Get(v, AcquisitionKey).value).value).Ok? &&
              TimeframeKeysAccepted(v)
    ensures ArgsOf(v).Ok? && !Has(v, OriginKey) ==>
              ArgsOf(v).value.timeframeOrigin == Bool(false) &&
              Some(ArgsOf(v).value.startHours) == Get(v, StartKey) &&
              Some(ArgsOf(v).value.endHours) == Get(v, EndKey)
    ensures ArgsOf(v).Ok? && Has(v, OriginKey) ==>
              Some(ArgsOf(v).value.timeframeOrigin) == Get(v, OriginKey) &&
              ArgsOf(v).value.startHours == Num(0.0) && ArgsOf(v).value.endHours == Num(0.0)
    ensures ArgsOf(v).Ok? && !Has(v, GapKey) ==> ArgsOf(v).value.maxGapHours == Null
  {
  }

  /** The top-level step `step` run on the layout `l`: `options`, or one `new_acquisition`. */
  function StepOf(l: LayoutValue, step: (string, Json)): Result<LayoutValue> {
    if step.0 == OptionsKey then Ok(l.(options := step.1))
    else
      var a :- ArgsOf(step.1);
      if step.0 in l.entries then Err(AssertionError)
      else
        var added := AddedEntry(l, a.s1, a.s2, a.maxGapHours, a.timeframeOrigin, a.startHours, a.endHours);
        if added.ok then Ok(WithSlot(l, step.0, added.entry)) else Err(added.outcome.msg)
  }

  /** The layout `get_acquisition` has built after the given top-level steps. */
  function Build(steps: seq<(string, Json)>): Result<LayoutValue> {
    if |steps| == 0 then Ok(LayoutValue([], map[], Obj([])))
    else
      var l :- Build(steps[..|steps| - 1]);
      StepOf(l, steps[|steps| - 1])
  }

  /** Once a step has raised, `get_acquisition` raises. */
  lemma {:induction false} BuildErrExtends(steps: seq<(string, Json)>, k: nat)
    requires k <= |steps| && Build(steps[..k]).Err?
    ensures Build(steps).Err? && Build(steps).msg == Build(steps[..k]).msg
    decreases |steps|
  {
    if k < |steps| {
      var front := steps[..|steps| - 1];
      assert front[..k] == steps[..k];
      BuildErrExtends(front, k);
    } else {
      assert steps[..k] == steps;
    }
  }

  /** A step whose arguments cannot be read raises their exception. */
  lemma StepOfArgsErr(l: LayoutValue, step: (string, Json))
    requires step.0 != OptionsKey && ArgsOf(step.1).Err?
    ensures StepOf(l, step) == Err(ArgsOf(step.1).msg)
  {
  }

  /** A step whose arguments cannot be read raises their exception, once the steps before it have worked. */
  lemma {:induction false} BuildArgsErr(steps: seq<(string, Json)>, k: nat)
    requires k < |steps| && Build(steps[..k]).Ok? && steps[k].0 != OptionsKey
    requires ArgsOf(steps[k].1).Err?
    ensures Build(steps) == Err(ArgsOf(steps[k].1).msg)
    decreases |steps|
  {
    var front := steps[..|steps| - 1];
    if k + 1 < |steps| {
      assert front[..k] == steps[..k] && front[k] == steps[k];
      BuildArgsErr(front, k);
    } else {
      assert front == steps[..k];
      StepOfArgsErr(Build(front).value, steps[k]);
    }
  }

  /**
   * The exception class of a step that cannot be read, once the steps before
   * it have worked: TypeError for a step value that is not a mapping or an
   * acquisition spec that is not one, KeyError for a missing "acquisition"
   * or "type" key.
   */
  lemma BuildErrClass(steps: seq<(string, Json)>, k: nat)
    requires k < |steps| && Build(steps[..k]).Ok? && steps[k].0 != OptionsKey
    ensures !steps[k].1.Obj? ==> Build(steps) == Err(TypeError)
    ensures steps[k].1.Obj? && !Has(steps[k].1, AcquisitionKey) ==> Build(steps) == Err(KeyError)
    ensures forall members: seq<(string, Json)>, j: int ::
              Get(steps[k].1, AcquisitionKey) == Some(Obj(members)) && 0 <= j < |members| &&
              SensorsOf(members[..j]).Ok? ==>
                (!members[j].1.Obj? ==> Build(steps) == Err(TypeError)) &&
                (members[j].1.Obj? && !HasKey(members[j].1.members, TypeKey) ==> Build(steps) == Err(KeyError))
  {
    var v := steps[k].1;
    if ArgsOf(v).Err? {
      BuildArgsErr(steps, k);
    }
    forall members: seq<(string, Json)>, j: int | Get(v, AcquisitionKey) == Some(Obj(members)) && 0 <= j < |members| &&
                                                  SensorsOf(members[..j]).Ok?
      ensures !members[j].1.Obj? ==> Build(steps) == Err(TypeError)
      ensures members[j].1.Obj? && !HasKey(members[j].1.members, TypeKey) ==> Build(steps) == Err(KeyError)
    {
      SensorsErrClass(members, j);
      assert SensorsOf(members).Err? ==> ArgsOf(v) == Err(SensorsOf(members).msg);
    }
  }

  /** The names of the non-options steps, in file order. */
  function SlotNames(steps: seq<(string, Json)>): (r: seq<string>)
    ensures OptionsKey !in r
    ensures forall n :: n in r <==> n != OptionsKey && exists i :: 0 <= i < |steps| && steps[i].0 == n
  {
    if |steps| == 0 then []
    else
      var front := steps[..|steps| - 1];
      var last := steps[|steps| - 1];
      var r := SlotNames(front) + (if last.0 == OptionsKey then [] else [last.0]);
      assert forall i :: 0 <= i < |front| ==> front[i] == steps[i];
      r
  }

  /** A slot as a successful `new_acquisition` leaves it. */
  predicate SlotComplete(e: Entry) {
    SensorsGiven(e.s1, e.s2) && e.maxGap.Some? && (e.maxGap.value.Some? <==> e.s1.Some? && e.s2.Some?) &&
    e.begin.Some? && e.end.Some? && e.begin.value <= e.end.value
  }

  /**
   * A layout built by the factory has a slot per non-"options" step, in file
   * order, so "options" never becomes a slot; and every slot is complete.
   */
  lemma {:induction false} BuildSlots(steps: seq<(string, Json)>)
    requires Build(steps).Ok?
    ensures Build(steps).value.names == SlotNames(steps)
    ensures forall n :: n in Build(steps).value.entries <==> n in Build(steps).value.names
    ensures forall n :: n in Build(steps).value.entries ==> SlotComplete(Build(steps).value.entries[n])
  {
    if |steps| > 0 {
      var front := steps[..|steps| - 1];
      var last := steps[|steps| - 1];
      BuildSlots(front);
      if last.0 != OptionsKey {
        var l := Build(front).value;
        var a := ArgsOf(last.1).value;
        AddedStored(l, a.s1, a.s2, a.maxGapHours, a.timeframeOrigin, a.startHours, a.endHours);
        AddedPartial(l, a.s1, a.s2, a.maxGapHours, a.timeframeOrigin, a.startHours, a.endHours);
      }
    }
  }

  /**
   * A layout built by the factory passes `summarize` exactly when none of its
   * slots has S1 without S2: such a slot stores the gap None, which the
   * summary cannot turn into hours.
   */
  lemma BuildSummarizes(steps: seq<(string, Json)>)
    requires Build(steps).Ok?
    ensures Summarize(Build(steps).value).Pass? <==>
              forall n :: n in Build(steps).value.entries ==> !S1Only(Build(steps).value.entries[n])
  {
    BuildSlots(steps);
    var l := Build(steps).value;
    assert forall n :: n in l.names ==> n in l.entries && SlotComplete(l.entries[n]);
  }

  /** The slot has S1 and no S2. */
  predicate S1Only(e: Entry) {
    e.s1.Some? && e.s2.None?
  }

  /** The value of the last "options" step, or the empty mapping without one. */
  function LastOptionsValue(steps: seq<(string, Json)>): Json {
    if |steps| == 0 then Obj([])
    else if steps[|steps| - 1].0 == OptionsKey then steps[|steps| - 1].1
    else LastOptionsValue(steps[..|steps| - 1])
  }

  /** The options of a built layout come from the last "options" step. */
  lemma {:induction false} BuildOptions(steps: seq<(string, Json)>)
    requires Build(steps).Ok?
    ensures Build(steps).value.options == LastOptionsValue(steps)
  {
    if |steps| > 0 {
      BuildOptions(steps[..|steps| - 1]);
    }
  }

  /** `LastOptionsValue` is the value of the "options" step no later step overrides. */
  lemma {:induction false} LastOptionsValueAt(steps: seq<(string, Json)>)
    ensures (forall i :: 0 <= i < |steps| ==> steps[i].0 != OptionsKey) ==> LastOptionsValue(steps) == Obj([])
    ensures forall i :: 0 <= i < |steps| && steps[i].0 == OptionsKey && LastOptions(steps, i) ==>
              LastOptionsValue(steps) == steps[i].1
  {
    if |steps| > 0 {
      var front := steps[..|steps| - 1];
      LastOptionsValueAt(front);
      assert forall i :: 0 <= i < |front| ==> front[i] == steps[i];
    }
  }

  /** No step after position `i` is named "options". */
  predicate LastOptions(steps: seq<(string, Json)>, i: int) {
    forall j :: 0 <= j < |steps| && i < j ==> steps[j].0 != OptionsKey
  }

  /**
   * A step that has a "timeframe_origin" key, whatever its value, is stored
   * with the window [0, 0] and so answers `is_ref` with True.
   */
  lemma {:induction false} OriginKeyMakesRef(steps: seq<(string, Json)>)
    requires |steps| > 0 && Build(steps).Ok?
    requires steps[|steps| - 1].0 != OptionsKey && Has(steps[|steps| - 1].1, OriginKey)
    ensures IsRef(Build(steps).value, steps[|steps| - 1].0) == Ok(true)
  {
    var front := steps[..|steps| - 1];
    var last := steps[|steps| - 1];
    var l := Build(front).value;
    var a := ArgsOf(last.1).value;
    BuildSlots(front);
    ArgsOfTimeframe(last.1);
    AddedRef(l, last.0, a.s1, a.s2, a.maxGapHours, a.timeframeOrigin, a.startHours, a.endHours);
  }

  /** The inner loop and the checks of one step: the arguments of its `new_acquisition` call. */
  method ReadStep(v: Json) returns (r: Result<StepArgs>)
    ensures r == ArgsOf(v)
  {
    var acquisition :- Index(v, AcquisitionKey);
    var acqs :- AcquisitionMembers(acquisition);
    var s1: Option<S1Acquisition> := None;
    var s2: Option<S2Acquisition> := None;
    var i := 0;
    while i < |acqs|
      invariant 0 <= i <= |acqs|
      invariant SensorsOf(acqs[..i]) == Ok((s1, s2))
    {
      var acq := acqs[i].0;
      var spec := acqs[i].1;
      assert acqs[..i + 1][..i] == acqs[..i];
      var t := Index(spec, TypeKey);
      if t.Err? {
        SensorsErrExtends(acqs, i + 1);
        return Err(t.msg);
      }
      if t.value == Str(S1Type) {
        if PyStr.Contains(acq, OrbitKey) {
          SensorsErrExtends(acqs, i + 1);
          return Err(TypeError);
        }
        s1 := Some(S1Acquisition(None));
      } else if t.value == Str(S2Type) {
        s2 := Some(S2Of(spec));
      }
      i := i + 1;
    }
    assert acqs[..i] == acqs;
    if !Has(v, OriginKey) {
      if !(Has(v, StartKey) && Has(v, EndKey)) {
        return Err(AssertionError);
      }
    } else if Has(v, StartKey) || Has(v, EndKey) {
      return Err(AssertionError);
    }
    r := Ok(StepArgs(s1, s2, Default(v, GapKey, Null), Default(v, OriginKey, Bool(false)),
                     Default(v, StartKey, Num(0.0)), Default(v, EndKey, Num(0.0))));
  }

  /**
   * `get_acquisition` on the parsed layout file: the layout built step by
   * step, or the exception the first failing step raises.
   */
  method GetAcquisition(structure: seq<(string, Json)>) returns (r: Result<AcquisitionsLayout>)
    ensures r.Ok? <==> Build(structure).Ok?
    ensures r.Err? ==> r.msg == Build(structure).msg
    ensures r.Ok? ==> fresh(r.value) && r.value.Valid() && r.value.Value() == Build(structure).value
  {
    var acquisition := new AcquisitionsLayout();
    var i := 0;
    while i < |structure|
      invariant 0 <= i <= |structure|
      invariant fresh(acquisition) && acquisition.Valid()
      invariant Build(structure[..i]) == Ok(acquisition.Value())
    {
      var step := structure[i].0;
      var v := structure[i].1;
      assert structure[..i + 1][..i] == structure[..i];
      if step == OptionsKey {
        acquisition.Options(v);
      } else {
        var args := ReadStep(v);
        if args.Err? {
          BuildErrExtends(structure, i + 1);
          return Err(args.msg);
        }
        var a := args.value;
        var res := acquisition.NewAcquisition(step, a.s1, a.s2, a.maxGapHours, a.timeframeOrigin, a.startHours, a.endHours);
        if res.Fail? {
          BuildErrExtends(structure, i + 1);
          return Err(res.msg);
        }
      }
      i := i + 1;
    }
    assert structure[..i] == structure;
    return Ok(acquisition);
  }
}
