/** The managed archive-creation handle: its lifecycle flag, its connection to an
    in-archive, its feature property table, and the native entry points that
    act on the handle's two native fields (the session and the engine archive). */
module OutArchives {
  import opened Values
  import opened NativeCalls

  datatype Option<T> = None | Some(value: T)

  /** A connected in-archive, reduced to what the handle consults: whether it has
      been closed. */
  class InArchive {
    var closed: bool

    constructor (closed: bool)
      ensures this.closed == closed
    {
      this.closed := closed;
    }
  }

  /** The result codes the engine returns to one update operation: from the
      capability query, from `SetProperties` and from `UpdateItems`. */
  datatype EngineResults = EngineResults(queryInterface: HResult, setProperties: HResult, updateItems: HResult)

  /** The entries the feature setters can put in the property table: "HE" a
      boolean, "X" a non-negative level, "MT" a positive count or `true`, "S" a
      non-empty block spec or `false`. */
  predicate FeatureEntry(key: string, value: JValue): (ok: bool)
    ensures ok ==> key in {"HE", "X", "MT", "S"} && !value.JOther?
  {
    || (key == "HE" && value.JBoolean?)
    || (key == "X" && value.JInteger? && value.i >= 0)
    || (key == "MT" && ((value.JInteger? && value.i > 0) || value == JBoolean(true)))
    || (key == "S" && ((value.JString? && value.s != "") || value == JBoolean(false)))
  }

  ghost predicate WellFormedFeatures(m: map<string, JValue>): (ok: bool)
    ensures ok ==> m.Keys <= {"HE", "X", "MT", "S"}
  {
    forall key :: key in m ==> FeatureEntry(key, m[key])
  }

  /** Every entry the feature setters produce converts without the lossy fallback
      and reads back unchanged; integer entries reach the engine as the same number. */
  lemma {:induction false} FeaturesConvertLosslessly(m: map<string, JValue>)
    requires WellFormedFeatures(m)
    ensures forall key :: key in m ==> ToManaged(ToNative(m[key])) == m[key]
    ensures forall key :: key in m && m[key].JInteger? ==> ToNative(m[key]).u as int == m[key].i as int
  {
    forall key | key in m
      ensures ToManaged(ToNative(m[key])) == m[key]
    {
      assert FeatureEntry(key, m[key]);
      ManagedRoundTrip(m[key]);
    }
    forall key | key in m && m[key].JInteger?
      ensures ToNative(m[key]).u as int == m[key].i as int
    {
      assert FeatureEntry(key, m[key]);
    }
  }

  /** `names` and `values` list the map's entries in some order: same length as
      the map, names[i] paired with values[i], every key exactly once. */
  ghost predicate IsFlattening(names: seq<string>, values: seq<JValue>, m: map<string, JValue>)
  {
    && |names| == |values| == |m|
    && (forall i, j :: 0 <= i < j < |names| ==> names[i] != names[j])
    && (forall i :: 0 <= i < |names| ==> names[i] in m && values[i] == m[names[i]])
    && (forall key :: key in m ==> key in names)
  }

  /** The entry-set loop of `applyFeatures`: fills a name array and a value array
      from the property map. The map's iteration order is unspecified, so each
      step takes any key not yet visited. */
  method Flatten(m: map<string, JValue>) returns (names: array<string>, values: array<JValue>)
    ensures IsFlattening(names[..], values[..], m)
  {
    var size := |m|;
    names := new string[size];
    values := new JValue[size];
    var remaining := m.Keys;
    var i := 0;
    ghost var seen: seq<string> := [];
    while remaining != {}
      invariant remaining <= m.Keys
      invariant 0 <= i && i + |remaining| == size && |seen| == i
      invariant names[..i] == seen
      invariant forall j :: 0 <= j < i ==> seen[j] in m && seen[j] !in remaining && values[j] == m[seen[j]]
      invariant forall j, l :: 0 <= j < l < i ==> seen[j] != seen[l]
      invariant forall key :: key in m && key !in remaining ==> key in seen
      decreases |remaining|
    {
      var key :| key in remaining;
      names[i] := key;
      values[i] := m[key];
      seen := seen + [key];
      remaining := remaining - {key};
      i := i + 1;
    }
    assert names[..] == seen;
  }

  /** The conversion loop of the native property setter: the name list, the
      converted value array, and the string pool (`needDels`) that owns every
      name and every string value for as long as the engine call needs them.
      Names beyond the number of values are not read. */
  method BuildPropValues(jNames: array<string>, jValues: array<JValue>)
    returns (names: seq<string>, propValues: array<PropVariant>, needDels: seq<string>)
    requires jValues.Length <= jNames.Length
    ensures names == jNames[..jValues.Length]
    ensures propValues.Length == jValues.Length
    ensures forall i :: 0 <= i < jValues.Length ==> propValues[i] == ToNative(jValues[i])
    ensures needDels == Buffers(names, jValues[..])
  {
    var size := jValues.Length;
    propValues := new PropVariant[size];
    names, needDels := [], [];
    for i := 0 to size
      invariant names == jNames[..i]
      invariant forall j :: 0 <= j < i ==> propValues[j] == ToNative(jValues[j])
      invariant needDels == Buffers(names, jValues[..i])
    {
      var name := jNames[i];
      var value := jValues[i];
      needDels := needDels + [name];
      names := names + [name];
      if value.JString? {
        needDels := needDels + [value.s];
      }
      propValues[i] := ToNative(value);
      assert jNames[..i + 1] == jNames[..i] + [name];
      assert jValues[..i + 1][..i] == jValues[..i];
    }
    assert jValues[..size] == jValues[..];
  }

  /** What `applyFeatures` does natively for a given property map: nothing for an
      empty map, otherwise one run of the native property setter. */
  function FeaturesTrace(m: map<string, JValue>, names: seq<string>, values: seq<JValue>, results: EngineResults): (t: seq<NativeAction>)
    requires |names| == |values|
    ensures t == [] <==> m == map[]
    ensures m != map[] ==> t[0] == QuerySetProperties
  {
    if m == map[] then [] else SetPropertiesTrace(names, values, results.queryInterface, results.setProperties)
  }

  /** The whole of an `updateItems`/`createArchive` call, given the outcome of the
      handle's open check, what applying the features does natively, and what the
      native update does: the native actions in order and the outcome. */
  function UpdateRun(openCheck: Outcome, features: seq<NativeAction>, update: seq<NativeAction>): (run: (seq<NativeAction>, Outcome))
    ensures run.1.Ok? ==> openCheck.Ok? && OutcomeOf(features).Ok? && run.0 == features + update
    ensures |run.0| <= |features| + |update|
  {
    if !openCheck.Ok? then ([], openCheck)
    else if !OutcomeOf(features).Ok? then (features, OutcomeOf(features))
    else (features + update, OutcomeOf(update))
  }

  /** A handle that fails its open check makes no native call and raises the
      check's exception; an open handle never aborts. */
  lemma UpdateRunOnClosedHandle(openCheck: Outcome, m: map<string, JValue>, names: seq<string>, values: seq<JValue>,
                                traceOn: bool, attached: bool, formatIndex: nat, numberOfItems: int32,
                                results: EngineResults)
    requires |names| == |values|
    requires !openCheck.Aborted?
    ensures var run := UpdateRun(openCheck, FeaturesTrace(m, names, values, results), UpdateItemsTrace(traceOn, attached, formatIndex, numberOfItems, results.updateItems));
      && (!openCheck.Ok? ==> run == ([], openCheck))
      && !run.1.Aborted?
  {
  }

  /** On an open handle at most one error is reported, and the outcome is an
      exception exactly when one was. */
  lemma UpdateRunReportsOnce(m: map<string, JValue>, names: seq<string>, values: seq<JValue>,
                             traceOn: bool, attached: bool, formatIndex: nat, numberOfItems: int32,
                             results: EngineResults)
    requires |names| == |values|
    ensures var run := UpdateRun(Ok, FeaturesTrace(m, names, values, results), UpdateItemsTrace(traceOn, attached, formatIndex, numberOfItems, results.updateItems));
      && ErrorCount(run.0) <= 1
      && (run.1.Ok? <==> ErrorCount(run.0) == 0)
  {
    var f := FeaturesTrace(m, names, values, results);
    var u := UpdateItemsTrace(traceOn, attached, formatIndex, numberOfItems, results.updateItems);
    UpdateItemsReportsIffFailed(traceOn, attached, formatIndex, numberOfItems, results.updateItems);
    if m != map[] {
      if results.queryInterface != S_OK {
        QueryFailureSkipsSetter(names, values, results.queryInterface, results.setProperties);
      } else {
        SetterReportsIffFailed(names, values, results.queryInterface, results.setProperties);
      }
    }
    OutcomeIsReportedError(f);
    OutcomeIsReportedError(u);
    if OutcomeOf(f).Ok? {
      ErrorCountAppend(f, u);
    }
  }

  /** On an open handle the properties are applied before `UpdateItems` runs:
      every `SetProperties` call comes before the `UpdateItems` call, which happens
      only when applying the properties succeeded and is then followed, at the
      very end, by `freeOutItem`. */
  lemma {:induction false} FeaturesApplyBeforeUpdate(m: map<string, JValue>, names: seq<string>, values: seq<JValue>,
                                                     traceOn: bool, attached: bool, formatIndex: nat, numberOfItems: int32,
                                                     results: EngineResults)
    requires |names| == |values|
    ensures var run := UpdateRun(Ok, FeaturesTrace(m, names, values, results), UpdateItemsTrace(traceOn, attached, formatIndex, numberOfItems, results.updateItems));
      var f := FeaturesTrace(m, names, values, results);
      && (m != map[] ==> run.0[0] == QuerySetProperties)
      && (forall i, j :: 0 <= i < |run.0| && 0 <= j < |run.0| && run.0[i].SetProperties? && run.0[j].UpdateItems? ==> i < j)
      && (OutcomeOf(f).Ok? ==>
            run.0[|f| + (if traceOn then 1 else 0)] == UpdateItems(numberOfItems) && run.0[|run.0| - 1] == FreeOutItem)
      && (!OutcomeOf(f).Ok? ==> forall j :: 0 <= j < |run.0| ==> !run.0[j].UpdateItems? && !run.0[j].FreeOutItem?)
  {
    var f := FeaturesTrace(m, names, values, results);
    var u := UpdateItemsTrace(traceOn, attached, formatIndex, numberOfItems, results.updateItems);
    var run := UpdateRun(Ok, FeaturesTrace(m, names, values, results), UpdateItemsTrace(traceOn, attached, formatIndex, numberOfItems, results.updateItems));
    UpdateItemsFreesOnce(traceOn, attached, formatIndex, numberOfItems, results.updateItems);
    if m != map[] {
      SetPropertiesTouchesNoItems(names, values, results.queryInterface, results.setProperties);
    }
    assert forall i :: 0 <= i < |f| ==> !f[i].UpdateItems? && !f[i].FreeOutItem?;
    if OutcomeOf(f).Ok? {
      assert run.0 == f + u;
      assert forall i :: |f| <= i < |run.0| ==> run.0[i] == u[i - |f|];
      assert forall j :: 0 <= j < |f| ==> run.0[j] == f[j];
      assert run.0[|f| + (if traceOn then 1 else 0)] == u[if traceOn then 1 else 0];
      assert run.0[|run.0| - 1] == u[|u| - 1];
    } else {
      assert run.0 == f;
    }
  }

  class OutArchive {
    /** The native session pointer; 0 once the handle's native side is closed. */
    var jbindingSession: int
    /** The native engine archive pointer; 0 once released. */
    var sevenZipArchiveInstance: int
    /** The in-archive this handle is connected to, or null for a fresh archive. */
    var inArchive: InArchive?
    /** The archive format, by its index in the engine's format table. */
    var archiveFormat: nat
    var properties: map<string, JValue>
    var trace: bool
    var closed: bool
    /** The native actions performed on behalf of this handle so far. */
    var calls: seq<NativeAction>

    ghost predicate Valid()
      reads this`closed, this`jbindingSession, this`sevenZipArchiveInstance, this`properties
    {
      && (!closed ==> jbindingSession != 0 && sevenZipArchiveInstance != 0)
      && WellFormedFeatures(properties)
    }

    /** A handle as the native open leaves it: both native fields set, open,
        not connected, no features. */
    constructor (session: int, archive: int, formatIndex: nat)
      requires session != 0 && archive != 0
      ensures Valid() && !closed && inArchive == null && properties == map[] && !trace && calls == []
      ensures jbindingSession == session && sevenZipArchiveInstance == archive && archiveFormat == formatIndex
    {
      jbindingSession := session;
      sevenZipArchiveInstance := archive;
      inArchive := null;
      archiveFormat := formatIndex;
      properties := map[];
      trace := false;
      closed := false;
      calls := [];
    }

    method SetInArchive(a: InArchive?)
      requires Valid()
      modifies this`inArchive
      ensures Valid() && inArchive == a
    {
      inArchive := a;
    }

    method SetTrace(on: bool)
      requires Valid()
      modifies this`trace
      ensures Valid() && trace == on
    {
      trace := on;
    }

    method FeatureSetHeaderEncryption(enabled: bool)
      requires Valid()
      modifies this`properties
      ensures Valid()
      ensures properties == old(properties)["HE" := JBoolean(enabled)]
    {
      properties := properties["HE" := JBoolean(enabled)];
    }

    method FeatureSetLevel(compressionLevel: int32)
      requires Valid()
      modifies this`properties
      ensures Valid()
      ensures compressionLevel < 0 ==> properties == old(properties)
      ensures compressionLevel >= 0 ==> properties == old(properties)["X" := JInteger(compressionLevel)]
    {
      if compressionLevel >= 0 {
        properties := properties["X" := JInteger(compressionLevel)];
      }
    }

    method FeatureSetThreadCount(threadCount: int32)
      requires Valid()
      modifies this`properties
      ensures Valid()
      ensures properties == old(properties)["MT" := if threadCount > 0 then JInteger(threadCount) else JBoolean(true)]
    {
      properties := properties["MT" := if threadCount > 0 then JInteger(threadCount) else JBoolean(true)];
    }

    /** `None` stands for a null spec. */
    method FeatureSetSolidSpec(solidBlockSpec: Option<string>)
      requires Valid()
      modifies this`properties
      ensures Valid()
      ensures solidBlockSpec.Some? && solidBlockSpec.value != "" ==>
        properties == old(properties)["S" := JString(solidBlockSpec.value)]
      ensures solidBlockSpec.None? || solidBlockSpec.value == "" ==>
        properties == old(properties)["S" := JBoolean(false)]
    {
      var value := if solidBlockSpec.Some? && solidBlockSpec.value != "" then JString(solidBlockSpec.value) else JBoolean(false);
      properties := properties["S" := value];
    }

    /** The open check every operation starts with: a closed handle raises
        "OutArchive closed"; a connected handle also defers to its in-archive. */
    function EnsureOpened(): (r: Outcome)
      reads this`closed, this`inArchive, inArchive
      ensures r.Ok? || r.Thrown?
      ensures closed <==> r == Thrown(OutArchiveClosed)
      ensures r.Ok? <==> !closed && (inArchive == null || !inArchive.closed)
    {
      if closed then Thrown(OutArchiveClosed)
      else if inArchive != null && inArchive.closed then Thrown(InArchiveClosed)
      else Ok
    }

    /** The native property setter. A zero session or archive field is fatal. */
    method NativeSetProperties(jNames: array<string>, jValues: array<JValue>, queryResult: HResult, setResult: HResult)
      returns (r: Outcome)
      requires jValues.Length <= jNames.Length
      modifies this`calls
      ensures jbindingSession == 0 ==> r == Aborted(NullSession) && calls == old(calls)
      ensures jbindingSession != 0 && sevenZipArchiveInstance == 0 ==> r == Aborted(NullArchive) && calls == old(calls)
      ensures jbindingSession != 0 && sevenZipArchiveInstance != 0 ==>
        var t := SetPropertiesTrace(jNames[..jValues.Length], jValues[..], queryResult, setResult);
        calls == old(calls) + t && r == OutcomeOf(t)
    {
      if jbindingSession == 0 {
        return Aborted(NullSession);
      }
      if sevenZipArchiveInstance == 0 {
        return Aborted(NullArchive);
      }
      var acts := [QuerySetProperties];
      if queryResult != S_OK {
        acts := acts + [ReportError(queryResult, GettingSetPropertiesInterface)];
        calls := calls + acts;
        QueryFailureSkipsSetter(jNames[..jValues.Length], jValues[..], queryResult, setResult);
        return Thrown(EngineFailure(queryResult, GettingSetPropertiesInterface));
      }
      var names, propValues, needDels := BuildPropValues(jNames, jValues);
      assert propValues[..] == ConvertAll(jValues[..]);
      acts := acts + [SetProperties(names, propValues[..], |names|), DeletePropValues];
      r := Ok;
      if setResult != 0 {
        acts := acts + [ReportError(setResult, SettingProperties)];
        r := Thrown(EngineFailure(setResult, SettingProperties));
      }
      acts := acts + [FreeBuffers(needDels)];
      calls := calls + acts;
      SetPropertiesSteps(names, jValues[..], queryResult, setResult, propValues[..], needDels);
      SetterReportsIffFailed(names, jValues[..], queryResult, setResult);
    }

    /** The native update entry point. A zero session or archive field is fatal. */
    method NativeUpdateItems(numberOfItems: int32, updateResult: HResult) returns (r: Outcome)
      modifies this`calls
      ensures jbindingSession == 0 ==> r == Aborted(NullSession) && calls == old(calls)
      ensures jbindingSession != 0 && sevenZipArchiveInstance == 0 ==> r == Aborted(NullArchive) && calls == old(calls)
      ensures jbindingSession != 0 && sevenZipArchiveInstance != 0 ==>
        var t := UpdateItemsTrace(trace, inArchive != null, archiveFormat, numberOfItems, updateResult);
        calls == old(calls) + t && r == OutcomeOf(t)
    {
      if jbindingSession == 0 {
        return Aborted(NullSession);
      }
      if sevenZipArchiveInstance == 0 {
        return Aborted(NullArchive);
      }
      var acts := [];
      if trace {
        acts := acts + [UserTrace(inArchive != null, numberOfItems)];
      }
      acts := acts + [NativeCalls.UpdateItems(numberOfItems)];
      r := Ok;
      if updateResult != 0 {
        acts := acts + [ReportError(updateResult, CreatingArchive(archiveFormat, numberOfItems))];
        r := Thrown(EngineFailure(updateResult, CreatingArchive(archiveFormat, numberOfItems)));
      }
      acts := acts + [FreeOutItem];
      calls := calls + acts;
      UpdateItemsReportsIffFailed(trace, inArchive != null, archiveFormat, numberOfItems, updateResult);
    }

    /** The native close: release the engine archive, clear both native fields,
        then delete the session. A zero session or archive field is fatal. */
    method NativeClose() returns (r: Outcome)
      modifies this`calls, this`jbindingSession, this`sevenZipArchiveInstance
      ensures old(jbindingSession) == 0 || old(sevenZipArchiveInstance) == 0 ==>
        && r == Aborted(if old(jbindingSession) == 0 then NullSession else NullArchive)
        && calls == old(calls)
        && jbindingSession == old(jbindingSession) && sevenZipArchiveInstance == old(sevenZipArchiveInstance)
      ensures old(jbindingSession) != 0 && old(sevenZipArchiveInstance) != 0 ==>
        && r == Ok
        && calls == old(calls) + CloseTrace()
        && jbindingSession == 0 && sevenZipArchiveInstance == 0
    {
      if jbindingSession == 0 {
        return Aborted(NullSession);
      }
      if sevenZipArchiveInstance == 0 {
        return Aborted(NullArchive);
      }
      calls := calls + [ReleaseArchive];
      sevenZipArchiveInstance := 0;
      calls := calls + [ClearArchiveInstance];
      jbindingSession := 0;
      calls := calls + [ClearSession];
      calls := calls + [DeleteSession];
      r := Ok;
    }

    /** Closing is idempotent: only the first call marks the handle closed, and it
        closes the native side only when no in-archive is connected. */
    method Close()
      requires Valid()
      modifies this`closed, this`calls, this`jbindingSession, this`sevenZipArchiveInstance
      ensures Valid() && closed
      ensures old(closed) || inArchive != null ==>
        && calls == old(calls)
        && jbindingSession == old(jbindingSession) && sevenZipArchiveInstance == old(sevenZipArchiveInstance)
      ensures !old(closed) && inArchive == null ==>
        && calls == old(calls) + CloseTrace()
        && jbindingSession == 0 && sevenZipArchiveInstance == 0
    {
      if closed {
        return;
      }
      closed := true;
      if inArchive != null {
        return;
      }
      var r := NativeClose();
      assert r == Ok;
    }

    /** Pushes the property table to the engine: nothing once the handle fails
        its open check or when the table is empty, otherwise one native property
        setter call with the table's entries in some order. The ghost results
        are that order. */
    method ApplyFeatures(results: EngineResults) returns (r: Outcome, ghost names: seq<string>, ghost values: seq<JValue>)
      requires Valid()
      modifies this`calls
      ensures Valid()
      ensures |names| == |values|
      ensures !old(EnsureOpened()).Ok? ==> r == old(EnsureOpened()) && calls == old(calls)
      ensures old(EnsureOpened()).Ok? ==>
        && (properties != map[] ==> IsFlattening(names, values, properties))
        && calls == old(calls) + FeaturesTrace(properties, names, values, results)
        && r == OutcomeOf(FeaturesTrace(properties, names, values, results))
    {
      names, values := [], [];
      r := EnsureOpened();
      if !r.Ok? {
        return;
      }
      if properties == map[] {
        return;
      }
      var jNames, jValues := Flatten(properties);
      names, values := jNames[..], jValues[..];
      assert jNames[..jValues.Length] == names;
      r := NativeSetProperties(jNames, jValues, results.queryInterface, results.setProperties);
      assert FeaturesTrace(properties, names, values, results)
        == SetPropertiesTrace(names, values, results.queryInterface, results.setProperties);
    }

    method DoUpdateItems(numberOfItems: int32, results: EngineResults)
      returns (r: Outcome, ghost names: seq<string>, ghost values: seq<JValue>)
      requires Valid()
      modifies this`calls
      ensures Valid()
      ensures |names| == |values|
      ensures old(EnsureOpened()).Ok? && properties != map[] ==> IsFlattening(names, values, properties)
      ensures var run := UpdateRun(old(EnsureOpened()), FeaturesTrace(properties, names, values, results),
                                   UpdateItemsTrace(trace, inArchive != null, archiveFormat, numberOfItems, results.updateItems));
        calls == old(calls) + run.0 && r == run.1
    {
      ghost var before := calls;
      ghost var check := EnsureOpened();
      ghost var u := UpdateItemsTrace(trace, inArchive != null, archiveFormat, numberOfItems, results.updateItems);
      r, names, values := ApplyFeatures(results);
      ghost var f := FeaturesTrace(properties, names, values, results);
      if !r.Ok? {
        assert UpdateRun(check, f, u) == (if check.Ok? then f else [], r);
        return;
      }
      ghost var mid := calls;
      assert mid == before + f;
      r := NativeUpdateItems(numberOfItems, results.updateItems);
      AppendAssociates(before, f, u);
    }

    /** Updates a connected archive (or writes a new one): fails before any
        native call once the handle is closed. */
    method UpdateItems(numberOfItems: int32, results: EngineResults)
      returns (r: Outcome, ghost names: seq<string>, ghost values: seq<JValue>)
      requires Valid()
      modifies this`calls
      ensures Valid()
      ensures |names| == |values|
      ensures old(EnsureOpened()).Ok? && properties != map[] ==> IsFlattening(names, values, properties)
      ensures var run := UpdateRun(old(EnsureOpened()), FeaturesTrace(properties, names, values, results),
                                   UpdateItemsTrace(trace, inArchive != null, archiveFormat, numberOfItems, results.updateItems));
        calls == old(calls) + run.0 && r == run.1
    {
      names, values := [], [];
      r := EnsureOpened();
      if !r.Ok? {
        return;
      }
      r, names, values := DoUpdateItems(numberOfItems, results);
    }

    /** Creates a new archive; the same steps as `UpdateItems`. */
    method CreateArchive(numberOfItems: int32, results: EngineResults)
      returns (r: Outcome, ghost names: seq<string>, ghost values: seq<JValue>)
      requires Valid()
      modifies this`calls
      ensures Valid()
      ensures |names| == |values|
      ensures old(EnsureOpened()).Ok? && properties != map[] ==> IsFlattening(names, values, properties)
      ensures var run := UpdateRun(old(EnsureOpened()), FeaturesTrace(properties, names, values, results),
                                   UpdateItemsTrace(trace, inArchive != null, archiveFormat, numberOfItems, results.updateItems));
        calls == old(calls) + run.0 && r == run.1
    {
      names, values := [], [];
      r := EnsureOpened();
      if !r.Ok? {
        return;
      }
      r, names, values := DoUpdateItems(numberOfItems, results);
    }
  }
}
