/** The native entry points of the archive-creation handle, described by the
    actions they perform: calls made on the engine, errors reported to the call
    context, and the release of native state. Each entry point's whole run is a
    function from its inputs (and the engine's result codes) to such a trace. */
module NativeCalls {
  import opened Values

  /** Which failure a reported error describes. */
  datatype ErrorContext =
    | GettingSetPropertiesInterface                        // "Error getting IID_ISetProperties interface."
    | SettingProperties                                    // "Error setting properties."
    | CreatingArchive(formatIndex: nat, numberOfItems: int32) // "Error creating '<format>' archive with <n> items"

  /** One observable step of a native entry point. */
  datatype NativeAction =
    | QuerySetProperties                                   // QueryInterface(IID_ISetProperties)
    | SetProperties(names: seq<string>, values: seq<PropVariant>, count: nat)
    | DeletePropValues                                     // delete[] of the converted value array
    | FreeBuffers(buffers: seq<string>)                    // the string pool goes out of scope
    | UserTrace(attached: bool, numberOfItems: int32)       // the user trace line TraceText(attached, numberOfItems)
    | UpdateItems(numberOfItems: int32)
    | ReportError(code: HResult, context: ErrorContext)
    | FreeOutItem
    | ReleaseArchive
    | ClearArchiveInstance                                 // the handle's archive field set to 0
    | ClearSession                                         // the handle's session field set to 0
    | DeleteSession

  /** The managed exceptions an operation of the handle can raise. */
  datatype Failure =
    | OutArchiveClosed                                     // "OutArchive closed"
    | InArchiveClosed                                      // raised by the connected in-archive's own check
    | EngineFailure(code: HResult, context: ErrorContext)

  /** A boundary-contract violation: the process aborts. */
  datatype Fatal = NullSession | NullArchive

  datatype Outcome = Ok | Thrown(failure: Failure) | Aborted(fatal: Fatal)

  /** The number of errors reported in a trace. */
  function ErrorCount(t: seq<NativeAction>): (n: nat)
    ensures n <= |t|
    ensures n == 0 <==> forall i :: 0 <= i < |t| ==> !t[i].ReportError?
  {
    if t == [] then 0 else (if t[0].ReportError? then 1 else 0) + ErrorCount(t[1..])
  }

  lemma {:induction false} ErrorCountAppend(a: seq<NativeAction>, b: seq<NativeAction>)
    ensures ErrorCount(a + b) == ErrorCount(a) + ErrorCount(b)
  {
    if a == [] {
      assert a + b == b;
    } else {
      assert (a + b)[1..] == a[1..] + b;
      ErrorCountAppend(a[1..], b);
    }
  }

  /** What the managed caller sees when a native method returns: the call context
      raises the first error reported during the call, if any. */
  function OutcomeOf(t: seq<NativeAction>): (r: Outcome)
    ensures !r.Aborted?
    ensures r.Thrown? ==> r.failure.EngineFailure?
  {
    if t == [] then Ok
    else if t[0].ReportError? then Thrown(EngineFailure(t[0].code, t[0].context))
    else OutcomeOf(t[1..])
  }

  /** The caller sees an exception exactly when an error was reported, and it
      carries the code and context of a reported error. */
  lemma {:induction false} OutcomeIsReportedError(t: seq<NativeAction>)
    ensures OutcomeOf(t).Ok? <==> ErrorCount(t) == 0
    ensures OutcomeOf(t).Thrown? ==>
      exists i :: 0 <= i < |t| && t[i] == ReportError(OutcomeOf(t).failure.code, OutcomeOf(t).failure.context)
  {
    if t != [] && !t[0].ReportError? {
      OutcomeIsReportedError(t[1..]);
      var r := OutcomeOf(t[1..]);
      if r.Thrown? {
        var i :| 0 <= i < |t[1..]| && t[1..][i] == ReportError(r.failure.code, r.failure.context);
        assert t[i + 1] == t[1..][i];
      }
    }
  }

  /** A trace without errors does not change the outcome of the steps before it. */
  lemma {:induction false} OutcomeOfAppend(a: seq<NativeAction>, b: seq<NativeAction>)
    ensures OutcomeOf(a + b) == if OutcomeOf(a).Ok? then OutcomeOf(b) else OutcomeOf(a)
  {
    if a == [] {
      assert a + b == b;
    } else {
      assert (a + b)[0] == a[0];
      assert (a + b)[1..] == a[1..] + b;
      OutcomeOfAppend(a[1..], b);
    }
  }

  /** Proof helper: appending to a trace in two steps is appending the two parts
      at once. It spares the update methods the solver's own search for this fact. */
  lemma AppendAssociates(a: seq<NativeAction>, b: seq<NativeAction>, c: seq<NativeAction>)
    ensures a + b + c == a + (b + c)
  {
  }

  /** The converted value array, element by element. */
  function ConvertAll(values: seq<JValue>): (props: seq<PropVariant>)
    ensures |props| == |values|
    ensures forall i :: 0 <= i < |values| ==> props[i] == ToNative(values[i])
  {
    if values == [] then [] else ConvertAll(values[..|values| - 1]) + [ToNative(values[|values| - 1])]
  }

  /** The string pool (`needDels`) after converting `names` and `values`: each
      name, followed by the value's text when the value is a string. */
  function Buffers(names: seq<string>, values: seq<JValue>): (pool: seq<string>)
    requires |names| == |values|
    ensures |values| <= |pool| <= 2 * |values|
    ensures values != [] ==> pool[0] == names[0]
  {
    if values == [] then []
    else
      var n := |values| - 1;
      Buffers(names[..n], values[..n]) + [names[n]] + (if values[n].JString? then [values[n].s] else [])
  }

  /** The pool holds a buffer for every name and every string value, so nothing the
      property setter points to is released while the pool lives. */
  lemma {:induction false} BuffersKeepAlive(names: seq<string>, values: seq<JValue>)
    requires |names| == |values|
    ensures forall i :: 0 <= i < |names| ==> names[i] in Buffers(names, values)
    ensures forall i :: 0 <= i < |values| && values[i].JString? ==> values[i].s in Buffers(names, values)
  {
    if values != [] {
      var n := |values| - 1;
      BuffersKeepAlive(names[..n], values[..n]);
      var b := Buffers(names, values);
      assert b == Buffers(names[..n], values[..n]) + [names[n]] + (if values[n].JString? then [values[n].s] else []);
      forall i | 0 <= i < |names| ensures names[i] in b {
        if i < n {
          assert names[i] == names[..n][i];
        }
      }
      forall i | 0 <= i < |values| && values[i].JString? ensures values[i].s in b {
        if i < n {
          assert values[i] == values[..n][i];
        }
      }
    }
  }

  /** The pool's size: one buffer per name plus one per string value. */
  function StringCount(values: seq<JValue>): nat
  {
    if values == [] then 0 else StringCount(values[..|values| - 1]) + (if values[|values| - 1].JString? then 1 else 0)
  }

  lemma {:induction false} BuffersSize(names: seq<string>, values: seq<JValue>)
    requires |names| == |values|
    ensures |Buffers(names, values)| == |values| + StringCount(values)
  {
    if values != [] {
      BuffersSize(names[..|values| - 1], values[..|values| - 1]);
    }
  }

  /** The run of the native property setter once both handle fields are set:
      the capability query; then, if it succeeded, one `SetProperties` call with
      the names and the converted values in input order and a count equal to the
      number of values, the deletion of the value array, an error if the engine
      refused, and last the release of the string pool. */
  function SetPropertiesTrace(names: seq<string>, values: seq<JValue>, queryResult: HResult, setResult: HResult): (t: seq<NativeAction>)
    requires |names| == |values|
    ensures |t| >= 2 && t[0] == QuerySetProperties
    ensures queryResult != S_OK ==> |t| == 2 && t[1] == ReportError(queryResult, GettingSetPropertiesInterface)
    ensures queryResult == S_OK ==> |t| == if setResult != 0 then 5 else 4
    ensures queryResult == S_OK ==> t[|t| - 1] == FreeBuffers(Buffers(names, values))
  {
    [QuerySetProperties] +
    if queryResult != S_OK then
      [ReportError(queryResult, GettingSetPropertiesInterface)]
    else
      [SetProperties(names, ConvertAll(values), |names|), DeletePropValues] +
      (if setResult != 0 then [ReportError(setResult, SettingProperties)] else []) +
      [FreeBuffers(Buffers(names, values))]
  }

  /** Proof helper: the run of the setter after a successful query, written in the
      order the setter method builds it. */
  lemma SetPropertiesSteps(names: seq<string>, values: seq<JValue>, queryResult: HResult, setResult: HResult,
                           converted: seq<PropVariant>, pool: seq<string>)
    requires |names| == |values|
    requires queryResult == S_OK
    requires converted == ConvertAll(values) && pool == Buffers(names, values)
    ensures SetPropertiesTrace(names, values, queryResult, setResult) ==
      [QuerySetProperties] + [SetProperties(names, converted, |names|), DeletePropValues]
      + (if setResult != 0 then [ReportError(setResult, SettingProperties)] else []) + [FreeBuffers(pool)]
  {
  }

  /** A failed capability query reports exactly one error and never reaches
      `SetProperties`. */
  lemma QueryFailureSkipsSetter(names: seq<string>, values: seq<JValue>, queryResult: HResult, setResult: HResult)
    requires |names| == |values|
    requires queryResult != S_OK
    ensures var t := SetPropertiesTrace(names, values, queryResult, setResult);
      && t[0] == QuerySetProperties
      && ErrorCount(t) == 1
      && (forall i :: 0 <= i < |t| ==> !t[i].SetProperties?)
      && OutcomeOf(t) == Thrown(EngineFailure(queryResult, GettingSetPropertiesInterface))
  {
    var t := SetPropertiesTrace(names, values, queryResult, setResult);
    assert t == [QuerySetProperties, ReportError(queryResult, GettingSetPropertiesInterface)];
  }

  /** After a successful capability query `SetProperties` is called exactly once,
      right after the query, with names[i] paired to the conversion of values[i]
      and a count equal to the number of values. */
  lemma SetterPairsNamesWithValues(names: seq<string>, values: seq<JValue>, queryResult: HResult, setResult: HResult)
    requires |names| == |values|
    requires queryResult == S_OK
    ensures var t := SetPropertiesTrace(names, values, queryResult, setResult);
      && t[0] == QuerySetProperties
      && (forall i :: 0 <= i < |t| && t[i].SetProperties? ==> i == 1)
      && t[1].SetProperties? && t[1].names == names && t[1].count == |values| == |t[1].values|
      && (forall i :: 0 <= i < |values| ==> t[1].values[i] == ToNative(values[i]))
  {
  }

  /** After a successful capability query an error is reported exactly when
      `SetProperties` returns non-zero, and it is the error the caller sees. */
  lemma SetterReportsIffFailed(names: seq<string>, values: seq<JValue>, queryResult: HResult, setResult: HResult)
    requires |names| == |values|
    requires queryResult == S_OK
    ensures var t := SetPropertiesTrace(names, values, queryResult, setResult);
      && ErrorCount(t) == (if setResult != 0 then 1 else 0)
      && OutcomeOf(t) == if setResult != 0 then Thrown(EngineFailure(setResult, SettingProperties)) else Ok
  {
    var e: seq<NativeAction> := if setResult != 0 then [ReportError(setResult, SettingProperties)] else [];
    var head := [QuerySetProperties, SetProperties(names, ConvertAll(values), |names|), DeletePropValues];
    var tail := [FreeBuffers(Buffers(names, values))];
    assert SetPropertiesTrace(names, values, queryResult, setResult) == head + e + tail;
    ErrorCountAppend(head + e, tail);
    ErrorCountAppend(head, e);
    OutcomeOfAppend(head + e, tail);
    OutcomeOfAppend(head, e);
    assert OutcomeOf(head) == Ok by {
      OutcomeIsReportedError(head);
    }
    assert OutcomeOf(tail) == Ok by {
      OutcomeIsReportedError(tail);
    }
  }

  /** Every buffer the `SetProperties` call points into (each name and each string
      value) is in the pool, and the pool is released only after that call. */
  lemma BuffersOutliveCall(names: seq<string>, values: seq<JValue>, queryResult: HResult, setResult: HResult)
    requires |names| == |values|
    requires queryResult == S_OK
    ensures var t := SetPropertiesTrace(names, values, queryResult, setResult);
      && t[1].SetProperties? && t[|t| - 1].FreeBuffers? && 1 < |t| - 1
      && (forall i :: 0 <= i < |t| && t[i].FreeBuffers? ==> i == |t| - 1)
      && (forall i :: 0 <= i < t[1].count ==> t[1].names[i] in t[|t| - 1].buffers)
      && (forall i :: 0 <= i < |t[1].values| && t[1].values[i].PropString? ==> t[1].values[i].s in t[|t| - 1].buffers)
  {
    BuffersKeepAlive(names, values);
  }

  /** Two properties "x" = true and "y" = "hello": the engine receives a boolean
      `true` and a string "hello" in that order, and the pool released after the
      call holds both names and the string. */
  lemma SetPropertiesExample()
    ensures var t := SetPropertiesTrace(["x", "y"], [JBoolean(true), JString("hello")], S_OK, S_OK);
      && t == [QuerySetProperties, SetProperties(["x", "y"], [PropBool(true), PropString("hello")], 2),
               DeletePropValues, FreeBuffers(["x", "y", "hello"])]
      && OutcomeOf(t) == Ok
  {
    var values := [JBoolean(true), JString("hello")];
    assert values[..1] == [JBoolean(true)] && values[..1][..0] == [];
    assert ["x", "y"][..1] == ["x"] && ["x"][..0] == [];
    assert ConvertAll(values) == [PropBool(true), PropString("hello")];
    assert Buffers(["x", "y"], values) == ["x", "y", "hello"];
    SetterReportsIffFailed(["x", "y"], values, S_OK, S_OK);
  }

  /** The property setter neither updates items nor frees an out-item. */
  lemma SetPropertiesTouchesNoItems(names: seq<string>, values: seq<JValue>, queryResult: HResult, setResult: HResult)
    requires |names| == |values|
    ensures var t := SetPropertiesTrace(names, values, queryResult, setResult);
      forall i :: 0 <= i < |t| ==> !t[i].UpdateItems? && !t[i].FreeOutItem?
  {
  }

  /** Decimal text of a number, most significant digit first, no leading zeros. */
  function Decimal(n: nat): (s: string)
    ensures |s| >= 1
    ensures forall i :: 0 <= i < |s| ==> '0' <= s[i] <= '9'
    ensures s[0] == '0' ==> n == 0
  {
    if n < 10 then [(('0' as int) + n) as char]
    else Decimal(n / 10) + [(('0' as int) + n % 10) as char]
  }

  /** The number a string of decimal digits denotes. */
  function DecimalValue(s: string): nat
    requires forall i :: 0 <= i < |s| ==> '0' <= s[i] <= '9'
  {
    if s == [] then 0 else DecimalValue(s[..|s| - 1]) * 10 + (s[|s| - 1] as int - '0' as int)
  }

  lemma {:induction false} DecimalRoundTrip(n: nat)
    ensures DecimalValue(Decimal(n)) == n
  {
    if n >= 10 {
      var s := Decimal(n);
      assert s[..|s| - 1] == Decimal(n / 10);
      DecimalRoundTrip(n / 10);
    }
  }

  /** The verb of the user trace line: "Updating" for a handle connected to an
      in-archive, "Compressing" for a fresh one. */
  function TraceVerb(attached: bool): (verb: string)
    ensures verb == "Updating " || verb == "Compressing "
    ensures verb[0] == 'U' <==> attached
  {
    if attached then "Updating " else "Compressing "
  }

  /** The user trace line "Updating N items" / "Compressing N items", where N is
      the item count read as an unsigned 32-bit number. */
  function TraceText(attached: bool, numberOfItems: int32): (text: string)
    ensures |text| > |TraceVerb(attached)| + 6
    ensures text[..|TraceVerb(attached)|] == TraceVerb(attached)
    ensures text[|text| - 6..] == " items"
  {
    TraceVerb(attached) + Decimal(UInt32Of(numberOfItems) as nat) + " items"
  }

  /** The trace line starts with "Updating" exactly when an in-archive is attached,
      and the digits in its middle read back as the item count cast to UInt32,
      which is the count modulo 2^32. */
  lemma TraceTextReadsBack(attached: bool, numberOfItems: int32)
    ensures var text := TraceText(attached, numberOfItems);
      && (text[0] == 'U' <==> attached)
      && var digits := text[|TraceVerb(attached)|..|text| - 6];
         && (forall i :: 0 <= i < |digits| ==> '0' <= digits[i] <= '9')
         && DecimalValue(digits) == UInt32Of(numberOfItems) as int
         && DecimalValue(digits) % 0x1_0000_0000 == numberOfItems as int % 0x1_0000_0000
  {
    var text := TraceText(attached, numberOfItems);
    var d := Decimal(UInt32Of(numberOfItems) as nat);
    assert text[|TraceVerb(attached)|..|text| - 6] == d;
    DecimalRoundTrip(UInt32Of(numberOfItems) as nat);
  }

  /** The run of the native update entry point once both handle fields are set:
      the optional user trace line, the engine's `UpdateItems`, an error naming the
      format and the item count when it returned non-zero, and `freeOutItem`. */
  function UpdateItemsTrace(traceOn: bool, attached: bool, formatIndex: nat, numberOfItems: int32, updateResult: HResult): (t: seq<NativeAction>)
    ensures |t| == (if traceOn then 1 else 0) + (if updateResult != 0 then 1 else 0) + 2
    ensures traceOn <==> t[0] == UserTrace(attached, numberOfItems)
  {
    (if traceOn then [UserTrace(attached, numberOfItems)] else []) +
    [UpdateItems(numberOfItems)] +
    (if updateResult != 0 then [ReportError(updateResult, CreatingArchive(formatIndex, numberOfItems))] else []) +
    [FreeOutItem]
  }

  /** An error is reported exactly when `UpdateItems` returned non-zero, and it
      names the format and the item count. */
  lemma UpdateItemsReportsIffFailed(traceOn: bool, attached: bool, formatIndex: nat, numberOfItems: int32, updateResult: HResult)
    ensures var t := UpdateItemsTrace(traceOn, attached, formatIndex, numberOfItems, updateResult);
      && ErrorCount(t) == (if updateResult != 0 then 1 else 0)
      && OutcomeOf(t) == (if updateResult != 0 then Thrown(EngineFailure(updateResult, CreatingArchive(formatIndex, numberOfItems))) else Ok)
  {
    var tr: seq<NativeAction> := if traceOn then [UserTrace(attached, numberOfItems)] else [];
    var e: seq<NativeAction> := if updateResult != 0 then [ReportError(updateResult, CreatingArchive(formatIndex, numberOfItems))] else [];
    var head := tr + [UpdateItems(numberOfItems)];
    assert UpdateItemsTrace(traceOn, attached, formatIndex, numberOfItems, updateResult) == head + e + [FreeOutItem];
    ErrorCountAppend(head + e, [FreeOutItem]);
    ErrorCountAppend(head, e);
    ErrorCountAppend(tr, [UpdateItems(numberOfItems)]);
    OutcomeOfAppend(head + e, [FreeOutItem]);
    OutcomeOfAppend(head, e);
    OutcomeOfAppend(tr, [UpdateItems(numberOfItems)]);
  }

  /** `freeOutItem` happens exactly once, as the last step; `UpdateItems` happens
      exactly once, right after the optional trace line, so before `freeOutItem`
      whatever it returned; properties are never set here. */
  lemma UpdateItemsFreesOnce(traceOn: bool, attached: bool, formatIndex: nat, numberOfItems: int32, updateResult: HResult)
    ensures var t := UpdateItemsTrace(traceOn, attached, formatIndex, numberOfItems, updateResult);
      && t[|t| - 1] == FreeOutItem
      && (forall i :: 0 <= i < |t| - 1 ==> t[i] != FreeOutItem)
      && t[if traceOn then 1 else 0] == UpdateItems(numberOfItems)
      && (forall i :: 0 <= i < |t| && t[i].UpdateItems? ==> i == if traceOn then 1 else 0)
      && (forall i :: 0 <= i < |t| ==> !t[i].SetProperties?)
  {
  }

  /** The run of the native close: release the archive, clear both handle fields,
      and only then delete the session. */
  function CloseTrace(): (t: seq<NativeAction>)
    ensures multiset(t)[ReleaseArchive] == 1
    ensures t[|t| - 1] == DeleteSession
    ensures forall i :: 0 <= i < |t| - 1 ==> t[i] in {ReleaseArchive, ClearArchiveInstance, ClearSession}
    ensures ClearArchiveInstance in t[..|t| - 1] && ClearSession in t[..|t| - 1]
  {
    [ReleaseArchive, ClearArchiveInstance, ClearSession, DeleteSession]
  }
}
