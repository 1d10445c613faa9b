# Archive-creation handle of 7-Zip-JBinding, modelled in Dafny

This project models the archive-creation handle of 7-Zip-JBinding (`OutArchiveImpl`).
It covers the managed class and the three native entry points behind it. The handle
keeps a `closed` flag, an optional connected in-archive, a trace switch and a property
table that the `featureSet*` setters fill. Its update operations (`updateItems`,
`createArchive`) check that the handle is open. They then push the property table to
the engine through `nativeSetProperties` and run `nativeUpdateItems`. `close` releases
the native side through `nativeClose`.

The native engine and the managed runtime are opaque. Each native entry point is a
method on the same `OutArchive` object, because the native code reads and writes the
object's fields (`jbindingSession`, `sevenZipArchiveInstance`, `trace`, `inArchive`).
What a native entry point does is appended to a log field, `calls`. The log records
engine calls, reported errors, the deletion of the converted value array, the release
of the string pool, `freeOutItem`, and the release and clearing steps of the close.
The result codes the engine returns (`QueryInterface`, `SetProperties`, `UpdateItems`)
are method parameters, so every proof holds for every result code.

Layout:

- `values.dfy` (module `Values`) holds the 32-bit integer types and the managed values
  (`Boolean`, `Integer`, `String`, any other object). It also holds the native tagged
  property and the conversion in both directions.
- `native_calls.dfy` (module `NativeCalls`) holds the log actions and the outcome of a
  native call: success, a managed exception, or a fatal abort. It defines the trace of
  each native entry point as a function, with the lemmas about those traces.
- `out_archive.dfy` (module `OutArchives`) holds the `OutArchive` class. It has the
  managed methods, the native entry points, the loops that flatten the property map
  and build the native value array, and the composed run of an update.
- `scenarios.dfy` (module `Scenarios`) holds client sequences: a setter called twice,
  closing twice, and an update after close.

Conventions:

- A zero session or archive field makes a native entry point abort: `Aborted(NullSession)`
  or `Aborted(NullArchive)`, with the log unchanged. This stands for the fatal check in
  `GetJBindingSession`/`GetArchive`.
- When a native method returns, the managed caller sees the first error the call
  reported, as a `Thrown(EngineFailure(code, context))`. This is `OutcomeOf`.
- The iteration order of the property map is unspecified. `Flatten` takes any key not
  yet visited, and every property about it holds for every order. The update methods
  return the order chosen as ghost results.
- Class invariant `Valid()`: an open handle has both native fields set, and the
  property table holds only what the setters can put there. So the lossy fallback of
  the conversion is never reached from the setters (`FeaturesConvertLosslessly`).

## Model

| member | source | states |
|---|---|---|
| Values.UInt32Of | sevenzipjbinding/src/main/cpp/jbinding-cpp/JavaToCPP/JavaToCPPOutArchiveImpl.cpp:137 | the `(UInt32)` cast of a managed int is that int modulo 2^32; a non-negative int is unchanged |
| Values.Int32Of | sevenzipjbinding/src/main/cpp/jbinding-cpp/JavaToCPP/JavaToCPPOutArchiveImpl.cpp:136-137 | reading a UInt32 back as a managed int keeps it modulo 2^32 |
| Values.UInt32Bijection | sevenzipjbinding/src/main/cpp/jbinding-cpp/JavaToCPP/JavaToCPPOutArchiveImpl.cpp:136-137 | the cast loses no information: the two 32-bit readings are inverse to each other |
| Values.ToNative | sevenzipjbinding/src/main/cpp/jbinding-cpp/JavaToCPP/JavaToCPPOutArchiveImpl.cpp:132-144 | Boolean gives a bool property with the same value; Integer gives a UInt32 property equal modulo 2^32; String gives a string property; the string keeps its text; any other object gives bool `false` |
| Values.ToManaged | sevenzipjbinding/src/main/cpp/jbinding-cpp/JavaToCPP/JavaToCPPOutArchiveImpl.cpp:132-141 | the inverse reading never produces an unsupported value |
| Values.ManagedRoundTrip | sevenzipjbinding/src/main/cpp/jbinding-cpp/JavaToCPP/JavaToCPPOutArchiveImpl.cpp:132-141 | every Boolean, Integer and String value converts and reads back unchanged |
| Values.NativeRoundTrip | sevenzipjbinding/src/main/cpp/jbinding-cpp/JavaToCPP/JavaToCPPOutArchiveImpl.cpp:132-141 | every native property is the conversion of the value it reads back as |
| Values.FallbackIsLossy | sevenzipjbinding/src/main/cpp/jbinding-cpp/JavaToCPP/JavaToCPPOutArchiveImpl.cpp:142-144 | an unsupported value converts exactly like the managed `false` and cannot be recovered |
| NativeCalls.ErrorCount | sevenzipjbinding/src/main/cpp/jbinding-cpp/JavaToCPP/JavaToCPPOutArchiveImpl.cpp:151-155 | the number of reported errors; zero exactly when the trace reports none |
| NativeCalls.OutcomeOf | sevenzipjbinding/src/main/cpp/jbinding-cpp/JavaToCPP/JavaToCPPOutArchiveImpl.cpp:94-96 | what the call context raises when the native method returns: never an abort, and only an engine failure |
| NativeCalls.OutcomeIsReportedError | sevenzipjbinding/src/main/cpp/jbinding-cpp/JavaToCPP/JavaToCPPOutArchiveImpl.cpp:108-112 | the caller sees an exception if and only if an error was reported, and it carries a reported code and context |
| NativeCalls.ConvertAll | sevenzipjbinding/src/main/cpp/jbinding-cpp/JavaToCPP/JavaToCPPOutArchiveImpl.cpp:121-145 | the value array has one entry per value; entry i is the conversion of value i |
| NativeCalls.Buffers | sevenzipjbinding/src/main/cpp/jbinding-cpp/JavaToCPP/JavaToCPPOutArchiveImpl.cpp:114-141 | the `needDels` pool: one name per value plus the text of each string value, so between one and two buffers per value, starting with the first name |
| NativeCalls.BuffersKeepAlive | sevenzipjbinding/src/main/cpp/jbinding-cpp/JavaToCPP/JavaToCPPOutArchiveImpl.cpp:114-141 | the string pool holds every name and every string value |
| NativeCalls.BuffersSize | sevenzipjbinding/src/main/cpp/jbinding-cpp/JavaToCPP/JavaToCPPOutArchiveImpl.cpp:128-141 | the pool holds one buffer per name plus one per string value |
| NativeCalls.SetPropertiesTrace | sevenzipjbinding/src/main/cpp/jbinding-cpp/JavaToCPP/JavaToCPPOutArchiveImpl.cpp:106-155 | the setter's run once both fields are set: it starts with the capability query; a failed query is followed only by its error; otherwise four steps (five with an error) ending in the release of the pool |
| NativeCalls.QueryFailureSkipsSetter | sevenzipjbinding/src/main/cpp/jbinding-cpp/JavaToCPP/JavaToCPPOutArchiveImpl.cpp:106-112 | a failed capability query reports exactly one error, never calls `SetProperties`, and raises that error |
| NativeCalls.SetterPairsNamesWithValues | sevenzipjbinding/src/main/cpp/jbinding-cpp/JavaToCPP/JavaToCPPOutArchiveImpl.cpp:121-147 | after a successful query `SetProperties` is called once, right after it, with the names in input order, value i converted from input i, and a count equal to the number of values |
| NativeCalls.SetterReportsIffFailed | sevenzipjbinding/src/main/cpp/jbinding-cpp/JavaToCPP/JavaToCPPOutArchiveImpl.cpp:147-155 | a non-zero `SetProperties` result reports exactly one error and raises it; a zero result reports none |
| NativeCalls.BuffersOutliveCall | sevenzipjbinding/src/main/cpp/jbinding-cpp/JavaToCPP/JavaToCPPOutArchiveImpl.cpp:114-156 | every buffer `SetProperties` points into is in the pool, which is released once, after the call |
| NativeCalls.SetPropertiesExample | sevenzipjbinding/src/main/cpp/jbinding-cpp/JavaToCPP/JavaToCPPOutArchiveImpl.cpp:124-147 | "x" = true and "y" = "hello" reach the engine as a bool `true` and a string "hello" in that order, and the pool holds "x", "y" and "hello" |
| NativeCalls.SetPropertiesTouchesNoItems | sevenzipjbinding/src/main/cpp/jbinding-cpp/JavaToCPP/JavaToCPPOutArchiveImpl.cpp:90-156 | the property setter neither updates items nor frees an out-item |
| NativeCalls.Decimal | sevenzipjbinding/src/main/cpp/jbinding-cpp/JavaToCPP/JavaToCPPOutArchiveImpl.cpp:56-58 | decimal text of the item count: non-empty, digits only, no leading zero |
| NativeCalls.DecimalRoundTrip | sevenzipjbinding/src/main/cpp/jbinding-cpp/JavaToCPP/JavaToCPPOutArchiveImpl.cpp:56-58 | the digits read back as the number written |
| NativeCalls.TraceVerb | sevenzipjbinding/src/main/cpp/jbinding-cpp/JavaToCPP/JavaToCPPOutArchiveImpl.cpp:55-58 | the verb is "Updating " or "Compressing ", and it is "Updating " exactly when an in-archive is attached |
| NativeCalls.TraceText | sevenzipjbinding/src/main/cpp/jbinding-cpp/JavaToCPP/JavaToCPPOutArchiveImpl.cpp:54-60 | the trace line starts with the verb and ends with " items" |
| NativeCalls.TraceTextReadsBack | sevenzipjbinding/src/main/cpp/jbinding-cpp/JavaToCPP/JavaToCPPOutArchiveImpl.cpp:54-60 | the line says "Updating" exactly when an in-archive is attached (else "Compressing"), and its digits read back as exactly `(UInt32)numberOfItems`, the count modulo 2^32 |
| NativeCalls.UpdateItemsTrace | sevenzipjbinding/src/main/cpp/jbinding-cpp/JavaToCPP/JavaToCPPOutArchiveImpl.cpp:54-82 | the update's run once both fields are set: a trace line exactly when tracing is on, then `UpdateItems`, an error only on a non-zero result, and `freeOutItem` |
| NativeCalls.UpdateItemsReportsIffFailed | sevenzipjbinding/src/main/cpp/jbinding-cpp/JavaToCPP/JavaToCPPOutArchiveImpl.cpp:74-80 | an error naming the format and the item count is reported and raised if and only if `UpdateItems` returned non-zero |
| NativeCalls.UpdateItemsFreesOnce | sevenzipjbinding/src/main/cpp/jbinding-cpp/JavaToCPP/JavaToCPPOutArchiveImpl.cpp:74-82 | `UpdateItems` runs once, after the optional trace line; `freeOutItem` runs once, last, whatever the result |
| NativeCalls.CloseTrace | sevenzipjbinding/src/main/cpp/jbinding-cpp/JavaToCPP/JavaToCPPOutArchiveImpl.cpp:169-182 | the archive is released once, and both the archive field and the session field are cleared, all before the session is deleted, which comes last |
| OutArchives.InArchive.constructor | sevenzipjbinding/src/main/java/net/sf/sevenzipjbinding/impl/OutArchiveImpl.java:222-224 | the connected in-archive, reduced to the closed flag its own open check consults |
| OutArchives.FeatureEntry | sevenzipjbinding/src/main/java/net/sf/sevenzipjbinding/impl/OutArchiveImpl.java:57-82 | an entry the setters can produce: key "HE", "X", "MT" or "S", never with an unsupported value |
| OutArchives.WellFormedFeatures | sevenzipjbinding/src/main/java/net/sf/sevenzipjbinding/impl/OutArchiveImpl.java:47-82 | a table built only by the setters has no keys beyond the four feature keys |
| OutArchives.FeaturesConvertLosslessly | sevenzipjbinding/src/main/java/net/sf/sevenzipjbinding/impl/OutArchiveImpl.java:57-82 | every entry the setters produce converts without the fallback and reads back unchanged; integer entries reach the engine as the same number |
| OutArchives.Flatten | sevenzipjbinding/src/main/java/net/sf/sevenzipjbinding/impl/OutArchiveImpl.java:91-100 | the two arrays have the map's size; each pair (names[i], values[i]) is a map entry; every key appears exactly once, in any order |
| OutArchives.BuildPropValues | sevenzipjbinding/src/main/cpp/jbinding-cpp/JavaToCPP/JavaToCPPOutArchiveImpl.cpp:114-145 | the name list is the names in order; value i is the conversion of input i; the pool is every name followed by its string value |
| OutArchives.FeaturesTrace | sevenzipjbinding/src/main/java/net/sf/sevenzipjbinding/impl/OutArchiveImpl.java:84-103 | what applying the features does natively: nothing exactly when the table is empty, otherwise a setter run starting with the capability query |
| OutArchives.UpdateRun | sevenzipjbinding/src/main/java/net/sf/sevenzipjbinding/impl/OutArchiveImpl.java:151-170 | the composed update: it succeeds only if the open check and the properties succeeded, and then its actions are the properties' followed by the update's; it never performs more than both |
| OutArchives.UpdateRunOnClosedHandle | sevenzipjbinding/src/main/java/net/sf/sevenzipjbinding/impl/OutArchiveImpl.java:151-170 | a handle failing its open check makes no native call and raises the check's exception; an update never aborts |
| OutArchives.UpdateRunReportsOnce | sevenzipjbinding/src/main/java/net/sf/sevenzipjbinding/impl/OutArchiveImpl.java:157-161 | an update on an open handle reports at most one error and raises an exception exactly when it did |
| OutArchives.FeaturesApplyBeforeUpdate | sevenzipjbinding/src/main/java/net/sf/sevenzipjbinding/impl/OutArchiveImpl.java:157-161 | every `SetProperties` comes before `UpdateItems`; `UpdateItems` runs only if applying the properties succeeded, and then `freeOutItem` ends the run |
| OutArchives.OutArchive.constructor | sevenzipjbinding/src/main/java/net/sf/sevenzipjbinding/impl/OutArchiveImpl.java:40-51 | a new handle is open, not connected, with an empty property table, tracing off and both native fields set |
| OutArchives.OutArchive.SetInArchive | sevenzipjbinding/src/main/java/net/sf/sevenzipjbinding/impl/OutArchiveImpl.java:53-55 | connects the in-archive and keeps the invariant |
| OutArchives.OutArchive.SetTrace | sevenzipjbinding/src/main/java/net/sf/sevenzipjbinding/impl/OutArchiveImpl.java:207-209 | sets the trace switch the native update reads |
| OutArchives.OutArchive.FeatureSetHeaderEncryption | sevenzipjbinding/src/main/java/net/sf/sevenzipjbinding/impl/OutArchiveImpl.java:57-59 | "HE" becomes the flag, replacing any earlier value; nothing else changes |
| OutArchives.OutArchive.FeatureSetLevel | sevenzipjbinding/src/main/java/net/sf/sevenzipjbinding/impl/OutArchiveImpl.java:61-65 | a negative level leaves the table unchanged; otherwise "X" becomes the level and nothing else changes |
| OutArchives.OutArchive.FeatureSetThreadCount | sevenzipjbinding/src/main/java/net/sf/sevenzipjbinding/impl/OutArchiveImpl.java:67-69 | "MT" becomes the count when positive, otherwise `true` |
| OutArchives.OutArchive.FeatureSetSolidSpec | sevenzipjbinding/src/main/java/net/sf/sevenzipjbinding/impl/OutArchiveImpl.java:80-82 | "S" becomes `false` for a null or empty spec, otherwise the spec string |
| OutArchives.OutArchive.EnsureOpened | sevenzipjbinding/src/main/java/net/sf/sevenzipjbinding/impl/OutArchiveImpl.java:218-225 | a closed handle raises "OutArchive closed"; an open handle passes exactly when it has no in-archive or its in-archive is open |
| OutArchives.OutArchive.NativeSetProperties | sevenzipjbinding/src/main/cpp/jbinding-cpp/JavaToCPP/JavaToCPPOutArchiveImpl.cpp:90-156 | aborts on a zero session or archive field without acting; otherwise performs the setter trace (query, `SetProperties`, array deletion, error, pool release) and raises its first error |
| OutArchives.OutArchive.NativeUpdateItems | sevenzipjbinding/src/main/cpp/jbinding-cpp/JavaToCPP/JavaToCPPOutArchiveImpl.cpp:36-83 | aborts on a zero field without acting; otherwise performs the optional trace line, `UpdateItems`, the error on a non-zero result and `freeOutItem`, and raises that error |
| OutArchives.OutArchive.NativeClose | sevenzipjbinding/src/main/cpp/jbinding-cpp/JavaToCPP/JavaToCPPOutArchiveImpl.cpp:163-185 | aborts on a zero field without acting; otherwise releases the archive, zeroes both fields and deletes the session |
| OutArchives.OutArchive.Close | sevenzipjbinding/src/main/java/net/sf/sevenzipjbinding/impl/OutArchiveImpl.java:135-144 | leaves the handle closed; only the first call on an unconnected handle performs the native close, any other call acts on nothing native |
| OutArchives.OutArchive.ApplyFeatures | sevenzipjbinding/src/main/java/net/sf/sevenzipjbinding/impl/OutArchiveImpl.java:84-103 | fails like the open check without acting; an empty table makes no native call; otherwise one setter call with a flattening of the table |
| OutArchives.OutArchive.DoUpdateItems | sevenzipjbinding/src/main/java/net/sf/sevenzipjbinding/impl/OutArchiveImpl.java:157-161 | the log grows by the run of the update: the properties first, then the native update only if they succeeded; the outcome is the run's |
| OutArchives.OutArchive.UpdateItems | sevenzipjbinding/src/main/java/net/sf/sevenzipjbinding/impl/OutArchiveImpl.java:151-155 | the same run, after the open check; a closed handle raises before any native call |
| OutArchives.OutArchive.CreateArchive | sevenzipjbinding/src/main/java/net/sf/sevenzipjbinding/impl/OutArchiveImpl.java:166-170 | the same run as `updateItems` |
| Scenarios.HeaderEncryptionTwice | sevenzipjbinding/src/main/java/net/sf/sevenzipjbinding/impl/OutArchiveImpl.java:57-59 | setting "HE" twice keeps only the second value |
| Scenarios.CloseTwice | sevenzipjbinding/src/main/java/net/sf/sevenzipjbinding/impl/OutArchiveImpl.java:135-144 | two closes perform the native close at most once |
| Scenarios.UpdateAfterClose | sevenzipjbinding/src/main/java/net/sf/sevenzipjbinding/impl/OutArchiveImpl.java:151-155 | after close, an update raises "OutArchive closed" and adds nothing to the log beyond the close itself |

## Left out

- JNI machinery is not modelled: environment handles, call-context internals, the field accessors, `IsInstanceOf` and `GetObjectArrayElement`. Managed values are a datatype.
- The call context is assumed to raise, at method exit, the first error reported during the call. Its code is not part of this model.
- A null element in the value array is not modelled. The setters never store null, so it cannot arise from the managed side. In the native code `IsInstanceOf` is true for a null object, so a null value would enter the Boolean branch and read a boolean from null; it would not reach the `false` fallback.
- The engine (`QueryInterface`, `SetProperties`, `UpdateItems`, `Release`) is opaque. Its result codes are parameters, and its calls are log entries.
- The out-stream and update-callback adapters are not part of this model. `freeOutItem` is only a log entry, and the stream and callback arguments are dropped.
- `CMyComPtr` reference counting is not modelled. `Release` in the close is one log entry.
- The format-name table and `getArchiveFormatIndex` are not part of this model. The format is its index, and an error context records the index and the item count instead of the formatted message text.
- `FromJChar` UTF-16 conversion is not modelled. Names and strings cross unchanged.
- `TRACE` output, `traceMessage` and the print stream are not modelled. The user trace line is the log entry `UserTrace(attached, numberOfItems)`, whose text is `TraceText`. The native trace switch is assumed to read the `trace` field.
- `InArchiveImpl.ensureOpened` is not part of this model. A connected in-archive is reduced to its `closed` flag.
- The `outArchive == NULL` check in `nativeSetProperties` is dead after the fatal check in `GetArchive`, so it has no branch here.
- The getters (`getArchiveFormat`, `getConnectedInArchive`, `isTrace`, `getTracePrintStream`), `setArchiveFormat` and `setTracePrintStream` only read or store one field and are not modelled.
- `new[]`/`delete[]` of the value array and the string pool's lifetime are log entries, not memory.
- The native code that opens a handle is not part of this model. The constructor stands for it.
- OutArchives.OutArchive.NativeSetProperties: requires at least as many names as values. The managed caller always passes arrays of equal length, and a shorter name array would fail inside the runtime's array access, which is not modelled.
- OutArchives.OutArchive.Close: requires the invariant, so the native close it reaches never aborts. The fatal abort of the native close on a zero session or archive field is not reachable from the managed methods.
