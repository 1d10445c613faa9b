/** Client sequences on the archive-creation handle: what a caller observes when
    operations are combined. */
module Scenarios {
  import opened Values
  import opened NativeCalls
  import opened OutArchives

  /** Header encryption set twice: the property table keeps only the second value. */
  method HeaderEncryptionTwice(a: OutArchive, first: bool, second: bool)
    requires a.Valid()
    modifies a`properties
    ensures a.Valid()
    ensures a.properties == old(a.properties)["HE" := JBoolean(second)]
    ensures a.properties["HE"] == JBoolean(second)
  {
    a.FeatureSetHeaderEncryption(first);
    a.FeatureSetHeaderEncryption(second);
  }

  /** Closing twice performs the native close at most once. */
  method CloseTwice(a: OutArchive)
    requires a.Valid()
    modifies a`closed, a`calls, a`jbindingSession, a`sevenZipArchiveInstance
    ensures a.Valid() && a.closed
    ensures a.calls == old(a.calls) + (if !old(a.closed) && a.inArchive == null then CloseTrace() else [])
  {
    a.Close();
    a.Close();
  }

  /** Once closed, an update raises "OutArchive closed" and reaches no native code. */
  method UpdateAfterClose(a: OutArchive, numberOfItems: int32, results: EngineResults) returns (r: Outcome)
    requires a.Valid()
    modifies a`closed, a`calls, a`jbindingSession, a`sevenZipArchiveInstance
    ensures r == Thrown(OutArchiveClosed)
    ensures a.calls == old(a.calls) + (if !old(a.closed) && a.inArchive == null then CloseTrace() else [])
  {
    a.Close();
    ghost var names, values;
    r, names, values := a.UpdateItems(numberOfItems, results);
  }
}
