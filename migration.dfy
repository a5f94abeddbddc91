/**
 * Reader and writer together: the writer consumes exactly the payloads the
 * reader published, in order (one FIFO bus, one producer, one consumer).
 */
module Migration {
  import opened Wrappers
  import opened StrConv
  import opened Outcomes
  import opened Message
  import opened Ttl
  import opened Reader
  import opened Writer

  /** A PTTL reply as Redis gives it for an existing key: the decimal text of -1 or of the remaining milliseconds. */
  predicate IsPttlReply(r: Reply) {
    r.Value? && exists t :: -1 <= t <= MaxInt64 && r.text == FormatInt(t)
  }

  /** Every DUMP succeeds and, with TTL sync on, every PTTL returns an integer reply of -1 or more. */
  predicate CleanScan(ttlSync: bool, scan: seq<ScanItem>) {
    forall j :: 0 <= j < |scan| ==> scan[j].dump.Value? && (ttlSync ==> IsPttlReply(scan[j].pttl))
  }

  /** The TTL a key carries through the migration: its PTTL reply normalised, or "0" without TTL sync. */
  function CarriedTtl(ttlSync: bool, item: ScanItem): string {
    if !ttlSync then Persistent
    else if item.pttl.Value? && item.pttl.text != NoExpiry then item.pttl.text
    else Persistent
  }

  /**
   * A clean scan read without cancellation and written without RESTORE
   * failures or cancellation migrates every key: Read returns scanner.Close()'s
   * error, Write returns nil, and each key ends with the DUMP blob and TTL of
   * its last occurrence in the scan. Every published TTL is accepted: no key
   * of a clean scan is skipped.
   */
  lemma MigrationCopiesEveryKey(ttlSync: bool, scan: seq<ScanItem>, closeErr: Option<string>,
                                db: Db, j: nat)
    requires CleanScan(ttlSync, scan)
    requires j < |scan|
    requires forall j' :: j < j' < |scan| ==> scan[j'].key != scan[j].key
    ensures var r := ReadSpec(ttlSync, scan, None, closeErr);
            var w := WriteSpec(db, r.published, None, map[]);
            && r.result == CloseResult(closeErr)
            && |r.published| == |scan|
            && (forall p :: p in r.published ==> AcceptedTtl(p.ttl))
            && w.result.None? && w.drained
            && scan[j].key in w.db
            && w.db[scan[j].key] == Entry(scan[j].dump.text, CarriedTtl(ttlSync, scan[j]))
  {
    forall i | 0 <= i < |scan|
      ensures StepAt(ttlSync, scan, i, None).Publish?
      ensures AcceptedTtl(StepAt(ttlSync, scan, i, None).payload.ttl)
      ensures StepAt(ttlSync, scan, i, None).payload.ttl == CarriedTtl(ttlSync, scan[i])
    {
      if ttlSync {
        var t :| -1 <= t <= MaxInt64 && scan[i].pttl.text == FormatInt(t);
        ResolvedTtlAccepted(scan[i].key, t);
      } else {
        DisabledTtlAccepted(scan[i].key, scan[i].pttl);
      }
    }
    ReadCompletes(ttlSync, scan, None, closeErr);
    ReadPublishesInScanOrder(ttlSync, scan, None, closeErr);
    var pub := ReadSpec(ttlSync, scan, None, closeErr).published;
    WriteCompletes(db, pub, map[]);
    RestoredLastWriteWins(db, pub, j);
  }

  /** Keys the scan never yields keep what the destination held before the migration. */
  lemma MigrationLeavesOtherKeys(ttlSync: bool, scan: seq<ScanItem>, closeErr: Option<string>,
                                 db: Db, k: string)
    requires CleanScan(ttlSync, scan)
    requires forall j :: 0 <= j < |scan| ==> scan[j].key != k
    ensures var w := WriteSpec(db, ReadSpec(ttlSync, scan, None, closeErr).published, None, map[]);
            (k in w.db <==> k in db) && (k in db ==> w.db[k] == db[k])
  {
    forall i | 0 <= i < |scan| ensures StepAt(ttlSync, scan, i, None).Publish? {
      if ttlSync {
        var t :| -1 <= t <= MaxInt64 && scan[i].pttl.text == FormatInt(t);
        ResolvedTtlAccepted(scan[i].key, t);
      }
    }
    ReadCompletes(ttlSync, scan, None, closeErr);
    var pub := ReadSpec(ttlSync, scan, None, closeErr).published;
    WriteCompletes(db, pub, map[]);
    RestoredUntouched(db, pub, k);
  }

  /**
   * Source keys a (value v1, 5000 ms left) and b (value v2, no expiry),
   * migrated with TTL sync on: a arrives with TTL "5000", b with "0".
   */
  lemma ScenarioTtlSync(closeErr: Option<string>)
    ensures var scan := [ScanItem("a", Value("v1"), Value("5000")), ScanItem("b", Value("v2"), Value("-1"))];
            var r := ReadSpec(true, scan, None, closeErr);
            var w := WriteSpec(map[], r.published, None, map[]);
            && r.published == [Payload("a", "v1", "5000"), Payload("b", "v2", "0")]
            && w.result.None?
            && w.db == map["a" := Entry("v1", "5000"), "b" := Entry("v2", "0")]
  {
    var scan := [ScanItem("a", Value("v1"), Value("5000")), ScanItem("b", Value("v2"), Value("-1"))];
    assert FormatInt(5000) == "5000";
    assert FormatInt(-1) == "-1";
    assert CleanScan(true, scan);
    ReadCompletes(true, scan, None, closeErr);
    var pub := ReadSpec(true, scan, None, closeErr).published;
    DisabledTtlAccepted("b", Value("-1"));
    ParseFormatRoundTrip(5000);
    WriteCompletes(map[], pub, map[]);
    assert pub[..1] == [pub[0]];
    assert Restored(map[], pub[..1]) == Apply(map[], pub[0]);
  }

  /**
   * A payload whose TTL was corrupted to "-1" between reader and writer is
   * skipped; the keys around it are still restored and Write returns nil.
   */
  lemma ScenarioCorruptTtlSkipped()
    ensures var q := [Payload("a", "v1", "0"), Payload("bad", "x", "-1"), Payload("b", "v2", "0")];
            var w := WriteSpec(map[], q, None, map[]);
            && w.result.None? && w.drained && w.consumed == 3
            && w.db == map["a" := Entry("v1", "0"), "b" := Entry("v2", "0")]
  {
  }
}
