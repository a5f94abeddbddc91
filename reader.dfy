/**
 * The reader side as a function of its inputs: the keys the scan yields,
 * each with the outcome of its DUMP and PTTL calls, the point where
 * cancellation wins the publish select, and what scanner.Close() returns.
 */
module Reader {
  import opened Wrappers
  import opened Outcomes
  import opened Message
  import opened Ttl

  /** One key from scanner.Next, with what DUMP and PTTL return for it. */
  datatype ScanItem = ScanItem(key: string, dump: Reply, pttl: Reply)

  /** The payloads Read puts on the bus, in order, and the error it returns (None is nil). */
  datatype ReadOutcome = ReadOutcome(published: seq<Payload>, result: Option<Error>)

  /** One iteration of the scan loop: publish a payload, or return. */
  datatype Step = Publish(payload: Payload) | Stop(result: Option<Error>)

  /** What Read returns when ctx.Done() wins the select. */
  function ReadCancelResult(ctxErr: Option<string>): Option<Error> {
    if ctxErr.Some? then Some(ReadCancelled(ctxErr.value)) else None
  }

  /** What Read returns on scan exhaustion: scanner.Close()'s error. */
  function CloseResult(closeErr: Option<string>): Option<Error> {
    if closeErr.Some? then Some(ScanFailed(closeErr.value)) else None
  }

  /** Iteration i of the loop: DUMP, then maybeTTL, then the select between Done and the send. */
  function StepAt(ttlSync: bool, scan: seq<ScanItem>, i: nat, cancel: Option<Cancel>): Step
    requires i < |scan|
  {
    var item := scan[i];
    match item.dump
    case Failed(cause) => Stop(Some(DumpFailed(item.key, cause)))
    case Value(value) =>
      match MaybeTTL(ttlSync, item.key, item.pttl)
      case Err(e) => Stop(Some(TtlSyncFailed(item.key, e)))
      case Ok(ttl) =>
        if CancelsAt(cancel, i) then Stop(ReadCancelResult(cancel.value.ctxErr))
        else Publish(Payload(item.key, value, ttl))
  }

  /** The loop from iteration i on. */
  function ReadFrom(ttlSync: bool, scan: seq<ScanItem>, i: nat, cancel: Option<Cancel>,
                    closeErr: Option<string>): (o: ReadOutcome)
    requires i <= |scan|
    ensures |o.published| <= |scan| - i
    decreases |scan| - i
  {
    if i == |scan| then ReadOutcome([], CloseResult(closeErr))
    else match StepAt(ttlSync, scan, i, cancel)
      case Stop(r) => ReadOutcome([], r)
      case Publish(p) =>
        var rest := ReadFrom(ttlSync, scan, i + 1, cancel, closeErr);
        ReadOutcome([p] + rest.published, rest.result)
  }

  /** Read(ctx) on the given scan. */
  function ReadSpec(ttlSync: bool, scan: seq<ScanItem>, cancel: Option<Cancel>,
                    closeErr: Option<string>): ReadOutcome
  {
    ReadFrom(ttlSync, scan, 0, cancel, closeErr)
  }

  /** One unfolding of ReadFrom, for the loop that implements it. */
  lemma ReadFromUnfold(ttlSync: bool, scan: seq<ScanItem>, i: nat, cancel: Option<Cancel>,
                       closeErr: Option<string>)
    requires i < |scan|
    ensures StepAt(ttlSync, scan, i, cancel).Stop? ==>
              ReadFrom(ttlSync, scan, i, cancel, closeErr)
              == ReadOutcome([], StepAt(ttlSync, scan, i, cancel).result)
    ensures StepAt(ttlSync, scan, i, cancel).Publish? ==>
              ReadFrom(ttlSync, scan, i, cancel, closeErr)
              == ReadOutcome([StepAt(ttlSync, scan, i, cancel).payload]
                             + ReadFrom(ttlSync, scan, i + 1, cancel, closeErr).published,
                             ReadFrom(ttlSync, scan, i + 1, cancel, closeErr).result)
  {
  }

  // ---------------------------------------------------------------------
  // Properties.
  // ---------------------------------------------------------------------

  /**
   * From iteration i, the published payloads are those of the iterations
   * that publish, in scan order, up to the first iteration that stops; the
   * result is that iteration's, or the close result if none stops.
   */
  lemma {:induction false} ReadFromShape(ttlSync: bool, scan: seq<ScanItem>, i: nat,
                                         cancel: Option<Cancel>, closeErr: Option<string>)
    requires i <= |scan|
    ensures var o := ReadFrom(ttlSync, scan, i, cancel, closeErr);
            && (forall k :: i <= k < i + |o.published| ==>
                  StepAt(ttlSync, scan, k, cancel) == Publish(o.published[k - i]))
            && (i + |o.published| < |scan| ==>
                  StepAt(ttlSync, scan, i + |o.published|, cancel) == Stop(o.result))
            && (i + |o.published| == |scan| ==> o.result == CloseResult(closeErr))
    decreases |scan| - i
  {
    if i < |scan| && StepAt(ttlSync, scan, i, cancel).Publish? {
      ReadFromShape(ttlSync, scan, i + 1, cancel, closeErr);
      var o := ReadFrom(ttlSync, scan, i, cancel, closeErr);
      var rest := ReadFrom(ttlSync, scan, i + 1, cancel, closeErr);
      forall k | i <= k < i + |o.published|
        ensures StepAt(ttlSync, scan, k, cancel) == Publish(o.published[k - i])
      {
        if k > i {
          assert o.published[k - i] == rest.published[k - (i + 1)];
        }
      }
    }
  }

  /**
   * Read publishes in scan order: payload j carries scan key j, the blob
   * DUMP returned for it and the TTL maybeTTL resolved for it.
   */
  lemma ReadPublishesInScanOrder(ttlSync: bool, scan: seq<ScanItem>, cancel: Option<Cancel>,
                                 closeErr: Option<string>)
    ensures var pub := ReadSpec(ttlSync, scan, cancel, closeErr).published;
            && |pub| <= |scan|
            && forall j :: 0 <= j < |pub| ==>
                 && !CancelsAt(cancel, j)
                 && pub[j].key == scan[j].key
                 && scan[j].dump == Value(pub[j].value)
                 && MaybeTTL(ttlSync, scan[j].key, scan[j].pttl) == Ok(pub[j].ttl)
  {
    ReadFromShape(ttlSync, scan, 0, cancel, closeErr);
    var pub := ReadSpec(ttlSync, scan, cancel, closeErr).published;
    forall j | 0 <= j < |pub|
      ensures !CancelsAt(cancel, j) && pub[j].key == scan[j].key && scan[j].dump == Value(pub[j].value)
              && MaybeTTL(ttlSync, scan[j].key, scan[j].pttl) == Ok(pub[j].ttl)
    {
      assert StepAt(ttlSync, scan, j, cancel) == Publish(pub[j]);
    }
  }

  /**
   * If the first iteration to stop is i (because DUMP fails, maybeTTL
   * fails or cancellation wins), exactly the payloads of keys 0 .. i-1 are
   * published and Read returns that iteration's result: a DUMP error or a
   * TTL error naming key i, or the cancellation result.
   */
  lemma ReadStopsAtFirstFailure(ttlSync: bool, scan: seq<ScanItem>, cancel: Option<Cancel>,
                                closeErr: Option<string>, i: nat)
    requires i < |scan|
    requires forall j :: 0 <= j < i ==> StepAt(ttlSync, scan, j, cancel).Publish?
    requires StepAt(ttlSync, scan, i, cancel).Stop?
    ensures var o := ReadSpec(ttlSync, scan, cancel, closeErr);
            && |o.published| == i
            && (forall j :: 0 <= j < i ==> o.published[j] == StepAt(ttlSync, scan, j, cancel).payload)
            && (scan[i].dump.Failed? ==> o.result == Some(DumpFailed(scan[i].key, scan[i].dump.cause)))
            && (scan[i].dump.Value? && ttlSync && scan[i].pttl.Failed? ==>
                  o.result == Some(TtlSyncFailed(scan[i].key, PttlFailed(scan[i].key, scan[i].pttl.cause))))
            && (scan[i].dump.Value? && (!ttlSync || scan[i].pttl.Value?) ==>
                  CancelsAt(cancel, i) && o.result == ReadCancelResult(cancel.value.ctxErr))
  {
    ReadFromShape(ttlSync, scan, 0, cancel, closeErr);
    var o := ReadSpec(ttlSync, scan, cancel, closeErr);
    forall j | 0 <= j < i ensures o.published[j] == StepAt(ttlSync, scan, j, cancel).payload {
      assert StepAt(ttlSync, scan, j, cancel) == Publish(o.published[j]);
    }
  }

  /** If no iteration stops, every key is published and Read returns scanner.Close()'s error. */
  lemma ReadCompletes(ttlSync: bool, scan: seq<ScanItem>, cancel: Option<Cancel>, closeErr: Option<string>)
    requires forall j :: 0 <= j < |scan| ==> StepAt(ttlSync, scan, j, cancel).Publish?
    ensures var o := ReadSpec(ttlSync, scan, cancel, closeErr);
            && |o.published| == |scan|
            && (forall j :: 0 <= j < |scan| ==> o.published[j] == StepAt(ttlSync, scan, j, cancel).payload)
            && o.result == CloseResult(closeErr)
  {
    ReadFromShape(ttlSync, scan, 0, cancel, closeErr);
    var o := ReadSpec(ttlSync, scan, cancel, closeErr);
    forall j | 0 <= j < |scan| ensures o.published[j] == StepAt(ttlSync, scan, j, cancel).payload {
      assert StepAt(ttlSync, scan, j, cancel) == Publish(o.published[j]);
    }
  }

  /** With TTL sync off, every published payload has TTL "0". */
  lemma ReadTtlDisabled(scan: seq<ScanItem>, cancel: Option<Cancel>, closeErr: Option<string>)
    ensures forall p :: p in ReadSpec(false, scan, cancel, closeErr).published ==> p.ttl == Persistent
  {
    ReadPublishesInScanOrder(false, scan, cancel, closeErr);
  }

  /**
   * Read returns nil only on a clean scan exhaustion or on a cancellation
   * whose ctx.Err() is nil; with a Go context, whose Err() is never nil
   * after Done, a cancelled Read always returns an error.
   */
  lemma ReadNilOnlyOnSuccess(ttlSync: bool, scan: seq<ScanItem>, cancel: Option<Cancel>,
                             closeErr: Option<string>)
    requires IsGoContext(cancel)
    ensures var o := ReadSpec(ttlSync, scan, cancel, closeErr);
            o.result.None? <==> |o.published| == |scan| && closeErr.None?
  {
    ReadFromShape(ttlSync, scan, 0, cancel, closeErr);
  }
}
