/**
 * The Redis struct and its two loops. The pool's network calls are not
 * made: Read receives the scan as a sequence of keys with the outcome of
 * each key's DUMP and PTTL call and the result of scanner.Close(); Write
 * receives the RESTORE failures by position on the bus and keeps the
 * destination's contents in `store`. Cancellation is the iteration where
 * ctx.Done() wins the select.
 */
module Redis {
  import opened Wrappers
  import opened StrConv
  import opened Outcomes
  import opened Message
  import opened Ttl
  import opened Reader
  import opened Writer

  class Redis {
    /** The bus; Write sets it to null once it is closed and drained. */
    var bus: Bus?
    /** The contents of the store behind Pool, as RESTORE leaves them. */
    var store: Db
    /** Suppresses per-key log lines; logging is not modelled, so it changes nothing. */
    const silent: bool
    /** TTL sync. */
    const ttlSync: bool

    /**
     * Read: for each scanned key, DUMP it, resolve its TTL and publish the
     * payload unless cancellation wins; stop at the first failure. The
     * deferred close(r.Bus) runs on every exit, so the bus ends closed,
     * closed once by this call.
     */
    method Read(scan: seq<ScanItem>, cancel: Option<Cancel>, closeErr: Option<string>)
      returns (err: Option<Error>)
      requires bus != null && bus.Valid() && !bus.closed
      modifies bus
      ensures bus.Valid() && bus.closed && bus.closes == old(bus.closes) + 1
      ensures bus.queue == old(bus.queue) + ReadSpec(ttlSync, scan, cancel, closeErr).published
      ensures err == ReadSpec(ttlSync, scan, cancel, closeErr).result
    {
      ghost var spec := ReadSpec(ttlSync, scan, cancel, closeErr);
      ghost var sent: seq<Payload> := [];
      var i := 0;
      var stopped := false;
      err := None;
      while i < |scan| && !stopped
        invariant i <= |scan|
        invariant bus.Valid() && !bus.closed && bus.closes == old(bus.closes)
        invariant bus.queue == old(bus.queue) + sent
        invariant !stopped ==> spec.published == sent + ReadFrom(ttlSync, scan, i, cancel, closeErr).published
        invariant !stopped ==> spec.result == ReadFrom(ttlSync, scan, i, cancel, closeErr).result
        invariant stopped ==> spec == ReadOutcome(sent, err)
        decreases |scan| - i, !stopped
      {
        ReadFromUnfold(ttlSync, scan, i, cancel, closeErr);
        var item := scan[i];
        match item.dump {
          case Failed(cause) =>
            err := Some(DumpFailed(item.key, cause));
            stopped := true;
            assert StepAt(ttlSync, scan, i, cancel) == Stop(err);
          case Value(value) =>
            var ttl := MaybeTTL(ttlSync, item.key, item.pttl);
            if ttl.Err? {
              err := Some(TtlSyncFailed(item.key, ttl.error));
              stopped := true;
              assert StepAt(ttlSync, scan, i, cancel) == Stop(err);
            } else if CancelsAt(cancel, i) {
              err := ReadCancelResult(cancel.value.ctxErr);
              stopped := true;
              assert StepAt(ttlSync, scan, i, cancel) == Stop(err);
            } else {
              var p := Payload(item.key, value, ttl.value);
              assert StepAt(ttlSync, scan, i, cancel) == Publish(p);
              bus.Send(p);
              sent := sent + [p];
              i := i + 1;
            }
        }
      }
      if !stopped {
        err := CloseResult(closeErr);
      }
      bus.Close();
    }

    /**
     * Write: until the bus reference is nil, select between cancellation
     * and a receive; a closed, drained bus sets the reference to nil; a
     * payload whose TTL does not parse or is negative is skipped; any other
     * is restored with REPLACE, and a RESTORE failure is returned at once.
     * The bus must already be closed: the reader has run to its end.
     */
    method Write(cancel: Option<Cancel>, fails: map<nat, string>) returns (err: Option<Error>)
      requires bus != null ==> bus.Valid() && bus.closed
      modifies this, bus
      ensures old(bus) == null ==> bus == null && store == old(store) && err.None?
      ensures old(bus) != null ==>
                var o := WriteSpec(old(store), old(bus.queue), cancel, fails);
                && store == o.db
                && err == o.result
                && bus == (if o.drained then null else old(bus))
                && old(bus).queue == old(bus.queue)[o.consumed..]
                && old(bus).Valid() && old(bus).closed && old(bus).closes == old(bus.closes)
    {
      err := None;
      if bus == null {
        return;
      }
      ghost var ch := bus;
      ghost var q := bus.queue;
      ghost var spec := WriteSpec(store, q, cancel, fails);
      var received: nat := 0;
      while bus != null
        invariant bus == null || bus == ch
        invariant ch.Valid() && ch.closed && ch.closes == old(ch.closes)
        invariant received <= |q| && ch.queue == q[received..]
        invariant bus != null ==> WriteFrom(store, q, received, cancel, fails) == spec
        invariant bus == null ==> spec == WriteOutcome(store, |q|, true, None) && received == |q|
        invariant err.None?
        decreases |ch.queue| + (if bus == null then 0 else 1)
      {
        if CancelsAt(cancel, received) {
          err := WriteCancelResult(cancel.value.ctxErr);
          return;
        }
        var p, ok := bus.Receive();
        if !ok {
          bus := null;
          continue;
        }
        var index := received;
        received := received + 1;
        match ParseInt(p.ttl) {
          case Err(_) =>
            continue;
          case Ok(parsed) =>
            if parsed < 0 {
              continue;
            }
        }
        if index in fails {
          err := Some(RestoreFailed(p.key, fails[index]));
          return;
        }
        store := store[p.key := Entry(p.value, p.ttl)];
      }
    }
  }
}
