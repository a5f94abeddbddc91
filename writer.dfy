/**
 * The writer side as a function of its inputs: the payloads the bus
 * delivers, in order, the point where cancellation wins the receive
 * select, and which RESTORE calls fail. The destination store is a map
 * from key to the blob and TTL text RESTORE was given.
 */
module Writer {
  import opened Wrappers
  import opened Outcomes
  import opened Message
  import opened Ttl
  import opened StrConv

  /** What a key holds in the destination after RESTORE key ttl value REPLACE. */
  datatype Entry = Entry(value: string, ttl: string)

  type Db = map<string, Entry>

  /**
   * The loop's end state: the destination, how many payloads were taken
   * off the bus, whether the bus was seen closed and drained (r.Bus = nil),
   * and the error Write returns (None is nil).
   */
  datatype WriteOutcome = WriteOutcome(db: Db, consumed: nat, drained: bool, result: Option<Error>)

  /** What Write returns when ctx.Done() wins the select. */
  function WriteCancelResult(ctxErr: Option<string>): Option<Error> {
    if ctxErr.Some? then Some(WriteCancelled(ctxErr.value)) else None
  }

  /**
   * The loop from iteration i on, with q the payloads the bus delivers and
   * `fails` the RESTORE failures, by position in q. Iteration i first
   * selects: on cancelation it returns; on a closed, drained bus the loop
   * ends; otherwise it takes q[i], skips it if its TTL does not parse or is
   * negative, and otherwise restores it with REPLACE or returns the failure.
   */
  function WriteFrom(db: Db, q: seq<Payload>, i: nat, cancel: Option<Cancel>,
                     fails: map<nat, string>): (o: WriteOutcome)
    requires i <= |q|
    ensures i <= o.consumed <= |q|
    decreases |q| - i
  {
    if CancelsAt(cancel, i) then WriteOutcome(db, i, false, WriteCancelResult(cancel.value.ctxErr))
    else if i == |q| then WriteOutcome(db, i, true, None)
    else
      var p := q[i];
      match ParseInt(p.ttl)
      case Err(_) => WriteFrom(db, q, i + 1, cancel, fails)
      case Ok(parsed) =>
        if parsed < 0 then WriteFrom(db, q, i + 1, cancel, fails)
        else if i in fails then WriteOutcome(db, i + 1, false, Some(RestoreFailed(p.key, fails[i])))
        else WriteFrom(db[p.key := Entry(p.value, p.ttl)], q, i + 1, cancel, fails)
  }

  /** Write(ctx) on a bus that delivers q. */
  function WriteSpec(db: Db, q: seq<Payload>, cancel: Option<Cancel>, fails: map<nat, string>): WriteOutcome {
    WriteFrom(db, q, 0, cancel, fails)
  }

  // ---------------------------------------------------------------------
  // Reference definitions.
  // ---------------------------------------------------------------------

  /** Payload p is applied to key k: it names k and its TTL is accepted. */
  predicate Hits(p: Payload, k: string) {
    p.key == k && AcceptedTtl(p.ttl)
  }

  /** One payload applied without failure: RESTORE with REPLACE if its TTL is accepted, nothing otherwise. */
  function Apply(db: Db, p: Payload): Db {
    if AcceptedTtl(p.ttl) then db[p.key := Entry(p.value, p.ttl)] else db
  }

  /** The destination after applying, in order and without failures, every payload whose TTL is accepted. */
  function Restored(db: Db, ps: seq<Payload>): Db
    decreases |ps|
  {
    if ps == [] then db else Apply(Restored(db, ps[..|ps| - 1]), ps[|ps| - 1])
  }

  /** Iteration i ends the loop early: cancellation wins, or an accepted payload's RESTORE fails. */
  predicate StopsAt(q: seq<Payload>, i: nat, cancel: Option<Cancel>, fails: map<nat, string>) {
    CancelsAt(cancel, i) || (i < |q| && AcceptedTtl(q[i].ttl) && i in fails)
  }

  /** The first iteration from i on that ends the loop early, or |q| if none does. */
  function FirstStop(q: seq<Payload>, i: nat, cancel: Option<Cancel>, fails: map<nat, string>): (s: nat)
    requires i <= |q|
    ensures i <= s <= |q|
    ensures forall j :: i <= j < s ==> !StopsAt(q, j, cancel, fails)
    ensures s < |q| ==> StopsAt(q, s, cancel, fails)
    decreases |q| - i
  {
    if i == |q| || StopsAt(q, i, cancel, fails) then i else FirstStop(q, i + 1, cancel, fails)
  }

  // ---------------------------------------------------------------------
  // Properties.
  // ---------------------------------------------------------------------

  lemma RestoredStep(db: Db, q: seq<Payload>, i: nat)
    requires i < |q|
    ensures Restored(db, q[..i + 1]) == Apply(Restored(db, q[..i]), q[i])
  {
    assert q[..i + 1][..i] == q[..i];
  }

  lemma RestoredSnoc(db: Db, ps: seq<Payload>, p: Payload)
    ensures Restored(db, ps + [p]) == Apply(Restored(db, ps), p)
  {
  }

  /** The loop from iteration i, started on the restores of q[..i], ends as FirstStop says. */
  lemma {:induction false} WriteFromCharacterised(db: Db, q: seq<Payload>, i: nat,
                                                 cancel: Option<Cancel>, fails: map<nat, string>)
    requires i <= |q|
    ensures var s := FirstStop(q, i, cancel, fails);
            var o := WriteFrom(Restored(db, q[..i]), q, i, cancel, fails);
            && o.db == Restored(db, q[..s])
            && (CancelsAt(cancel, s) ==>
                  o.consumed == s && !o.drained && o.result == WriteCancelResult(cancel.value.ctxErr))
            && (!CancelsAt(cancel, s) && s < |q| ==>
                  o.consumed == s + 1 && !o.drained && o.result == Some(RestoreFailed(q[s].key, fails[s])))
            && (!CancelsAt(cancel, s) && s == |q| ==>
                  o.consumed == |q| && o.drained && o.result.None?)
    decreases |q| - i
  {
    if i < |q| && !StopsAt(q, i, cancel, fails) {
      RestoredStep(db, q, i);
      WriteFromCharacterised(db, q, i + 1, cancel, fails);
    }
  }

  /**
   * Write, on a bus that delivers q, ends at the first iteration s that
   * stops early, or drains the bus: the destination then holds exactly the
   * restores of the accepted payloads before s. On a cancellation Write
   * returns its result; on a RESTORE failure at s it returns that failure
   * naming q[s]'s key; on a drained bus it returns nil.
   */
  lemma WriteSpecCharacterised(db: Db, q: seq<Payload>, cancel: Option<Cancel>, fails: map<nat, string>)
    ensures var s := FirstStop(q, 0, cancel, fails);
            var o := WriteSpec(db, q, cancel, fails);
            && o.db == Restored(db, q[..s])
            && (CancelsAt(cancel, s) ==>
                  o.consumed == s && !o.drained && o.result == WriteCancelResult(cancel.value.ctxErr))
            && (!CancelsAt(cancel, s) && s < |q| ==>
                  o.consumed == s + 1 && !o.drained && o.result == Some(RestoreFailed(q[s].key, fails[s])))
            && (!CancelsAt(cancel, s) && s == |q| ==>
                  o.consumed == |q| && o.drained && o.result.None?)
  {
    assert q[..0] == [];
    WriteFromCharacterised(db, q, 0, cancel, fails);
  }

  /**
   * Without a cancellation or a RESTORE failure, Write drains the bus,
   * returns nil, and leaves the restores of all accepted payloads: payloads
   * with a rejected TTL never end the loop.
   */
  lemma WriteCompletes(db: Db, q: seq<Payload>, fails: map<nat, string>)
    requires forall j :: 0 <= j < |q| && AcceptedTtl(q[j].ttl) ==> j !in fails
    ensures WriteSpec(db, q, None, fails) == WriteOutcome(Restored(db, q), |q|, true, None)
  {
    WriteSpecCharacterised(db, q, None, fails);
    assert q[..|q|] == q;
  }

  /**
   * Write returns nil only when it drains the bus or on a cancellation
   * whose ctx.Err() is nil; with a Go context, whose Err() is never nil
   * after Done, a cancelled Write always returns an error.
   */
  lemma WriteNilOnlyOnDrain(db: Db, q: seq<Payload>, cancel: Option<Cancel>, fails: map<nat, string>)
    requires IsGoContext(cancel)
    ensures WriteSpec(db, q, cancel, fails).result.None? <==> WriteSpec(db, q, cancel, fails).drained
  {
    WriteSpecCharacterised(db, q, cancel, fails);
  }

  /** A key no accepted payload names keeps what it held. */
  lemma {:induction false} RestoredUntouched(db: Db, ps: seq<Payload>, k: string)
    requires forall j :: 0 <= j < |ps| ==> !Hits(ps[j], k)
    ensures k in Restored(db, ps) <==> k in db
    ensures k in db ==> Restored(db, ps)[k] == db[k]
    decreases |ps|
  {
    if ps != [] {
      var init := ps[..|ps| - 1];
      assert forall j :: 0 <= j < |init| ==> init[j] == ps[j];
      RestoredUntouched(db, init, k);
      assert !Hits(ps[|ps| - 1], k);
    }
  }

  /** Last write wins: a key ends with the entry of the last accepted payload naming it. */
  lemma {:induction false} RestoredLastWriteWins(db: Db, ps: seq<Payload>, j: nat)
    requires j < |ps| && AcceptedTtl(ps[j].ttl)
    requires forall j' :: j < j' < |ps| ==> !Hits(ps[j'], ps[j].key)
    ensures ps[j].key in Restored(db, ps)
    ensures Restored(db, ps)[ps[j].key] == Entry(ps[j].value, ps[j].ttl)
    decreases |ps|
  {
    var init := ps[..|ps| - 1];
    var last := ps[|ps| - 1];
    if j < |ps| - 1 {
      assert init[j] == ps[j];
      assert forall j' :: j < j' < |init| ==> init[j'] == ps[j'];
      RestoredLastWriteWins(db, init, j);
      assert !Hits(last, ps[j].key);
    }
  }

  /** Destination keys after the fold: the old keys and the keys of accepted payloads. */
  lemma {:induction false} RestoredKeys(db: Db, ps: seq<Payload>)
    ensures Restored(db, ps).Keys == db.Keys + set j | 0 <= j < |ps| && AcceptedTtl(ps[j].ttl) :: ps[j].key
    decreases |ps|
  {
    if ps != [] {
      var init := ps[..|ps| - 1];
      RestoredKeys(db, init);
      assert forall j :: 0 <= j < |init| ==> init[j] == ps[j];
      var keys := set j | 0 <= j < |ps| && AcceptedTtl(ps[j].ttl) :: ps[j].key;
      var initKeys := set j | 0 <= j < |init| && AcceptedTtl(init[j].ttl) :: init[j].key;
      if AcceptedTtl(ps[|ps| - 1].ttl) {
        assert keys == initKeys + {ps[|ps| - 1].key};
      } else {
        assert keys == initKeys;
      }
    }
  }

  /** A payload whose TTL is rejected changes nothing: the fold with it removed is the same. */
  lemma {:induction false} RestoredSkipsRejected(db: Db, ps: seq<Payload>, j: nat)
    requires j < |ps| && !AcceptedTtl(ps[j].ttl)
    ensures Restored(db, ps) == Restored(db, ps[..j] + ps[j + 1..])
    decreases |ps|
  {
    var rest := ps[..j] + ps[j + 1..];
    if j == |ps| - 1 {
      assert rest == ps[..|ps| - 1];
    } else {
      var init := ps[..|ps| - 1];
      var last := ps[|ps| - 1];
      var initRest := init[..j] + init[j + 1..];
      assert ps == init + [last];
      assert rest == initRest + [last];
      calc {
        Restored(db, ps);
        == { RestoredSnoc(db, init, last); }
        Apply(Restored(db, init), last);
        == { RestoredSkipsRejected(db, init, j); }
        Apply(Restored(db, initRest), last);
        == { RestoredSnoc(db, initRest, last); }
        Restored(db, rest);
      }
    }
  }
}
