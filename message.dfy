/**
 * The payload and the bus shared by reader and writer. The message package
 * itself is not part of this model; both are modelled from their use in
 * redis.go: a Payload carries the key, the DUMP blob and the TTL text, and
 * the bus is a FIFO channel that only the reader sends on and closes.
 */
module Message {
  datatype Payload = Payload(key: string, value: string, ttl: string)

  /** What a receive yields on a closed and drained channel: Go's zero Payload. */
  const ZeroPayload := Payload("", "", "")

  /**
   * The channel: the payloads sent and not yet received, in send order,
   * and whether it has been closed. Closing a closed channel panics in Go,
   * so Close requires an open bus, and `closes` counts the closes made.
   */
  class Bus {
    var queue: seq<Payload>
    var closed: bool
    ghost var closes: nat

    ghost predicate Valid()
      reads this
    {
      closes == if closed then 1 else 0
    }

    /** bus <- p; a send on a closed channel panics, so the bus must be open. */
    method Send(p: Payload)
      requires Valid() && !closed
      modifies this
      ensures Valid() && !closed && closes == old(closes)
      ensures queue == old(queue) + [p]
    {
      queue := queue + [p];
    }

    /** close(bus) */
    method Close()
      requires Valid() && !closed
      modifies this
      ensures Valid() && closed && closes == old(closes) + 1
      ensures queue == old(queue)
    {
      closed := true;
      closes := closes + 1;
    }

    /**
     * p, ok := <-bus. A receive on an open empty channel blocks until the
     * reader sends or closes, which a sequential model cannot show, so the
     * bus must hold a payload or be closed.
     */
    method Receive() returns (p: Payload, ok: bool)
      requires Valid() && (closed || |queue| > 0)
      modifies this
      ensures Valid() && closed == old(closed) && closes == old(closes)
      ensures ok <==> |old(queue)| > 0
      ensures ok ==> p == old(queue)[0] && queue == old(queue)[1..]
      ensures !ok ==> p == ZeroPayload && queue == old(queue)
    {
      if |queue| > 0 {
        p, ok := queue[0], true;
        queue := queue[1..];
      } else {
        p, ok := ZeroPayload, false;
      }
    }
  }
}
