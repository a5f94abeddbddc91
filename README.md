# rump: Redis key-space copy, reader and writer loops

This project models the core of `pkg/redis/redis.go` in rump, a tool that copies every key of one
Redis instance into another. Two parts run against one shared bus of `Payload{Key, Value, TTL}`:

- the **reader** (`Read`) scans the source keys. For each key it takes the `DUMP` blob, resolves
  the TTL through `maybeTTL` and publishes the payload on the bus. It stops at the first failure or
  at cancellation, and it always closes the bus.
- the **writer** (`Write`) receives payloads until the bus is closed and drained. It checks each
  TTL with `strconv.ParseInt(ttl, 10, 64)`. It skips a payload whose TTL fails to parse or is
  negative. It restores every other payload with `RESTORE key ttl value REPLACE`, and the first
  failed `RESTORE` aborts.

Files, one module each:

- `wrappers.dfy`: `Option` and `Result`.
- `strconv.dfy`: Go's `ParseInt(s, 10, 64)`, following its algorithm (sign, digit loop, uint64
  then int64 range checks), and decimal formatting of integers. It also gives a reference meaning
  for decimal numerals, proves `ParseInt` against it, and proves the parse/format round trip.
- `message.dfy`: `Payload` and the `Bus` class, a FIFO channel with `Send`, `Close` and `Receive`.
  `Bus` records that it is closed and how many times it was closed.
- `outcomes.dfy`: the abstract outcome of a store call (`Reply`). Also the errors the two loops
  return, and cancellation (`Cancel`): the loop iteration in which `ctx.Done()` wins the `select`,
  and what `ctx.Err()` then returns.
- `ttl.dfy`: `maybeTTL` and the writer's TTL check, with lemmas connecting them.
- `reader.dfy`: `ReadSpec`, which gives the payloads `Read` publishes and the error it returns as a
  function of the scan. Also lemmas on order, the prefix published before a failure, completion and
  TTLs.
- `writer.dfy`: `WriteSpec`, which is the same for `Write`. It comes with an independent reference:
  `Restored` is the last-write-wins fold of the accepted payloads, and `FirstStop` is the first
  iteration that ends the loop early. Lemmas tie `WriteSpec` to the reference.
- `redis.dfy`: the `Redis` class. It has fields `bus`, `store`, `silent` and `ttlSync`. Its `Read`
  and `Write` are while-loops proved against `ReadSpec` and `WriteSpec`. As in Go, `Write` sets its
  `bus` field to null when the bus is closed and drained, and that null ends its loop.
- `migration.dfy`: reader and writer together. The writer receives exactly what the reader
  published, in order. The end-to-end lemmas cover this and the two example migrations.

Oracles stand in for the network calls. `Read` takes a sequence of `ScanItem(key, dump, pttl)`:
the keys `scanner.Next` yields, in order, with the reply or failure of each key's `DUMP` and `PTTL`
call. It also takes the result of `scanner.Close()`. `Write` takes a map from a payload's position
on the bus to the cause of a failed `RESTORE`. Both take an optional `Cancel`.

Two behaviours of the code are easy to misread:

- On cancellation the code returns `ctx.Err()` wrapped when it is non-nil, and nil otherwise
  (redis.go:95-99, 116-120). It may look as if a clean cancellation returns nil, but a Go
  context's `Err()` is never nil once `Done()` is closed. So with a real context both loops
  return an error when cancelled. The model keeps the code's branch: `ctxErr` is an `Option`.
  `ReadNilOnlyOnSuccess` and `WriteNilOnlyOnDrain` prove that under Go's context guarantee
  (`IsGoContext`), nil means a completed scan or a drained bus.
- A published TTL is not always `"0"` or non-negative: the code only rewrites `"-1"`
  (redis.go:59-61). Any other reply passes through, for example `"-2"`, which Redis returns for a
  key that expired after the scan saw it. The writer then skips that key
  (`Ttl.OtherNegativeTtlRejected`).

## Model

| member | source | states |
|---|---|---|
| `StrConv.ParseIntCorrect` | pkg/redis/redis.go:130 | `ParseInt(s, 10, 64)` succeeds exactly when `s` is an optional sign followed by at least one digit and its signed value lies in int64; on success it returns that value (both directions) |
| `StrConv.ParseUintCorrect` | pkg/redis/redis.go:130 | the unsigned digit loop inside `ParseInt` accepts exactly a non-empty digit string whose value fits in uint64, and returns that value |
| `StrConv.ParseFormatRoundTrip` | pkg/redis/redis.go:130 | the decimal text of every int64 (as Redis writes an integer reply) parses back to the same value |
| `Ttl.MaybeTTL` | pkg/redis/redis.go:43-64 | with TTL sync off the result is `"0"` whatever the PTTL outcome would be; the result is an error exactly when sync is on and PTTL fails, and the error names the key |
| `Ttl.DisabledTtlAccepted` | pkg/redis/redis.go:45-47 | with TTL sync off `maybeTTL` yields `"0"`, which the writer accepts and parses as 0 (no expiry) |
| `Ttl.ResolvedTtlAccepted` | pkg/redis/redis.go:52-63 | with sync on, a PTTL integer reply t >= -1 resolves to a TTL the writer accepts, meaning t ms, or 0 when t = -1 (no expiry) |
| `Ttl.OtherNegativeTtlRejected` | pkg/redis/redis.go:57-63 | a PTTL reply below -1 passes `maybeTTL` unchanged, and the writer's check rejects it |
| `Ttl.AcceptedTtlCorrect` | pkg/redis/redis.go:130-137 | the writer accepts a TTL exactly when it is a signed decimal numeral with value in 0 .. 2^63-1: no error from `ParseInt` and not negative |
| `Reader.ReadFrom` | pkg/redis/redis.go:81-105 | the loop from iteration i publishes at most one payload per remaining scanned key |
| `Reader.ReadFromShape` | pkg/redis/redis.go:81-105 | from iteration i, what is published is the payloads of the iterations that publish, in order, up to the first iteration that stops; the result is that iteration's error, or the close result when no iteration stops |
| `Reader.ReadPublishesInScanOrder` | pkg/redis/redis.go:81-102 | payload j on the bus carries scan key j, the blob its DUMP returned and the TTL `maybeTTL` resolved for it, and cancellation did not fire at iteration j |
| `Reader.ReadStopsAtFirstFailure` | pkg/redis/redis.go:82-99 | if key i is the first to stop, exactly the payloads of keys 0..i-1 are published. The result is a DUMP error or a TTL error naming key i, or else the cancellation result, and the pending payload is not published |
| `Reader.ReadCompletes` | pkg/redis/redis.go:81-105 | if no key stops, every key's payload is published in scan order and `Read` returns `scanner.Close()`'s result |
| `Reader.ReadTtlDisabled` | pkg/redis/redis.go:44-47 | with TTL sync off, every published payload has TTL `"0"` |
| `Reader.ReadNilOnlyOnSuccess` | pkg/redis/redis.go:92-99 | with a Go context, `Read` returns nil exactly when every key was published and `scanner.Close()` returned nil |
| `Writer.WriteFrom` | pkg/redis/redis.go:111-146 | the loop from iteration i on takes between i and all of the remaining payloads off the bus |
| `Writer.FirstStop` | pkg/redis/redis.go:111-142 | the first iteration at or after i where cancellation wins or an accepted payload's RESTORE fails; no iteration before it stops |
| `Writer.WriteFromCharacterised` | pkg/redis/redis.go:111-148 | started from the restores of the first i payloads, the loop ends at `FirstStop` with the restores of the payloads before it. The cancellation result, the RESTORE failure naming that payload, or nil after draining the bus |
| `Writer.WriteSpecCharacterised` | pkg/redis/redis.go:111-148 | `Write` leaves exactly the restores of the accepted payloads before the first stopping iteration. It returns that iteration's cancellation result or RESTORE failure (naming the key), or nil once the closed bus is drained |
| `Writer.WriteCompletes` | pkg/redis/redis.go:122-148 | with no cancellation and no RESTORE failure, `Write` consumes the whole bus and returns nil; the destination is the fold of all accepted payloads, so skipped payloads never end the loop |
| `Writer.WriteNilOnlyOnDrain` | pkg/redis/redis.go:114-127 | with a Go context, `Write` returns nil exactly when it found the bus closed and drained |
| `Writer.RestoredUntouched` | pkg/redis/redis.go:139 | a key that no accepted payload names keeps its presence and its entry |
| `Writer.RestoredLastWriteWins` | pkg/redis/redis.go:139 | RESTORE with REPLACE: a key ends with the value and TTL of the last accepted payload naming it |
| `Writer.RestoredKeys` | pkg/redis/redis.go:139 | the destination's keys afterwards are its old keys plus the keys of the accepted payloads |
| `Writer.RestoredSkipsRejected` | pkg/redis/redis.go:130-137 | removing a payload whose TTL is rejected does not change the final destination |
| `Message.Bus.Send` | pkg/redis/redis.go:100 | sending on the open bus appends the payload at the end of the queue |
| `Message.Bus.Close` | pkg/redis/redis.go:71 | closing an open bus marks it closed, counts one close and keeps the queue |
| `Message.Bus.Receive` | pkg/redis/redis.go:122-127 | a receive takes the oldest payload, or reports `ok == false` with the zero payload on a closed, drained bus |
| `Redis.Redis.Read` | pkg/redis/redis.go:70-106 | the bus gains exactly `ReadSpec`'s payloads in order, `Read` returns `ReadSpec`'s result, and the bus ends closed, closed once by this call, on every exit path |
| `Redis.Redis.Write` | pkg/redis/redis.go:109-149 | the store becomes `WriteSpec`'s destination and `Write` returns its result. The bus loses exactly the payloads received. The bus field becomes null exactly when the closed bus was drained, and a null bus returns nil with nothing changed |
| `Migration.MigrationCopiesEveryKey` | pkg/redis/redis.go:81-148 | with every DUMP succeeding, integer PTTL replies of -1 or more, no cancellation and no RESTORE failure, every published TTL is accepted and `Write` returns nil. Each scanned key ends with the blob and normalised TTL of its last scan occurrence |
| `Migration.MigrationLeavesOtherKeys` | pkg/redis/redis.go:139 | in such a migration a key the scan never yields keeps what the destination held |
| `Migration.ScenarioTtlSync` | pkg/redis/redis.go:57-63 | keys a (5000 ms left) and b (no expiry), copied with TTL sync on, arrive as a with TTL `"5000"` and b with `"0"` |
| `Migration.ScenarioCorruptTtlSkipped` | pkg/redis/redis.go:134-137 | a payload whose TTL is `"-1"` is skipped, the keys around it are restored and `Write` returns nil |

## Left out

- The radix pool, `radix.NewScanner`/`ScanAllKeys` cursor mechanics and the DUMP/PTTL/RESTORE wire
  encoding: these are network calls into a library. The model replaces them with the per-key
  outcomes in `ScanItem`, the positions in `Write`'s failure map and the `closeErr` parameter.
- Goroutines and the `select` race between `ctx.Done()` and the bus: the model has no concurrency.
  Cancellation is the iteration in which `Done` wins. `Write` runs on a bus that is already closed,
  as after the reader has finished. A receive that blocks on an open, empty bus cannot be expressed
  in a sequential model.
- `Redis.Redis.Write`: requires a closed bus, for the reason above. The source only blocks in that
  case, and never fails.
- `maybeLog` and every `fmt.Print*` line: they only produce output. `silent` is kept as a field and
  has no effect.
- The `New` constructor: it only assigns fields.
- The text of error messages, including the malformed `%W` verb: each error records the key and
  the step that failed, and keeps the cause.
- `maybeTTL` returns a partly decoded `ttl` beside a PTTL error. `Read` discards that value, so the
  model returns only the error.
- `StrConv.ParseInt`: it does not return the clamped value Go reports beside a range error. The
  writer only checks whether there was an error.
- The message package is not part of this model. `Payload` and the bus are modelled from how
  redis.go uses them. Keys and blobs are `string`, that is sequences of characters rather than
  bytes, and the model never looks inside them.
- The scanner is not closed when `Read` returns early, and the model has no resource state to show
  this.
