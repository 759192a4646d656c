# PocketSkynet: verified models of the server and protocol core

This Dafny project models the parts of the repository where several pieces of state have to agree, or
where an encoding has to be read back exactly, and proves what they promise.

| area | modules |
|---|---|
| sequenced, rotating, crash-recovering event log | `LogModel`, `LogSafety`, `LogClock`, `LogText`, `Jsonl` |
| realtime hub: connections, lookup tables, presence, beacons | `HubModel`, `HubIndex`, `PresenceSafety`, `Audience`, `Hub` |
| what a client receives across a reconnection | `Delivery`, `Resume`, `ResumeLimits`, `Publishers`, `SendOrder`, `TwoStepResume`, `TwoStepHandover` |
| RLP, EIP-155 payloads, decimal amounts, ABI encoding | `Bytes`, `Rlp`, `Amount`, `Abi` |
| password generator and daily orders | `Password`, `Generator`, `Weights`, `Progression` |
| rate limiter and transfer telemetry | `RateLimit`, `Metrics` |
| MAC framing and verify-then-decrypt | `Framing`, `KeyWrap` |

`Wrappers`, `Sets`, `Arith`, `Text` and `Events` hold shared vocabulary. Objects that the program updates in
place (`JsonlLog`, `Hub`, `ConnHandle`, `RateLimiter`, `TransferMetrics`) are classes whose methods are
proved against functions on values. The theorems are about runs of those functions. Automatic induction is switched off where Dafny would try it, so every
induction is the one written in the lemma's body.

## How the main arguments go

**Log.** A disk is a set of day files and a watermark. Every operation is the list of single disk writes
it makes, so a crash inside it is a prefix of that list. The invariant is that the newest file holds a
record or the watermark has caught up; each write keeps it or is followed by one that restores it. From
it come the exact recovery of the counter, consecutive numbers in every run, and exact replay. With clocks that may
read anything the invariant is lost; what is left of it still decides when the counter can be recovered.
A line may also be bytes that are not text: every reader stops there with an error.

**Hub.** `HubModel` has no indexes: it asks every connection. The class keeps the four redundant
structures and is proved to answer and change state as the index-free model does. Presence theorems are
about runs of the model with a clock that does not go back: time alone only lowers derived presence, so
nobody is ever announced below what their devices add up to, and a sweep makes the two equal. `Audience` says
who is reached, target by target, and follows presence events from each operation to their recipients.

**Resume.** The broadcast stream and the log history carry the same events, so a cursor cuts both at the
same place. Where appending and sending are two steps, every logged event is sent, pending or lost, and the
theorems say exactly which runs still deliver in order and which cuts can be resumed from.

**Encodings.** The decoders written for the proofs are strict: they refuse leading zeros, long forms of short
items and fillers that are not zero. Reading back through them therefore fixes the bytes, not just the values.

**Rate limits.** The windows of a key are characterised without a table: they start with a request, do not
overlap and hold every request, and only one list of windows does. Verdicts are counted against that list.

**Passwords.** The shuffle is undone draw by draw, which lists the draw vectors behind a given password and
counts them.

## Assumptions

- Each public operation is one atomic step with one reading of the clock, and readings do not decrease.
  `register` checks its caps and then acts, so the caps are proved for calls that follow one another.
- Log faults in `LogSafety.RetainedNumbers`: crashes between operations, inside an append or a rotation at any
  single disk write, and inside `open` at any single disk write but one. A line or a watermark reaches the disk
  whole or not at all; UTC days never go back (the source reads the day before it takes the lock,
  app/server/src/jsonl.rs:209-210); one process at a time; only whole oldest files are deleted. Faults outside
  this have exact conditions of their own. From a sound log: the one point inside `open`
  (`LogSafety.CrashInOpenExact`); a torn last line, whether what is left of it parses, does not parse, or is not
  even text (`LogText.TornOpensExactly`, `LogSafety.TornTailExact`). Over whole runs: arbitrary clock readings,
  crashes at any write of an append or of `open`, and deletion of any file (`LogClock.AnyClockRecovers`). Other
  faults are not covered.
- Connection ids come from `next_conn_id` and are not registered twice.
- Database lookups are parameters: a wallet's rooms are given, and an empty list stands for no rooms as
  well as for a failed lookup. Presence events reach the stream only when the list is not empty.
- Ciphers, MACs, curves, hex, base64 and UTF-8 are abstract functions with only the laws stated in
  `Primitives.Lawful`, `Curve.Lawful` and `HexIsAscii`. An ideal MAC is stated for the received pair
  alone: if its tag decodes to the MAC of its input, that input was tagged by one of the honest parties.
- Lengths and offsets of the ABI decoders are 64-bit, as is the signature's `v`; both are written out. A sum that
  leaves 64 bits, and a capacity beyond the largest allocation, abort.

## Where code and documentation disagree

- The log's recovery is exact except in one place: a crash inside `open` after today's file was created and
  before the recovery line is written (app/server/src/jsonl.rs:135, 151). `LogSafety.CrashInOpenExact`
  says exactly when the counter survives; `LogSafety.CrashInOpenReissues` shows number 1 issued twice.
- Startup is promised to survive a torn line (app/server/src/jsonl.rs:580-601). `LogText.TornOpensExactly`: it does
  if and only if what is left of the line is text. A write cut inside a multi-byte character leaves a line at
  which `open` fails before it has written anything, so every later `open` fails as well;
  `LogText.CutCharacterStopsStartup` is a log of one record to which this happens. `LogText.ReplayReadable` gives
  the condition for replays: every retained file is text, or the replay is refused for its length before the
  first line that is not.
- The recovery line says a torn line was truncated (app/server/src/jsonl.rs:155), but nothing truncates it,
  so the next line in the same file merges into the fragment. `LogSafety.TornTailExact`: the next line
  survives exactly if it goes to another file; a fragment that lost only its line end counts as a record
  until then, and the merge costs that record too.
- Appends are stamped before the lock. `LogClock`: one stamped with an earlier day leaves a counter that can
  be recovered exactly if a sync was due, and file-name order stays number order exactly if no later file holds a
  record; `LogClock.EarlierDayFails` is a run across midnight after which both fail.
  `LogClock.AnyClockRecovers` gives the condition over runs.
- The event stream subscribes before it replays, with a comment that the cursor never goes backwards
  (app/server/src/routes/realtime.rs:500-501). `Resume.Handover`: nothing is missed, but the numbers a
  client sees rise exactly when no replayable event it accepts was published between the two;
  `ResumeLimits.HandoverRepeats` is a run in which one was.
- Publishing logs and sends in two steps. `SendOrder.OrderExactly` says when delivery still follows the numbers, and
  `TwoStepResume.ResumeExactly` when what a client received plus a later replay is everything exactly once;
  `SendOrder.OrderCanInvert`, `TwoStepResume.MissedForGood` and `TwoStepResume.RepeatedAfterInversion` are runs
  on which these fail. `TwoStepHandover.HandoverExactly` says which events reach a client that subscribes and then
  replays.
- Malformed call results are promised to give errors (the test at app/core/src/abi.rs:333).
  `Abi.StringReturnsExactly` and `Abi.ArrayReturnsExactly` say when the decoders return at all;
  `Abi.FarOffsetAborts` is a word on which both abort.
- Passwords are documented as uniform over the strings that meet the recipe
  (app/core/src/password.rs:200-202). `Weights.UniformExactly`: that holds exactly when a single class is
  enabled; `Weights.DrawsFor` gives the number of draw vectors for every password.
- A replay over an emptied directory is served although it lacks what was logged before;
  `LogSafety.ReplayExact` and `Resume.ExactResume` carry that case as their condition, and
  `ResumeLimits.EmptiedLogUnderDelivers` is a run that reaches it.
- Signing computes `v` on 64 bits; `Rlp.SignedRoundTrip` gives the chain ids for which it can be read back.

## Model

| member | source | states |
|---|---|---|
| `LogSafety.RetainedNumbers` | app/server/src/jsonl.rs:129-309 | in every run of appends, rotations, flushes, crashes, reopens and deletions of oldest files, retained numbers are consecutive and end at the last ever logged, start at 1 if nothing was deleted, and live and recovered counters are one past the last; crashes may fall inside an append, a rotation or, but for one point, `open` |
| `LogSafety.RecoveryExact` | app/server/src/jsonl.rs:387-444 | watermark plus newest file give the right counter if and only if nothing was logged, the watermark is current, or the newest file holds a record |
| `LogSafety.StepKeeps` | app/server/src/jsonl.rs:201-309 | each step of the log keeps the disk invariant, only extends the history, and loses no line unless a file is deleted |
| `LogSafety.PrefixKeeps` | app/server/src/jsonl.rs:277-309 | a crash after any prefix of safe writes leaves a disk from which recovery is exact |
| `LogSafety.AppendSafe` | app/server/src/jsonl.rs:201-250 | every single write of an append, with or without rotation and sync, is safe where it happens, and the counters stay in step with the disk |
| `LogModel.AppendExactly` | app/server/src/jsonl.rs:201-309 | column by column, what an append leaves: on a new day a record naming the day before, then the caller's values; the watermark passes them exactly if a sync is due, by the clock or after 64 lines, and otherwise stops before a rotation record or stays |
| `LogSafety.OpenSafe` | app/server/src/jsonl.rs:129-161 | opening a sound disk continues the numbering and leaves a sound disk |
| `LogSafety.LoggedPut` | app/server/src/jsonl.rs:229-239 | a written line becomes a record exactly if it does not merge into an unterminated fragment; if the fragment was a record without its line end, that record is lost as well |
| `LogSafety.CrashInOpenExact` | app/server/src/jsonl.rs:133-158 | a crash between creating today's file and the recovery line keeps the counter recoverable if and only if recovery did not come from a scan or the file already existed |
| `LogSafety.CrashInOpenReissues` | app/server/src/jsonl.rs:133-158 | a concrete disk on which that crash hands out number 1 again |
| `LogSafety.CrashInOpenSafe` | app/server/src/jsonl.rs:129-161 | a crash inside `open` at any other point leaves a sound disk |
| `LogSafety.TornRecovery` | app/server/src/jsonl.rs:407-442 | after a torn write recovery works if and only if what is left is text; then it goes on from whatever of it can be read, and reports a torn line if and only if that is nothing |
| `LogSafety.TornTailExact` | app/server/src/jsonl.rs:404-457 | for every fragment: if it is not text, no process opens the log again; otherwise the next process's first line survives, and its number is not reissued, if and only if it goes to another file; in the same file the fragment's own record is lost too and the counter falls back to the last intact line |
| `LogText.TornOpensExactly` | app/server/src/jsonl.rs:129-161 | from every sound disk and for every fragment: opening after the tear succeeds if and only if the fragment is text; if not, the disk stays as it is and no later attempt on any day succeeds |
| `LogText.CutCharacterStopsStartup` | app/server/src/jsonl.rs:407-442 | a sound log of one record that opens, and never again once a second write is cut inside a character |
| `LogText.ReplayReadable` | app/server/src/jsonl.rs:320-356 | a replay can be read if and only if every retained file is text or more than `max` records after the cursor come before the first line that is not |
| `LogText.ReplayReadableInBound` | app/server/src/jsonl.rs:320-356 | with a bound that the retained records do not exceed: if and only if every retained file is text |
| `LogClock.AppendRecovers` | app/server/src/jsonl.rs:209-250 | for any clock reading, the counter can be recovered after an append to a sound log if and only if it was not stamped with an earlier day or was due for a sync |
| `LogClock.AppendInOrder` | app/server/src/jsonl.rs:209-250 | for any clock reading, file-name order is number order after an append to a sound log if and only if it was not stamped with an earlier day or no later file holds a record |
| `LogClock.EarlierDayFails` | app/server/src/jsonl.rs:209-250 | the run the race produces: opened on day 1, one append on day 2, one stamped day 1; recovery gives 3 while the process is at 5, and file-name order is not number order |
| `LogClock.AnyClockRecovers` | app/server/src/jsonl.rs:201-309 | over every run with arbitrary clock readings, crashes at any write and deletion of any file, in which each process started from the right counter: numbers are handed out consecutively, and the next recovery is right if and only if nothing was logged, the watermark is current or the newest file holds the last number |
| `LogSafety.ReplayExact` | app/server/src/jsonl.rs:320-356 | a replay is served if and only if at most `max` records follow the cursor and the cursor reaches the oldest retained one; then it is everything ever logged after the cursor, in order, if and only if something is retained or nothing was missed |
| `LogModel.ReadingFinds` | app/server/src/jsonl.rs:416-434 | reading a file line by line, an unterminated last line included, finds its records, one past the largest number, and whether the end is torn |
| `Jsonl.ScanFile` | app/server/src/jsonl.rs:416-434 | the loop over a file gives one past its largest number and whether its last line that is not blank was torn, or an error if and only if one of its lines is not text |
| `Jsonl.RecoverNextSeq` | app/server/src/jsonl.rs:387-444 | the two loops compute the recovery of the disk: counter, whether the scan was ahead, whether the newest file ends torn, or the error if that file is not text |
| `Jsonl.Open` | app/server/src/jsonl.rs:129-161 | a process starts if and only if the counter can be recovered, with exactly the listed writes; otherwise the error is returned and nothing is written |
| `Jsonl.JsonlLog.constructor` | app/server/src/jsonl.rs:133-161 | with the counters recovered, exactly the listed writes are made: the file, and, if the scan was ahead, a recovery record with the recovered number and the torn flag |
| `Jsonl.JsonlLog.Append` | app/server/src/jsonl.rs:201-250 | an append makes exactly the listed writes in order, returns the number it stamped, moves the counters accordingly, and the last record is the caller's columns under that number and the time of the append |
| `Jsonl.JsonlLog.Rotate` | app/server/src/jsonl.rs:277-309 | a rotation moves the watermark, creates the file, and leaves the back-pointing record in the buffer |
| `Jsonl.JsonlLog.Sync` | app/server/src/jsonl.rs:258-275 | buffered lines reach the file before the watermark moves past them |
| `Jsonl.JsonlLog.Flush` | app/server/src/jsonl.rs:253-256 | between operations only the watermark is left to write |
| `Jsonl.JsonlLog.ReplaySince` | app/server/src/jsonl.rs:320-356 | reading file by file, line by line, with early refusal, computes the replay of the retained records, or the error if a line that is not text comes first |
| `Jsonl.ScanLines` | app/server/src/jsonl.rs:328-347 | one file's lines, given what came before, with the bound, the oldest number, and the stop at a line that is not text |
| `Jsonl.LinesInOrder` | app/server/src/jsonl.rs:358-376 | reading the files by name gives the lines of the log in order |
| `Hub.Hub.Register` | app/server/src/hub.rs:373-404 | admitted exactly within both caps; then the connection enters every table and retires the wallet's beacon, and all tables agree; refused, nothing changes and the error says which cap |
| `Hub.Hub.Unregister` | app/server/src/hub.rs:408-437 | the connection leaves every table and is cancelled; all tables agree; an unknown id changes nothing |
| `Hub.RegisterThenUnregister` | app/server/src/hub.rs:373-437 | registering and unregistering restores connections, wallet table, room table and total |
| `Hub.Hub.SetUserView` | app/server/src/hub.rs:755-785 | exactly the wallet's connections get the view, nothing else about them changes, and the room table agrees with it afterwards |
| `Hub.Hub.CountRecipients` | app/server/src/hub.rs:484-526 | for every target kind the indexed count is the number of connections that a full scan with `accepts` finds |
| `Audience.RecipientsExactly` | app/server/src/hub.rs:130-154 | a block on the origin holds for every target; apart from it a user target reaches exactly the wallet's connections, a room its subscribers, a room with an exception those but the excepted wallet's, several rooms whoever has one of them, and everybody everybody |
| `Audience.ReplayAddressed` | app/server/src/hub.rs:792-829 | a served replay holds exactly the retained events of a lasting kind that would reach a connection with that view: nothing from a blocked origin, and nothing for another wallet or a room the view lacks |
| `Audience.ReplayedExactly` | app/server/src/hub.rs:804-828 | for any records: an event is replayed if and only if a realtime record has exactly its columns, its kind is none of typing, presence, shout and pong, and it would reach such a connection |
| `Audience.InformedExactly` | app/server/src/hub.rs:664-672 | a presence event reaches exactly the connections that share one of its rooms and stand behind no block with the wallet |
| `Hub.Hub.Publish` | app/server/src/hub.rs:444-465 | the event is logged with its number, target, origin and the true fan-out, then broadcast with the same number; stream and log stay the same |
| `Hub.Hub.DerivePresence` | app/server/src/hub.rs:537-559 | the indexed maximum is the most present of all the wallet's connections and its fresh beacon |
| `Hub.Hub.AnnouncePresence` | app/server/src/hub.rs:628-673 | the announced table follows the derived status; the stream stays as it is if that did not move or there is no room to tell, and otherwise grows by one envelope, to those rooms, with the wallet as origin, that carries the derived status |
| `Hub.Hub.PutBeacon` | app/server/src/hub.rs:568-592 | declared on all live connections, or kept as a beacon if there are none, then announced, by at most one envelope to the wallet's rooms in its name |
| `Hub.Hub.NoteActivity` | app/server/src/hub.rs:704-709 | a frame marks its own connection active and announces unless already announced online, by at most one envelope to the wallet's rooms in its name |
| `Hub.Hub.DeclarePresence` | app/server/src/hub.rs:712-715 | a declaration changes its own connection and is announced, also on a handle the hub no longer holds, by at most one envelope to the wallet's rooms in its name |
| `Hub.Hub.Disconnect` | app/server/src/hub.rs:722-728 | the connection goes, then what is left of its holder's presence is announced, by at most one envelope to the holder's rooms in its name; for an unknown id the stream stays as it is |
| `Hub.Hub.SweepPresence` | app/server/src/hub.rs:681-697 | expired beacons go first, then exactly the wallets whose announced status no longer holds are announced, each once: one envelope for each that has a room, in that order, to its own rooms, in its name, with its derived status |
| `Hub.Hub.ReplaySince` | app/server/src/hub.rs:792-829 | the replayable records after the cursor that the current view accepts, in order, or a refusal |
| `HubIndex.CandidatesComplete` | app/server/src/hub.rs:494-520 | whoever accepts an envelope is among the ids the indexes offer for its target |
| `HubIndex.RoomIndexUnique` | app/server/src/hub.rs:373-437 | the room table is determined by the connections: two that agree with them are equal |
| `HubIndex.DroppedUndoes` | app/server/src/hub.rs:408-437 | listing a new id and dropping it restores the wallet table, empty bucket included |
| `HubIndex.TablesAdd` | app/server/src/hub.rs:373-404 | filing an admitted connection keeps all tables in agreement and both caps |
| `HubIndex.TablesDrop` | app/server/src/hub.rs:408-437 | taking a connection out keeps all tables in agreement, with no empty bucket |
| `HubIndex.TablesSwap` | app/server/src/hub.rs:755-785 | moving a connection between the rooms that differ keeps all tables in agreement |
| `PresenceSafety.PresenceTheorem` | app/server/src/hub.rs:537-728 | in every run, at every later time: announced is at least derived; no wallet has both a beacon and a connection; if everybody has a room, the last event about a wallet says what is announced |
| `PresenceSafety.SweepTheorem` | app/server/src/hub.rs:681-697 | in every run, right after a sweep announced and derived are equal for every wallet |
| `PresenceSafety.SweepSettles` | app/server/src/hub.rs:681-697 | the same from any state that meets the invariant, whatever the order of the table; nobody's derived status moves, and exactly the expired beacons are gone |
| `PresenceSafety.DerivedDecays` | app/server/src/hub.rs:537-559 | without input, time only lowers the derived status |
| `PresenceSafety.DerivedExactly` | app/server/src/hub.rs:537-559 | online if and only if a connection that is not declared away was active in the last five minutes or a fresh beacon says so; offline if and only if there is no connection and no fresh beacon that says otherwise |
| `PresenceSafety.StepKeeps` | app/server/src/hub.rs:373-728 | every operation keeps the presence invariants |
| `PresenceSafety.LastConnectionGone` | app/server/src/hub.rs:722-728 | after a disconnect its holder is announced as derived, and is offline at once if and only if it was the last connection |
| `PresenceSafety.BeaconSpeaks` | app/server/src/hub.rs:568-592 | right after a beacon with a status that may be declared the wallet is derived and announced as that, and so is each of its connections |
| `PresenceSafety.ConnectExactly` | app/server/src/hub.rs:373-404 | a connection is admitted if and only if both caps leave room; then it is added, the beacon is gone and the derived status, which is not offline, is announced; a refused one changes nothing |
| `PresenceSafety.ActivityShows` | app/server/src/hub.rs:704-709 | a frame makes its wallet derived and announced online at once; on its own that lasts for exactly five minutes |
| `PresenceSafety.DeclarationShows` | app/server/src/hub.rs:712-715 | after a declaration the wallet is online if and only if it was not declared away or another of its connections is online, never offline, and announced as that |
| `Delivery.ReplayedLikeReceived` | app/server/src/hub.rs:804-828 | records and envelopes with the same wire content replay and deliver the same events to a view |
| `Delivery.AppendWire` | app/server/src/jsonl.rs:201-309 | one append adds its own event to the wire and nothing for a rotation record |
| `Resume.ExactResume` | app/server/src/hub.rs:792-829 | in every run: what a client got up to its cursor followed by a served replay is the uninterrupted stream, in order, with number, target, origin and event, if and only if something is retained or nothing wanted was missed |
| `Resume.Handover` | app/server/src/routes/realtime.rs:475-577 | subscribing, replaying later and then sending every accepted live event misses nothing; the numbers rise if and only if no replayable accepted event was published in between, and then the client gets what it missed followed by everything since |
| `Resume.CursorSplits` | app/server/src/hub.rs:444-465 | a cursor cuts the stream where it cuts the history |
| `Publishers.DeliveredOnRecord` | app/server/src/hub.rs:444-465 | with logging and sending as two steps of many publishers, and crashes between, each delivered envelope has exactly one record, with the same content, and no number is delivered twice |
| `Publishers.FatesAreExclusive` | app/server/src/hub.rs:444-465 | in every interleaving each logged event is sent, pending or lost, and only one of these |
| `SendOrder.OrderExactly` | app/server/src/hub.rs:444-465 | in every interleaving, numbers rise in the order of sending if and only if nobody sends while another publisher holds a lower number that is still to be sent |
| `SendOrder.OneAtATime` | app/server/src/hub.rs:444-465 | at most one publisher between its two steps at a time is enough for that |
| `SendOrder.OrderCanInvert` | app/server/src/hub.rs:444-465 | a run in which number 2 is sent before number 1 |
| `TwoStepResume.ResumeExactly` | app/server/src/hub.rs:444-465 | in every interleaving, for every cut and cursor: what was received up to the cut plus a later served replay is every wanted event exactly once if and only if, at the cut, nothing wanted up to the cursor was pending or lost and nothing beyond it had been received |
| `TwoStepResume.ResumeFromHighest` | app/server/src/hub.rs:792-829 | for a cursor that is the highest number received: if and only if nothing wanted up to it was still unsent |
| `TwoStepResume.MissedForGood` | app/server/src/hub.rs:444-465 | a run in which a client with cursor 2 is never given number 1 |
| `TwoStepResume.RepeatedAfterInversion` | app/server/src/hub.rs:444-465 | a run in which a client whose last event is number 1 is given number 2 twice |
| `TwoStepHandover.HandoverExactly` | app/server/src/routes/realtime.rs:475-577 | in every interleaving, for every cut, subscription and later replay: what was received up to the cut, the replay and the accepted live events contain every wanted event of the log if and only if each wanted number up to the cursor was sent by the cut or since the subscription, and each beyond the replay was sent |
| `TwoStepHandover.HandoverMissesNothing` | app/server/src/routes/realtime.rs:475-577 | a client that had been sent all it wants up to its cursor misses nothing, once nothing beyond the replay is pending or lost |
| `ResumeLimits.HandoverRepeats` | app/server/src/routes/realtime.rs:475-577 | a run in which the hand-over sends an event twice |
| `ResumeLimits.EmptiedLogUnderDelivers` | app/server/src/jsonl.rs:320-356 | a run after which an empty replay is served to a client that missed an event |
| `Rlp.RlpBytes` | app/core/src/chain.rs:478-497 | for what is returned, followed by anything, a strict decoder of the Yellow Paper, Appendix B, gives back the string and the rest |
| `Rlp.RlpList` | app/core/src/chain.rs:500-516 | the header carries the total length of the items that follow |
| `Rlp.RlpEncode` | app/core/src/chain.rs:441-461 | the nine or six fields, each encoded, wrapped in one list; `Rlp.FieldsExactly` says what is read back from it |
| `Rlp.FieldsExactly` | app/core/src/chain.rs:441-475 | both forms of a transaction are read back string by string: each number as the shortest byte string with its value, empty for zero, and recipient, data, r and s as they are |
| `Rlp.BytesRoundTrip` | app/core/src/chain.rs:478-497 | a strict decoder, which refuses leading zeros in lengths and long forms of short items, gets back any byte string of machine length, whatever follows |
| `Rlp.ListRoundTrip` | app/core/src/chain.rs:500-516 | the same decoder gets back any list payload, whatever follows |
| `Rlp.DecodesOnlyEncoded` | app/core/src/chain.rs:466-522 | what that decoder accepts is what the encoder writes: every string and every list payload has one encoding |
| `Rlp.PrefixFree` | app/core/src/chain.rs:466-522 | no encoding is a prefix of another, strings and lists alike |
| `Rlp.StringsRoundTrip` | app/core/src/chain.rs:441-461 | a sequence of encoded strings is split back into the strings |
| `Rlp.TxRoundTrip` | app/core/src/chain.rs:441-461 | a nine-field transaction reads back field by field, by a reader that refuses numbers with leading zeros |
| `Rlp.SigningPayloadReads` | app/core/src/chain.rs:401-404 | what is signed reads back as the six fields, the chain id itself and two empty strings |
| `Rlp.SigningPayloadInjective` | app/core/src/chain.rs:401-404 | signing payloads are equal if and only if transactions, chain id included, are |
| `Rlp.SignedRoundTrip` | app/core/src/chain.rs:428-436 | a signed transaction yields its fields, r and s, these in their shortest form, and yields chain id and parity if and only if `2 * chainId + 35 + parity` fits in 64 bits |
| `Amount.ParseAmount` | app/core/src/chain.rs:210-250 | succeeds if and only if the trimmed input is in the grammar, has at most `decimals` fraction digits and its exact scaled value fits; each error has its exact condition |
| `Amount.GrammarExactly` | app/core/src/chain.rs:210-250 | digits, or digits around one dot that are not both missing, are in the grammar, with the value their places give them |
| `Amount.GrammarOnly` | app/core/src/chain.rs:210-250 | nothing else is |
| `Text.TrimExactly` | app/core/src/chain.rs:211 | trimming leaves exactly what stands between the white ends |
| `Amount.FormatParses` | app/core/src/chain.rs:256-265 | printing then parsing gives back every 128-bit value, for up to 38 decimals |
| `Amount.ParseFormats` | app/core/src/chain.rs:210-265 | parsing then printing gives the normal form of what was typed |
| `Abi.EncodeArgs` | app/core/src/abi.rs:72-96 | the single pass builds heads and tails as laid out |
| `Abi.Layout` | app/core/src/abi.rs:72-96 | offsets are word-aligned; tails follow in argument order without gap or overlap up to the end |
| `Abi.ArgsRoundTrip` | app/core/src/abi.rs:49-96 | a strict decoder, which wants zeros in whatever only fills up a word, gives back every argument by the list of types, for every mix |
| `Abi.EncodingInjective` | app/core/src/abi.rs:72-96 | argument lists of the same types encode equally if and only if they are equal |
| `Abi.ReturnsRead` | app/core/src/abi.rs:112-164 | on an encoding the decoders return: `decode_uint(k)` argument k if it is a uint, `decode_string` a leading string, whatever follows |
| `Abi.WordExactly` | app/core/src/abi.rs:112-126 | a word is read as the number its 32 bytes stand for if that fits in 128 bits; a missing word and one that is too large give different errors |
| `Abi.PartWordsRefused` | app/core/src/abi.rs:132-138 | bytes that are no positive number of whole words are refused by every decoder |
| `Abi.StringReadsExactly` | app/core/src/abi.rs:152-164 | for any bytes, which text `decode_string` gives: offset and length modulo 2^64, alignment and padding unchecked |
| `Abi.ArrayReadsExactly` | app/core/src/abi.rs:168-180 | for any bytes, which list `decode_uint_array` gives |
| `Abi.DecodeUintArray` | app/core/src/abi.rs:168-180 | the loop reads words in order and fails with the first failing word; it aborts where an offset leaves the machine word or the claimed length cannot be allocated |
| `Abi.ArrayRoundTrip` | app/core/src/abi.rs:168-180 | an encoded array return is read back if and only if the decoded one can be allocated, and aborts otherwise |
| `Abi.StringReturnsExactly` | app/core/src/abi.rs:152-164 | `decode_string` returns a value or an error, rather than abort, if and only if neither the offset nor the length beside it leaves the machine word |
| `Abi.ArrayReturnsExactly` | app/core/src/abi.rs:168-180 | the same for `decode_uint_array`: if and only if the offset does not leave the machine word and the claimed length can be allocated |
| `Abi.FarOffsetAborts` | app/core/src/abi.rs:152-180 | a single offset word on which both decoders abort |
| `Password.NoModuloBias` | app/core/src/password.rs:180-196 | of the 256 bytes equally many draw each outcome, and `256 % n` are rejected |
| `Password.FirstByteDecides` | app/core/src/password.rs:180-196 | a draw is decided by the first byte that is not rejected and reads no further; a draw below 1 reads nothing |
| `Password.UniformBelow` | app/core/src/password.rs:180-196 | the loop returns what the first accepted byte says, consuming no more, and fails only if the source does |
| `Password.ShuffleBijective` | app/core/src/password.rs:226-233 | draw vectors and arrangements of distinct elements correspond one to one |
| `Password.ShuffleReaches` | app/core/src/password.rs:226-233 | every arrangement is reached, also with repeated elements |
| `Password.ShuffleInjective` | app/core/src/password.rs:226-233 | different draws arrange distinct elements differently |
| `Generator.Generate` | app/core/src/password.rs:203-236 | the two validation errors under their exact conditions, then placement and shuffle from one source; the result is the function of the bytes drawn |
| `Generator.Place` | app/core/src/password.rs:213-224 | one mandatory character per class, then any of the alphabet, in order of the draws |
| `Generator.ClassesInOrder` | app/core/src/password.rs:122-139 | lower case, upper case, digits and symbols come in that order, in the alphabet and in the mandatory front |
| `Generator.ShuffleInPlace` | app/core/src/password.rs:226-233 | the in-place loop computes the shuffle of the draws it makes |
| `Generator.Support` | app/core/src/password.rs:203-236 | a string can come out if and only if it has the length, is over the alphabet and contains every enabled class |
| `Generator.CoveringExactly` | app/core/src/password.rs:203-236 | containing every enabled class and nothing else, by the ranges of characters the flags ask for |
| `Weights.DrawsFor` | app/core/src/password.rs:200-236 | the number of draw vectors behind a password is the product over the classes of how many of its characters are theirs, times a constant of the recipe |
| `Weights.UniformExactly` | app/core/src/password.rs:200-236 | all passwords of a recipe come from equally many draw vectors if and only if one class is enabled |
| `Weights.Skewed` | app/core/src/password.rs:200-202 | two passwords, for every recipe with several classes, that come out unequally often |
| `Progression.Gcd` | app/core/src/progression.rs:372-384 | the loop computes the greatest common divisor, and 1 for two zeros |
| `Progression.FindStride` | app/core/src/progression.rs:403-406 | the search ends, at the first stride coprime to the pool size |
| `Progression.WalkVisitsAll` | app/core/src/progression.rs:408-410 | for any pool size a coprime stride visits every entry exactly once |
| `Progression.Slate` | app/core/src/progression.rs:392-411 | for any pool size the slate is distinct and is the start of that walk |
| `Progression.SlateForDay` | app/core/src/progression.rs:392-411 | every day has three distinct orders from the pool, decided by the day |
| `Progression.SlateDetermined` | app/core/src/progression.rs:386-391 | two devices agree on the orders of a day |
| `Progression.SeedExactly` | app/core/src/progression.rs:397-400 | seeds start at a fixed value and go on by a fixed step modulo 2^64; two days share one only if they are a multiple of 2^64 apart |
| `Progression.SlatesOfDays` | app/core/src/progression.rs:392-411 | the orders and strides of days -1, 0 and 1 |
| `RateLimit.RateLimiter.CheckAt` | app/server/src/ratelimit.rs:169-210 | one request sweeps if due, restarts or counts its window, and answers from it; disabled it changes nothing; `RateLimit.VerdictExactly` says what the answer is |
| `RateLimit.VerdictExactly` | app/server/src/ratelimit.rs:169-210 | in every run, on the shared and swept table: the last window of the key holds the request, which is allowed if and only if no more than the limit of that key's requests fall into that window; what remains is the limit less their number, and the reset is the whole seconds to the end of the window |
| `RateLimit.AdmittedExactly` | app/server/src/ratelimit.rs:187-209 | in every run, each window admits as many of the key's requests as there are, up to the limit, and those are all that are admitted in that minute |
| `RateLimit.TilesUnique` | app/server/src/ratelimit.rs:187-195 | there is at most one list of windows that start with a request, do not overlap and hold every request of the key |
| `RateLimit.WindowsExist` | app/server/src/ratelimit.rs:187-195 | and there is one |
| `RateLimit.EarlierRequest` | app/server/src/ratelimit.rs:191-208 | a request stamped before its window started is counted in it, with the whole minute to go |
| `RateLimit.SweepDropsExpired` | app/server/src/ratelimit.rs:180-185 | a sweep that is due drops exactly the windows that are over |
| `RateLimit.SweepInvisible` | app/server/src/ratelimit.rs:180-195 | in every run the verdict is the one of a limiter that sees only that key and never sweeps |
| `RateLimit.OtherKeysInvisible` | app/server/src/ratelimit.rs:169-210 | runs with the same requests of a key give it the same verdict |
| `RateLimit.WindowBudget` | app/server/src/ratelimit.rs:187-209 | the shared, swept table admits at most the limit in each window |
| `RateLimit.IntervalBudget` | app/server/src/ratelimit.rs:187-209 | the shared, swept table admits at most twice the limit in any half-open 60-second interval |
| `RateLimit.SpoofingIsInert` | app/server/src/ratelimit.rs:238-266 | from the text of the first header line: behind N proxies that add their entries to it, the billed address is the first entry they added whatever the client wrote, or the peer if the line is unreadable or that entry is no address |
| `RateLimit.BilledExactly` | app/server/src/ratelimit.rs:238-266 | for any header: when it is not used at all, and otherwise the entry that many places from the right, if it is an address |
| `RateLimit.HopsExactly` | app/server/src/ratelimit.rs:252-256 | commas separate hops, and what is between two is one hop once trimmed, or none if nothing is left |
| `Metrics.TransferMetrics.Record` | app/server/src/metrics.rs:159-179 | totals and ring account for one more sample of the full history |
| `Metrics.TransferMetrics.SnapshotAt` | app/server/src/metrics.rs:185-213 | totals are sums over everything ever recorded, recent sums those of the last 512 samples inside the window |
| `Metrics.PrunedAnswers` | app/server/src/metrics.rs:185-213 | a pruned ring adds up to the recent sum of the full history |
| `Metrics.RecentExactly` | app/server/src/metrics.rs:185-213 | sample by sample, what the recent sum counts: that direction, not older than the window, among the last 512 |
| `Metrics.PushKeeps` | app/server/src/metrics.rs:168-178 | pushing onto a full or partly pruned ring loses only what no later snapshot may count |
| `Framing.JoinUnique` | app/core/src/secrets.rs:238-243 | an honest frame has one reading into its parts, whatever the received parts contain |
| `Framing.SecretFrameUnique` | app/core/src/secrets.rs:238-243 | equal secret frames agree in id, field, IV and ciphertext |
| `Framing.MessageFrameUnique` | app/core/src/crypto.rs:249-251 | equal message frames agree in room, IV and ciphertext |
| `Framing.RoomKeyFrameUnique` | app/core/src/crypto.rs:367-374 | equal room-key frames agree in room, ephemeral key, IV and ciphertext |
| `Framing.FramesDisjoint` | app/core/src/crypto.rs:249-374 | message, room-key and secret frames never coincide |
| `Framing.FrameTexts` | app/core/src/secrets.rs:238-243 | the three frames, part by part between bars |
| `Framing.SealOpens` | app/core/src/secrets.rs:263-326 | what is sealed opens to the same text; sealing refuses exactly ids that are not 10 to 100 letters, digits, `_` or `-`, and texts over the limit |
| `Framing.OpensExactly` | app/core/src/secrets.rs:306-326 | a field opens to a text if and only if its tag decodes to the MAC of its own frame and its ciphertext, IV and text decode and decrypt under the other key; every failure is the same error |
| `Framing.OpensOnlySealed` | app/core/src/secrets.rs:306-326 | if an input with its own MAC was tagged by an honest seal, what opens for an id and field was sealed for them, with the received IV and ciphertext |
| `Framing.DecryptsOnlySent` | app/core/src/crypto.rs:306-338 | under the same assumption a message decrypts if and only if its tag is the MAC of its frame, to a text encrypted for that room |
| `Framing.DecryptsExactly` | app/core/src/crypto.rs:306-338 | a message decrypts to a text if and only if its tag decodes to the MAC of its own frame, its parts decode and decrypt to that text, and it is not empty |
| `Framing.EncryptDecrypts` | app/core/src/crypto.rs:271-338 | what is encrypted for a room decrypts for it; only a blank text is refused |
| `KeyWrap.WrapUnwraps` | app/core/src/crypto.rs:422-498 | the addressee unwraps the key that was wrapped |
| `KeyWrap.UnwrapsExactly` | app/core/src/crypto.rs:466-518 | a wrap opens to a key if and only if its ephemeral key parses, its tag is the MAC of its own frame under one derived key, and it decrypts under the other to 64 hex digits of that key |
| `KeyWrap.UnwrapsOnlyWrapped` | app/core/src/crypto.rs:466-498 | under the same assumption a wrap opens if and only if its ephemeral key parses and its tag is the MAC of its frame, to the key of a wrap made for that member and room with the received ephemeral key, IV and ciphertext |

## Left out

- LogSafety.RetainedNumbers: leaves out one point inside `open`, torn lines and earlier days, where it is false; `LogSafety.CrashInOpenExact`, `LogText.TornOpensExactly`, `LogSafety.TornTailExact` and `LogClock.AnyClockRecovers` have their exact conditions
- LogSafety.TornTailExact: one torn write on a sound log; several torn writes in one run are not followed
- Resume.ExactResume: compares number, target, origin and event, not `at_ms`, which log and stream read from the clock separately
- Resume.Handover: takes publishing as one step; `TwoStepHandover.HandoverExactly` has it as two and says what arrives, not in which order
- Hub.Hub.Register: caps are proved for one call after another; concurrent calls can both pass the check
- Hub.Hub.Publish: other writers append audit records to the log directly, past the hub; `Resume` has them as steps of the log, the class does not
- Abi.DecodeUintArray: an allocation within the limits is taken to succeed; a word index given to `decode_uint` is taken to be one whose byte offset fits the machine word
- Abi.ReturnsRead: strings are byte sequences; lossy UTF-8 decoding is the identity here
- Rlp.SigningPayloadInjective: about the payload; the Keccak digest of it is not modelled
- Framing.DecryptsOnlySent: the version 1 paths of crypto.rs are not part of this model
- Weights.DrawsFor: counts draw vectors; that each is equally likely rests on `Password.NoModuloBias` and uniform random bytes
- broadcast channel capacity and lag notices, bounded per-client queues, typing throttle, token expiry
- writes that fail, poisoned locks, fsync timing and the memory ordering of atomics
- wrap-around of the 64-bit sequence number, the limiter's 32-bit counters and the telemetry totals
- AES, HMAC, SHA-256, Keccak, secp256k1, BIP-39 and threshold signing internals
- JSON, hex and base64 text, Unicode normalisation, and the file system below whole files and lines
- HTTP routing, TLS, mDNS, the database, purge and payment logic, the desktop shell
- floating-point code: level fractions, slippage, entropy estimates
- award, trophy and rank tables, user names, port defaults: read off at a glance
