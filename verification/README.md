# stor, modelled and verified in Dafny

This project models the parts of the BitTorrent engine *stor* whose correctness depends on the
interplay of many steps, and proves what those parts are for:

- **uTP streams** (`SeqNumbers`, `UtpSpec`, `UtpRun`, `UtpReorder`, `UtpRetries`, `UtpLimits`, `UtpConn`,
  `Ledbat`): 16-bit sequence numbers, the reorder buffer, the retransmit buffer, cumulative acknowledgements and the LEDBAT congestion
  window. `UtpRun` is a step system of a sender and a receiver over a network that loses,
  duplicates, delays and reorders packets in both directions; each step has a
  hypothesis that is exact for that step, and `UtpLimits` shows what happens beyond them.
- **bencode** (`Decimal`, `Lex`, `Bencode`, `BencodeGrammar`, `BencodeEncoding`,
  `BencodeTheorems`, `BencodeDecoder`, `BencodeEncoder`): the decoder with all its limits, as a
  grammar of concrete texts, and the encoder.
- **downloading** (`Bitfield`, `PieceQueueSpec`, `PieceQueue`, `Swarm`, `SwarmPicks`, `Availability`,
  `PieceDownload`, `HonestPeer`, `TruthfulPeer`, `Miscounts`): the piece queue with its availability buckets, any number of workers sharing it,
  the loop that collects their results, and the request pipeline for one piece.
- **storage and progress** (`MultiFile`, `MultiFileRead`, `MultiFileWriter`, `Geometry`,
  `FileProgress`, `SkipMask`): one byte stream spread over many files, per-file progress, completion events and
  the mask of pieces nobody wants.
- **the DHT routing table** (`NodeId`, `RoutingTable`) and **the engine's download queue**
  (`DownloadQueue`, `EngineQueue`), both using the same in-place `InsertionSort`.

Code that changes state is a class or a method with loops, proved equal to a function on values (or
within a relation where the source leaves a choice, such as map iteration order or a random pick).
The theorems are about those functions and relations, over every input and every run. Where a
property needs a condition, the condition is shown to be the exact one, or an input is given that
breaks the property without it.

Clocks, socket results, the contents of packets and messages, the hash function, the state of the
disk, random choices and map iteration order are parameters or arbitrary. Integers are unbounded
except where the width matters: sequence numbers are 16-bit, bencode integers are 64-bit. LEDBAT's
floating-point window is a real number.

Where the documentation and the code disagree, the model follows the code:

- The repository's `README.md`:40-48 says that uTP lacks retransmission, in-order reassembly, delay measurement and
  remote window handling. `utp/conn.go` implements all four.
- The comment at `torrent/torrent.go`:82 says that the info hash is taken of the raw bytes. The code
  encodes the decoded dictionary again; `BencodeTheorems.InfoBytesAreOriginal` says for which
  inputs that is the same.
- The comments at `download/download.go`:184-187 say that a missing bitfield is not taken for a peer that
  has everything. The availability counts do (`download/piecequeue.go`:350-363).
- The comment at `download/piecequeue.go`:379 says that `PeerHave` counts Have messages. Nothing calls
  it: a Have message only sets a bit of the peer, which is taken back when the peer leaves.
- The comment at `engine/engine.go`:984-986 says that `isQueueActive` mirrors `activeCount`. A
  session in state `adding` that has not been started is active for the first and not for the
  second.

`dafny verify dfyconfig.toml` checks the project.

## Model

| member | source | states |
|---|---|---|
| `SeqNumbers.WireOrder` | utp/conn.go:491-498 | the 16-bit comparison holds exactly when the unbounded indices differ by 1 to 2^15-1 modulo 2^16 |
| `SeqNumbers.OrderInsideWindow` | utp/conn.go:491-498 | inside a window of 2^15 the 16-bit comparisons are the order of the unbounded indices, across any number of wrap-arounds |
| `SeqNumbers.WindowIsTight` | utp/conn.go:491-498 | at a distance of 2^15 each number is "not greater" than the other, so the window cannot be widened |
| `UtpRun.DrainFollows` | utp/conn.go:319-334 | draining the reorder buffer moves over exactly the consecutive indices that were buffered and hands out their payloads in order |
| `UtpRun.DeliverExpected` | utp/conn.go:300-352 | the packet waited for is handed on together with the buffered ones right behind it, and the acknowledged number is the last of them |
| `UtpRun.DeliverKeeps` | utp/conn.go:300-352 | taking in any copy of any data packet at a safe distance keeps the receiver in step with the sender's log |
| `UtpRun.DeliveredIsPrefix` | utp/conn.go:300-352 | in every run the bytes handed to the reader are exactly the first `next` chunks written, a prefix of what Write reported |
| `UtpRun.ReceiverStaysBounded` | utp/conn.go:300-352 | in every run at most 64 packets are buffered, all strictly ahead of the one waited for, and ackNr is the number before it |
| `UtpReorder.EarlyIsBuffered` | utp/conn.go:334-341 | in every run a packet that comes less than 2^15 early is buffered if fewer than 64 are |
| `UtpReorder.KeptUntilHandedOn` | utp/conn.go:300-352 | in every run a buffered packet stays buffered until it is handed on, whatever comes in between |
| `UtpReorder.GapCloses` | utp/conn.go:316-334 | in every run, when the packet waited for comes, the receiver moves on to the first packet after it that has not come early |
| `UtpLimits.SafeIsExact` | utp/conn.go:300-352 | a packet is never mistaken for one due or due soon if and only if its distance is safe |
| `UtpLimits.DataIsSafeIff` | utp/conn.go:300-352 | a packet on the wire keeps the receiver in step with the sender if and only if its distance is safe, or it is not taken for the one waited for and the reorder buffer is full, or it says the same as the packet on the wire that it is taken for; this is the hypothesis of the run theorems |
| `UtpLimits.LateDuplicateBreaksPrefix` | utp/conn.go:300-352 | beyond that distance the prefix property fails: a copy of packet 0 that arrives one full circle late is handed on as packet 65536, and what was delivered is no prefix of what was written |
| `UtpLimits.OnceAroundIsReached` | utp/conn.go:300-352 | a run of 2^16 + 1 writes, all but the last delivered and acknowledged, leads to such a state for any two different payloads of equal length |
| `UtpLimits.UninitialisedStartsAnywhere` | utp/conn.go:300-314 | a connection that was not told where the peer starts is from its first packet on the receiver of the stream that starts there |
| `UtpRun.WriteKeeps` | utp/conn.go:189-207 | sending a chunk, whether or not the socket takes it, keeps all invariants of sender and receiver |
| `UtpRun.WriteIsSafeIff` | utp/conn.go:166-197 | a write drives only accepted packets out of the retransmit buffer if and only if the packet that used its sequence number before is not still held and waited for; this is the hypothesis of the run theorems |
| `UtpLimits.FullBufferLosesPacket` | utp/conn.go:166-197 | with 2^16 packets held and none accepted, one more write takes the place of packet 0, which is then not accepted, not given up and not held |
| `UtpLimits.FullBufferIsReached` | utp/conn.go:166-197 | 2^16 writes of which nothing is delivered lead to such a state |
| `UtpRun.AckRemovesOnlyAccepted` | utp/conn.go:381-411 | a safe ACK, however stale or repeated, takes out only held packets that the receiver has accepted |
| `UtpRun.AckIsSafeIff` | utp/conn.go:381-411 | an ACK takes out only accepted packets if and only if every held packet not yet accepted is, modulo 2^16, 1 to 2^15-1 beyond it; this is the hypothesis of the run theorems |
| `UtpRun.RecentAckIsSafe` | utp/conn.go:381-411 | an ACK at most 2^15 behind the end of what was written meets that condition, which the sender can see for itself |
| `UtpRun.AcksRemoveOnlyAccepted` | utp/conn.go:381-411 | the same over every run |
| `UtpLimits.AckWindowIsExact` | utp/conn.go:381-411 | an ACK for index a spares all held packets beyond a if and only if each of them is, modulo 2^16, less than 2^15 ahead |
| `UtpLimits.LateAckLosesPacket` | utp/conn.go:381-411 | an ACK from half a circle back takes out the one held packet, which is then not accepted, not given up and not held |
| `UtpLimits.HalfBehindIsReached` | utp/conn.go:381-411 | an ACK sent at the start, 2^15 - 1 chunks delivered and acknowledged and one more written lead to such a state |
| `UtpRun.TickKeeps` | utp/conn.go:453-482 | a retransmission tick keeps all invariants of sender and receiver |
| `UtpRetries.SendsAreSpaced` | utp/conn.go:453-482 | in every run each packet goes out at most five times, no two times less than the timeout apart |
| `UtpRetries.GivenUpAfterFourMore` | utp/conn.go:463-478 | in every run a packet is given up only after it went out five times: when it was written and four times more, each at least the timeout after the one before |
| `UtpRetries.TickSendsOrGivesUp` | utp/conn.go:463-478 | in every run a tick sends a held packet again, and keeps it with its payload, if and only if the timeout has passed since it last went out and it went out fewer than five times; it gives the packet up if and only if the timeout has passed after the fifth |
| `UtpRetries.NothingWrittenIsLost` | utp/conn.go:453-482 | in every run a packet reported as sent was accepted in order, or is in the retransmit buffer with its payload, or was given up after going out five times at least the timeout apart |
| `UtpConn.Conn.constructor` | utp/conn.go:70-89 | a new connection has an empty retransmit buffer, an uninitialised receiver, the default remote window and a timeout of one second |
| `UtpConn.Conn.SetFirstExpected` | utp/conn.go:290-297 | the receiver is initialised at the given number |
| `UtpConn.Conn.Flush` | utp/conn.go:319-333 | the loop that empties the reorder buffer computes the drained state and payloads |
| `UtpConn.Conn.DeliverInOrder` | utp/conn.go:300-352 | one data packet changes the receiver exactly as the transition used in the run theorems |
| `UtpConn.Conn.EffectiveCanSend` | utp/conn.go:367-378 | a positive answer fills the smaller of the two windows exactly; otherwise one of them is full |
| `UtpConn.Conn.WriteChunk` | utp/conn.go:139-205 | one chunk is a full packet, or all that is left, or exactly fills a window, and fits all three; it is buffered under the next number if the socket took it, and uses up its number in any case |
| `UtpConn.Conn.Write` | utp/conn.go:130-210 | the chunks taken by the socket concatenate to exactly the first `total` bytes, every chunk but the last is a full packet, no error if and only if all were sent, a socket error can only be at the last chunk, a call that ends blocked has filled a window, and what is in flight fits both |
| `UtpConn.Conn.HandleAck` | utp/conn.go:381-411 | the buffer loses exactly what the wrapping comparison covers, the remote window is at least MSS, and a delay sample changes the congestion window by LEDBAT's rule relative to the least live sample |
| `UtpConn.Conn.RetransmitOne` | utp/conn.go:463-480 | a packet whose timeout has not passed is left alone; one with fewer than four retries is sent again with its time and count updated, a window of one packet and nothing in flight; any other is dropped and the window halved |
| `UtpConn.Conn.RetransmitTick` | utp/conn.go:453-482 | in whatever order the buffer is visited, a tick resends exactly the due packets with retries left and drops exactly the exhausted ones; the window is halved once for each packet given up if none is resent, otherwise it is one packet halved once for each given up after the last resent one |
| `Ledbat.AckMovesTowardsTarget` | utp/ledbat.go:77-114 | an ACK keeps the window between its bounds, grows it by at most acked*MSS/cwnd, never lowers it below the target delay and never raises it above |
| `Ledbat.AckedExactly` | utp/ledbat.go:98-110 | the new window w meets (w - cwnd) * cwnd * 100000 == acked * (100000 - delay) * 1400, or is the bound of 150 or 1048576 bytes that the solution of this equation lies beyond |
| `Ledbat.StrictlyTowardsTarget` | utp/ledbat.go:98-110 | with bytes acked the window grows strictly below a delay of 100 ms and shrinks strictly above it, unless it is at that bound already, and stays the same at it |
| `Ledbat.LessDelayMoreWindow` | utp/ledbat.go:98-110 | of two delays the longer gives a strictly smaller window, unless both end on the same bound |
| `Ledbat.Controller.constructor` | utp/ledbat.go:42-51 | a new controller has a window of two MSS and no samples |
| `Ledbat.Controller.RotateBuckets` | utp/ledbat.go:55-62 | after the interval the oldest bucket is forgotten and nothing else is, and the next interval starts now |
| `Ledbat.Controller.GetBaseDelay` | utp/ledbat.go:66-74 | the result is the least of all samples recorded in the live buckets, over the whole history of the controller |
| `Ledbat.Controller.OnAck` | utp/ledbat.go:77-114 | the sample joins the history, the queuing delay is its excess over the least live sample and is never negative, the window meets the equation of AckedExactly for that delay wherever it is between the bounds, and flight size never goes below zero |
| `Ledbat.Controller.OnLoss` | utp/ledbat.go:117-124 | the window is halved but not below its minimum |
| `Ledbat.Controller.CanSend` | utp/ledbat.go:142-150 | the answer is exactly the room left in the window |
| `BencodeGrammar.ParserIsGrammar` | bencode/decode.go:43-213 | the decoder reads text t and leaves `rest` if and only if the input is t printed followed by `rest` and t is within all limits |
| `BencodeGrammar.PrintIsUnambiguous` | bencode/decode.go:43-213 | two texts within the limits that print to the same bytes, whatever follows, are the same text |
| `BencodeGrammar.ValueSound` | bencode/decode.go:43-62 | what is read is a prefix of the input, well formed, and counted exactly against the item limit |
| `BencodeGrammar.ValueComplete` | bencode/decode.go:43-62 | every well-formed text that fits the item budget is read back, with anything behind it left alone |
| `BencodeTheorems.RoundTrip` | bencode/encode.go:21-93 | decoding the encoding of any value within the limits, followed by any bytes r, gives the value and leaves r |
| `BencodeTheorems.DictSize` | bencode/decode.go:164-213 | entries read in order give as many keys as the decoder counted, and the last key read is the greatest |
| `BencodeTheorems.DictDecodesIff` | bencode/decode.go:164-213 | the decoder reads `d`, a list of entries and `e` as that dictionary if and only if each entry is well formed, of two neighbouring keys the second equals the first, extends it or has the greater byte where they first differ, and the counts are within limits |
| `BencodeTheorems.AcceptedKeyOrder` | bencode/decode.go:193-200 | the same of the entries of a dictionary at any depth |
| `BencodeTheorems.EncodedKeysAscend` | bencode/encode.go:74-93 | the encoding of a dictionary is `d`, one entry for every key and `e`, and of two neighbouring keys the first is a proper prefix of the second or has the smaller byte where they first differ |
| `BencodeTheorems.WireSample` | bencode/encode.go:21-93 | one dictionary with a list, a negative number and strings, in its ASCII bytes: d3:cowli-12e3:mooe4:spam4:eggse |
| `BencodeTheorems.EvalInLimits` | bencode/decode.go:43-213 | a decoded value respects the limits on depth, collection size and string length |
| `BencodeTheorems.DecodedIsStable` | bencode/decode.go:24-31 | every accepted input has a non-empty prefix standing for a value within all limits, and encoding and decoding that value gives it back |
| `BencodeTheorems.ReencodesIffPlain` | bencode/encode.go:21-93 | encoding an accepted input's value gives its bytes back if and only if the text has no duplicate keys, padded lengths or signed positive numbers |
| `BencodeTheorems.InfoBytesAreOriginal` | torrent/torrent.go:82-87 | the bytes that are hashed are the original info bytes if and only if that part of the input is plain |
| `BencodeTheorems.SignedInfoDiffers` | torrent/torrent.go:82-87 | the torrent text d4:infod1:ai+1eee is accepted, and the bytes that are hashed are not those of its info dictionary |
| `BencodeDecoder.DecodeString` | bencode/decode.go:64-96 | the loop over digits reads the string the grammar describes, with the same errors |
| `BencodeDecoder.DecodeInt` | bencode/decode.go:98-134 | the number between i and e is accepted and evaluated as the grammar says |
| `BencodeDecoder.DecodeList` | bencode/decode.go:136-162 | the list loop gives the values of the items the grammar reads, or its error |
| `BencodeDecoder.DecodeDict` | bencode/decode.go:164-213 | the dictionary loop gives the map of the entries the grammar reads, with later entries overriding, or its error; DictDecodesIff says which entries those are |
| `BencodeDecoder.DecodeValue` | bencode/decode.go:43-62 | the result is the meaning of the text the grammar reads, or its error |
| `BencodeDecoder.Decode` | bencode/decode.go:24-31 | Decode is the meaning of the first text of the input |
| `BencodeEncoder.EncodeList` | bencode/encode.go:61-72 | the loop appends exactly the canonical text of the list |
| `BencodeEncoder.EncodeDict` | bencode/encode.go:74-93 | the loop over sorted keys appends exactly the canonical text of the dictionary, which EncodedKeysAscend describes |
| `BencodeEncoder.Encode` | bencode/encode.go:9-19 | Encode is the canonical text that the round trip is proved for |
| `Decimal.LeadingDigit` | bencode/encode.go:52-59 | in a numeral the first digit counts for the power of ten of the number of digits after it |
| `Lex.LessIff` | bencode/encode.go:80 | a key comes before another if and only if, after the bytes they share, it ends first or has the smaller byte |
| `Lex.ListIsUnique` | bencode/encode.go:76-80 | a set of keys has only one ascending list, so the order of map iteration does not matter |
| `Lex.SortKeys` | bencode/encode.go:75-80 | collecting and sorting the keys gives that list, each key a proper prefix of the next or smaller at the first byte that differs |
| `Bitfield.WithPieceAdds` | peer/message.go:193-218 | setting a bit adds that index to the set a bitfield stands for and changes nothing else; indices out of range change nothing |
| `Bitfield.SetPiece` | peer/message.go:207-218 | the in-place update is that addition, and the result says whether the index was in range |
| `Bitfield.BitsHighFirst` | peer/message.go:193-218 | bit 0 of a byte is worth 128 and bit 7 is worth 1, and setting a clear bit adds its worth |
| `PieceQueue.MoveKeepsIndexed` | download/piecequeue.go:145-158 | moving a piece between buckets keeps every remaining piece in exactly the bucket of its count, with no empty bucket |
| `PieceQueue.RemoveKeepsIndexed` | download/piecequeue.go:298-317 | taking a finished piece out keeps the buckets exact for the rest |
| `PieceQueue.PieceQueue.constructor` | download/piecequeue.go:91-141 | exactly the pieces that are not skipped enter the queue, their number is the total that the endgame threshold is taken of, first and last are the priority pieces if wanted, and the buckets are exact |
| `PieceQueue.PieceQueue.PickLowest` | download/piecequeue.go:163-286 | sequential mode finds the lowest eligible index, and none only if there is none |
| `PieceQueue.PieceQueue.PickRarest` | download/piecequeue.go:163-286 | walking the buckets finds an eligible piece of least availability, and none only if there is none |
| `PieceQueue.PieceQueue.Pick` | download/piecequeue.go:163-286 | in whatever order maps are visited and whatever the dice say, Pick hands out a preferred eligible piece and marks it pending, or nothing only if nothing is eligible; endgame begins exactly at the threshold |
| `PieceQueue.PieceQueue.Return` | download/piecequeue.go:289-294 | only the pending mark is removed |
| `PieceQueue.PieceQueue.Complete` | download/piecequeue.go:298-328 | the piece leaves pieces, pending, priority and its bucket and joins the finished ones |
| `PieceQueue.PieceQueue.AddPeerBitfield` | download/piecequeue.go:352-363 | exactly the remaining pieces the peer has are counted once more, and the buckets follow |
| `PieceQueue.PieceQueue.RemovePeerBitfield` | download/piecequeue.go:367-377 | exactly the remaining pieces the peer has are counted once less, and the buckets follow |
| `PieceQueue.PieceQueue.PeerHave` | download/piecequeue.go:380-389 | the count of one piece goes up and the buckets follow |
| `PieceQueue.PieceQueue.Remaining` | download/piecequeue.go:406-420 | the result is the number of remaining pieces that are not masked |
| `PieceQueue.PieceQueue.UpdateSkipMask` | download/piecequeue.go:430-443 | only the mask changes |
| `Swarm.StepKeeps` | download/download.go:1504-1554 | every step of any worker, of the collector, or of a peer coming, going or announcing keeps the queue consistent, with the check and the marking as one step or as two |
| `Swarm.QueueStaysConsistent` | download/piecequeue.go:163-328 | in every run remaining and finished pieces split the initial set, and before endgame the pending pieces are exactly those held by workers, each by one |
| `Swarm.AvailabilityCounts` | download/download.go:1495-1496 | in every run the count of a remaining piece is the number of connected peers that were counted for it plus the calls of PeerHave, less the times a leaving peer took it back without having been counted for it |
| `Availability.CountIsRightIff` | download/download.go:1495-1496 | that difference is zero if and only if no leaving peer so far took back what it had not added |
| `Availability.CountDiffersBy` | download/download.go:804-821 | in every run the count is the number of connected peers that have the piece plus the calls of PeerHave, plus the peers counted for it that do not have it, less the peers that have it and were not counted, less what was taken back wrongly; it is right if and only if these cancel out |
| `Availability.OverIff` | download/download.go:699-733 | the peers counted for a piece they do not have are exactly those that sent neither a bitfield nor HaveAll |
| `Availability.UnknownPeerIsCounted` | download/piecequeue.go:350-363 | a peer that sent neither is counted once for every piece and has none |
| `Availability.LateHaveAllIsNotCounted` | download/download.go:710-717 | a peer that sent a bitfield and then HaveAll has every piece and is not counted for those missing from the bitfield |
| `Availability.MatchedCountIsRight` | download/piecequeue.go:352-389 | while the slice of every peer says what the peer has and does not change, the count is the number of connected peers that have the piece plus the calls of PeerHave |
| `Availability.AnnounceThenLeave` | download/download.go:1495-1496 | a peer that joins without a piece, announces it and leaves makes its count -1 |
| `Swarm.EndgameStartsLate` | download/piecequeue.go:163-185 | endgame is entered only by a Pick that finds between 1 and max(5, total/100) pieces left |
| `SwarmPicks.PickHandsOut` | download/piecequeue.go:163-286 | in every run a Pick enters endgame if and only if one to five pieces or one percent are left; it hands out nothing if and only if every unfinished piece is masked, not had by the peer or, before endgame, held by a worker; otherwise the piece is none of these and is the lowest such one in sequential mode, else a first or last piece if one qualifies, else one of least count |
| `SwarmPicks.PriorityRemains` | download/piecequeue.go:298-317 | in every run the priority pieces are the initial ones less the finished ones |
| `Swarm.RunIsMonotone` | download/piecequeue.go:163-328 | in every run endgame never ends and finished pieces stay finished |
| `Swarm.FinishedStaysFinished` | download/piecequeue.go:163-328 | in every run a finished piece is never handed out again |
| `Swarm.SentOnceIffFresh` | download/download.go:1504-1554 | while no result is lost, the pieces on the result channel are all different if and only if no worker marks a piece that was finished between its check and its marking |
| `Swarm.FreshMeansComplete` | download/download.go:1348-1374 | in such runs, when the collector has counted as many results as pieces were queued, every queued piece has been written |
| `Swarm.CollectedIffDistinct` | download/download.go:1348-1374 | in every run, when the collector has counted as many results as pieces were queued, every queued piece has been written if and only if no result came twice |
| `Swarm.CountedMeansComplete` | download/download.go:1348-1374 | with the check and the marking in one step this holds in every run, duplicate endgame picks included |
| `Swarm.OneCheckerMeansComplete` | download/download.go:1536-1543 | with two steps, as the code has them, it holds in every run in which no two workers are between them on the same piece |
| `Swarm.SplitCheckMiscounts` | download/download.go:1536-1543 | a run in which two workers both pass the check for piece 0, and the collector stops with piece 1 never downloaded |
| `PieceDownload.TargetFor` | download/download.go:548-570 | the pipeline depth is at least 1 and within the bounds, whatever they are; between them it is the number of whole blocks that arrive in the window at the observed rate, and it is a bound only if that number reaches it |
| `PieceDownload.PipelineTarget` | download/download.go:583-609 | the depth is never zero, within the adaptive bounds when they are set and the fixed depth otherwise |
| `PieceDownload.FillPipeline` | download/download.go:970-1000 | the requests sent are consecutive blocks, the last one cut at the end of the piece, until the target or the end is reached |
| `PieceDownload.DownloadPiece` | download/download.go:942-1074 | against any messages whatever, every write stays in the buffer, and data is returned if and only if blocks of this piece add up to its length before a message breaks the download off and the hash of the buffer is right |
| `PieceDownload.LoopOutcome` | download/download.go:970-1066 | the loop ends normally if and only if blocks of this piece add up to its length before a choke, a reject, a block that does not parse or leaves the buffer, or the 101st block of other pieces in a row; it ends for want of messages if and only if neither happens |
| `PieceDownload.BrokenOff` | download/download.go:1003-1062 | such a message leaves nothing delivered if it comes while bytes are missing, whatever comes before or after it |
| `PieceDownload.StraysBreakOff` | download/download.go:1016-1024 | so do 101 blocks of other pieces without a block of this one between them |
| `HonestPeer.NeverWaitsForNothing` | download/download.go:970-1000 | with an unfinished piece the loop always has a request outstanding when it waits |
| `HonestPeer.BacklogCounts` | download/download.go:970-1066 | in every run with a peer that answers each request once, in any order and between any blocks of other pieces, the backlog is the number outstanding less those blocks, and the loop never waits for nothing |
| `HonestPeer.AnswerKeeps` | download/download.go:1003-1066 | an answer to an outstanding request, in any order, keeps counters and buffer exact |
| `HonestPeer.HonestDownload` | download/download.go:970-1066 | until a block of another piece makes the loop start over, requested minus downloaded is the bytes outstanding, and when all is counted the buffer is the piece |
| `HonestPeer.UndisturbedIffNoReset` | download/download.go:1019-1030 | those two facts hold in all states up to the n-th if and only if no block of another piece arrived while the loop counted at most one request as outstanding |
| `Miscounts.StrayStartsOver` | download/download.go:1019-1030 | a run in which such a block makes the loop ask again for block 0 of two, both answers are counted, and the loop ends with the second block never received |
| `HonestPeer.HonestDownloadSucceeds` | download/download.go:942-1074 | fed with the messages of an undisturbed run, DownloadPiece's loop ends normally with exactly the piece |
| `Miscounts.RepeatedAnswerMiscounts` | download/download.go:1003-1066 | a peer that answers the first of two blocks twice is counted as having sent both; the result is rejected by the hash if and only if the old bytes in the second block were not right by chance |
| `TruthfulPeer.LoopWrites` | download/download.go:1003-1066 | against any peer that sends only right bytes, the final buffer is the piece where an accepted block was and the old bytes elsewhere |
| `TruthfulPeer.CompleteIffRestWasRight` | download/download.go:942-1074 | against such a peer the loop ends with the piece if and only if every position that no accepted block covers was already right |
| `TruthfulPeer.CompleteForAllIffCovered` | download/download.go:942-1074 | it ends with the piece whatever the buffer held before if and only if the accepted blocks cover the piece |
| `TruthfulPeer.DisjointIsComplete` | download/download.go:942-1074 | accepted blocks that do not overlap cover the piece |
| `TruthfulPeer.HonestCompleteIffCovered` | download/download.go:970-1066 | a finished run with an honest peer, however often the loop started over, leaves the piece in every buffer if and only if the answers cover it |
| `MultiFile.OverwrittenBytes` | storage/multifile.go:132 | a positioned write to a file puts the data in its place, keeps every other byte, and fills a gap behind the end with zeros |
| `MultiFile.ReadSliceBytes` | storage/multifile.go:182 | a positioned read gives the bytes at that place, and fewer than asked for only at the end of the file |
| `MultiFile.WriteRefines` | storage/multifile.go:94-143 | the write loop changes the concatenation of all files at exactly the clipped range and nowhere else |
| `MultiFileRead.ReadRefines` | storage/multifile.go:146-193 | with preallocated files the read loop returns that slice of the concatenation, zero-length files included |
| `MultiFileRead.ReadIsRight` | storage/multifile.go:146-193 | with files of any lengths whose bytes are right as far as they go, the read returns the right bytes without an error if every file it meets exists and holds its part of the range |
| `MultiFileRead.ReadIsRightIff` | storage/multifile.go:146-193 | it can be trusted for all contents of files of the given lengths if and only if every file it meets exists and holds its part of the range |
| `MultiFileRead.ShortReadIsUnsafe` | storage/multifile.go:146-193 | otherwise the read fails, or returns too little, or returns all n bytes without an error while some right contents of the same lengths make them wrong |
| `MultiFileRead.ReadReturnsWritten` | storage/multifile.go:94-193 | after any sequence of calls of the write loop on preallocated files of which none overlaps write k, the read loop at its place returns what it wrote, up to the end, without an error |
| `MultiFileRead.ShortFileShiftsData` | storage/multifile.go:146-193 | when the first of two files is one byte short the read silently fills the gap with the second file's first byte |
| `MultiFileWriter.Writer.constructor` | storage/multifile.go:34-71 | files are laid out end to end in torrent order |
| `MultiFileWriter.Writer.WriteAt` | storage/multifile.go:94-143 | the loop over files writes and counts as the refinement theorem assumes, and fails once closed |
| `MultiFileWriter.Writer.ReadAt` | storage/multifile.go:146-193 | the loop over files reads as the refinement theorem assumes, and fails once closed |
| `MultiFileWriter.Writer.PreallocateFiles` | storage/multifile.go:196-210 | with distinct paths every file has its full length afterwards with its old bytes kept, and no other file is touched |
| `Geometry.OffsetIsStart` | storage/multifile.go:49-67 | the storage layer places every file where the progress figures expect it |
| `Geometry.FullIffHeld` | engine/file_progress.go:14-48 | a range is fully downloaded if and only if every piece from that of its first to that of its last byte is held |
| `FileProgress.ComputeFileDownloaded` | engine/file_progress.go:14-48 | the loop over pieces gives exactly the bytes of the file covered by held pieces |
| `FileProgress.FilesAddUp` | engine/file_progress.go:14-48 | the per-file figures add up to the sizes of the held pieces, however pieces straddle files |
| `FileProgress.ComputeFileRanges` | engine/session.go:129-178 | every file gets its first and last piece, a file without bytes the single piece at its offset |
| `FileProgress.FullIffComplete` | engine/session.go:129-211 | a non-empty file has all its bytes if and only if every piece of its range is held |
| `FileProgress.Session.constructor` | engine/session.go:787-803 | files complete at the start are marked and will not be reported |
| `FileProgress.Session.CollectNewlyCompletedFiles` | engine/session.go:185-211 | the call reports exactly the unmarked complete files and marks them |
| `FileProgress.ReportedWhenFirstComplete` | engine/session.go:185-211 | over any run of calls, call k reports a file if and only if it was not complete at the start and k is the first call that sees it complete |
| `FileProgress.ReportedExactlyOnce` | engine/session.go:185-211 | a file not complete at the start and complete at call n is reported by exactly one call |
| `SkipMask.ComputeSkippedPieceMask` | engine/skip_mask.go:29-84 | there is no mask exactly for degenerate layouts; otherwise its bits are exactly the skippable pieces |
| `SkipMask.MaskedHasNoWantedByte` | engine/skip_mask.go:29-84 | no byte of a masked piece belongs to a wanted file |
| `SkipMask.MaskedIff` | engine/skip_mask.go:29-84 | a piece is masked if and only if all its bytes belong to skipped files and no empty wanted file lies strictly inside it |
| `SkipMask.SkippingMoreMasksMore` | engine/skip_mask.go:29-84 | skipping more files never unmasks a piece |
| `SkipMask.UnmaskedSuffice` | engine/skip_mask.go:29-84 | once every unmasked piece is held every wanted file has all its bytes |
| `SkipMask.WantedIsComplete` | engine/session.go:139-211 | then a wanted file counts as complete if and only if it has bytes or the one piece of its range is held |
| `SkipMask.EmptyWantedIsNotReported` | engine/session.go:139-211 | an empty wanted file in front of a skipped one is in a masked piece and stays incomplete |
| `NodeId.LessIsOrder` | dht/id.go:58-66 | Less is the order of the 160-bit big-endian values |
| `NodeId.ComputeDistance` | dht/id.go:38-45 | the bytewise loop computes the exclusive or of the 160-bit values |
| `NodeId.DistanceIsMetric` | dht/id.go:38-45 | XOR distance is zero only between equal ids, symmetric, and satisfies the triangle inequality |
| `NodeId.DistanceSeparates` | dht/id.go:38-45 | no two ids are equally far from a third |
| `NodeId.ZeroPrefixIff` | dht/id.go:47-56 | the prefix length is z if and only if the value lies between the two powers of two that z names |
| `RoutingTable.BucketIff` | dht/table.go:45-52 | bucket i is exactly for ids at a distance in [2^(159-i), 2^(160-i)) |
| `RoutingTable.SameBucketIsCloser` | dht/table.go:45-52 | two ids of one bucket are closer to each other than either is to self |
| `RoutingTable.TableStaysOk` | dht/table.go:56-83 | after any updates every bucket has at most 8 distinct ids, all of that bucket, and self is not stored |
| `RoutingTable.IdsAreUnique` | dht/table.go:56-83 | no id is stored twice in the whole table |
| `RoutingTable.BucketHolds` | dht/table.go:56-83 | after any updates a bucket holds exactly the first eight ids that ever fell into it, each as last seen, the least recently seen first |
| `RoutingTable.UpdateBucket` | dht/table.go:66-82 | the scan moves a known node to the tail with its new address and time, appends a new one while there is room and drops it otherwise |
| `RoutingTable.Table.constructor` | dht/table.go:35-37 | a new table is the table after no updates |
| `RoutingTable.Table.Update` | dht/table.go:56-83 | an update changes the one bucket of the id as the history theorem assumes, and ignores self |
| `RoutingTable.Table.Len` | dht/table.go:105-114 | the result is the number of stored nodes |
| `RoutingTable.SortByDistance` | dht/table.go:128-140 | the result is a permutation in order of XOR distance |
| `RoutingTable.Table.Closest` | dht/table.go:86-102 | the result is min(k, Len) stored nodes in strictly increasing distance, and every other node is farther than every one of them |
| `InsertionSort.Insert` | dht/table.go:130-139 | one turn moves the element to its place among the sorted ones and the others up by one |
| `InsertionSort.Sort` | engine/engine.go:1286-1297 | the array is sorted and a permutation of what it was |
| `DownloadQueue.MoveRelocates` | engine/engine.go:876-921 | moving a session to any position takes it out of the list and inserts it there |
| `DownloadQueue.ExchangeSwaps` | engine/engine.go:923-947 | exchanging two positions swaps two entries of the list |
| `DownloadQueue.CompactKeepsOrder` | engine/engine.go:969-982 | compacting distinct positions keeps their order, both ways |
| `DownloadQueue.CompactIsIdempotent` | engine/engine.go:969-982 | compacting a dense queue changes nothing |
| `DownloadQueue.RemoveDeletes` | engine/engine.go:513-530 | removing a session and compacting deletes it from the list and keeps the order of the others |
| `DownloadQueue.StartFillsSlots` | engine/engine.go:1255-1284 | exactly min(free slots, waiting) sessions are started; if any is started, the sessions in Downloading, Metadata, Verifying or a started Adding are within the limit; and they reach it unless no session in Adding is left unstarted |
| `DownloadQueue.StartOnlyMarks` | engine/engine.go:1255-1284 | starting changes nothing of any session but marks sessions in Adding as started |
| `DownloadQueue.SlotsTaken` | engine/engine.go:1209-1226 | every session waits, is out of the queue (Seeding, Complete, Paused, Error) or takes a slot, and only one of these, so the slots taken are all sessions less the waiting and the resting ones |
| `DownloadQueue.StartIsDetermined` | engine/engine.go:1255-1284 | with distinct positions the choice of sessions is unique, whatever the order of iteration |
| `DownloadQueue.StepFollows` | engine/engine.go:804-982 | add, remove, top, up, down, bottom, compaction, starting and state changes each have exactly their named effect on the list |
| `DownloadQueue.QueueStaysDense` | engine/engine.go:804-982 | from a dense start, after any run of those steps positions are 0 to n-1 and the list is the named effects in turn |
| `EngineQueue.SortByQueuePosition` | engine/engine.go:1286-1297 | the same sessions, by increasing position |
| `EngineQueue.Engine.MaxQueuePosition` | engine/engine.go:953-962 | the greatest position, or -1 |
| `EngineQueue.Engine.ActiveCount` | engine/engine.go:1209-1226 | the number of sessions in Downloading, Metadata, Verifying, or in Adding and started |
| `EngineQueue.Engine.CompactQueue` | engine/engine.go:969-982 | for any positions, ties included, the new positions are 0 to n-1 in the old order and nothing else changes |
| `EngineQueue.Engine.StartQueued` | engine/engine.go:1255-1284 | the right number of waiting sessions is started, none of them behind one that keeps waiting, and nothing else changes; the sessions in Downloading, Metadata, Verifying or a started Adding stay within the limit and reach it unless nobody waits |
| `EngineQueue.Engine.SetQueuePosition` | engine/engine.go:876-921 | the shift loop moves exactly the sessions in between by one, in whatever order they are visited, then waiting sessions are started |
| `EngineQueue.Engine.SwapPositions` | engine/engine.go:923-947 | one session at each of the two positions, if there is one, takes the other position |
| `EngineQueue.Engine.QueueTop` | engine/engine.go:804-806 | the step of the run theorem, and whether the session was found |
| `EngineQueue.Engine.QueueUp` | engine/engine.go:809-822 | one session at this position and one at the position before, if there is one, change places, ties included; with distinct positions it is the step of the run theorem |
| `EngineQueue.Engine.QueueDown` | engine/engine.go:825-839 | unless the position is the last, one session at it and one at the next, if there is one, change places, ties included; with distinct positions it is the step of the run theorem |
| `EngineQueue.Engine.QueueBottom` | engine/engine.go:842-874 | the step of the run theorem, and whether the session was found |
| `EngineQueue.Engine.AddTorrent` | engine/engine.go:417-472 | a new session goes to the end unless the limit is reached, a known one is left alone |
| `EngineQueue.Engine.RemoveTorrent` | engine/engine.go:513-528 | the session is gone and the others are compacted |

## Left out

- uTP connection setup and teardown (SYN, FIN, Close, deadlines other than a closed window ending Write), delivery after Close, and the bounded receive channel: the model's reader queue is unbounded.
- No liveness: nothing says that a uTP packet arrives, that a download ends or that a waiting session is ever started.
- UtpConn.Conn.Write: ACKs that arrive while the call waits for window are not interleaved with it; in the run theorems every chunk is its own step and they are.
- UtpConn.Conn.HandleAck: the signal that the FIN was acknowledged is left out with the rest of the teardown.
- PieceDownload.DownloadPiece: offsets and lengths are unbounded, so the 32-bit fields of request messages are not modelled; the interested and unchoke exchange before the loop, errors of the socket while requests are sent, and the serving of the peer's own requests are left out.
- MultiFileWriter.Writer.WriteAt: errors of the operating system, path construction and several names for one file are not modelled; a path is an identity.
- MultiFileWriter.Writer.ReadAt: of the errors of the operating system only a missing file and the end of a file are modelled.
- Wire formats of uTP packets, peer messages, DHT messages and compact node lists: they would only add straightforward round trips.
- Real time: clocks are arbitrary integers, timers are steps that may happen at any moment.
- LEDBAT rounding: the window is a real number where the code has a 64-bit float.
- The encoder's error for unsupported Go types and its byte-slice case: the model's values are the four the decoder produces. DecodeBytes differs from Decode only in reporting the length.
- PieceQueue wake-up and cancel channels, and the buffer pool of the download loop.
- The resolution of pipeline settings from the configuration (download/download.go:107-138): the resolved values are parameters.
- RoutingTable.Table.Update: nodes are values, so a caller that keeps a pointer to a stored node and changes it is not modelled; bucket locks are not modelled, each call is one step.
- Persisting and restoring sessions, including the order in which restored sessions are started; resuming a paused session is an arbitrary state change in the run theorem.
- Trackers, magnet links, encryption, the HTTP and RPC servers, DHT lookups and the event bus.
