# Verification of rahgozar's mailbox transport, ClientHello engine, cache and parsers

This project models in Dafny the parts of rahgozar where a wrong step loses or
reorders bytes, and proves what those parts are for.

**The Drive mailbox.** A TCP stream becomes numbered frames, frames are batched
into files named by their first seq, uploads land in any order or never, and a
poller that sees any subset of the files rebuilds the stream.

- `Wire`, `WireExact`, `Batches`: the frame and batch codec, exactly what it accepts,
  and the stream behind a list of batches.
- `Replay`: the strict replay window; nonce and associated data.
- `Receiver`: one poll's work on one session, as a class with its loops and as
  functions; `Delivery`: runs of polls; `PeerFiles`, `ArrivalOrder`: the receiver
  facing a peer that cuts its stream into files; `Gaps`: it never passes a file it
  cannot use; `Cleanup`: which files it deletes.
- `Sender`: the pump, as a class and as functions; `Pumping`: what every run of it keeps;
  `PumpEvents`: its frames and its end as a function of the events alone.
- `UploadSizes`: every file the sender makes is within the receiver's caps and decodes there.
- `Channel`, `EndToEnd`: sender, folder and receiver together.
- `RelayInbound`: the relay's frame translation, and which sessions it takes;
  `Sockets`, `Kinds`: from socket to socket in both directions, bytes and half-closes.

**The ClientHello engine.** `ClientHello`, `ServerName`, `Alpn`, `HelloExact`: the
extension walk against a printer, and exactly which bytes it accepts; `Profiles`, `SplitPoints`, `Fragmenter`: where a hello is
cut and what is written; `HelloReplay`: reading the first record and replaying it;
`Breaker`, `ProfileChoice`: the per-host memory and the choice of profiles.

**Two leaves.** `Cache`: the response cache against a plain history. `ChunkSize`,
`Chunked`: chunked bodies, with an exact account of what is accepted. `Text` holds
the UTF-8, white space and numerals that the parsers share.

Code that changes fields, arrays or local variables step by step is a class or a
method with loops, proved equal to a function of the old state; the properties
are then proved of that function over all runs. `dafny verify dfyconfig.toml`
checks everything.

## Assumptions

- A body that opens under (sid, seq) is the batch the peer sealed there; the AEAD
  itself is not modelled.
- The peer gives each seq to one frame. For the client as peer this is proved.
- A listed file shows no size or its true one, and a download is refused as too
  large only for that size; what opens is the encoded batch, which the receiver
  decodes. The mailbox is first in, first out. The prefix theorems of `Channel` ask nothing of the far
  side's frame translation; those of `EndToEnd` about deletion and progress ask that
  it accepts the session, and `RelayInbound.RelayAccepts` says exactly when the relay
  does.
- One call per session id runs at a time, as `run_one_cycle` groups by sid and joins.
- Sequence counters stay below 2^64; the pump is enabled only while two more seqs fit.
- Inputs to a step: the clock, random draws, which downloads succeed and in what
  order they finish, whether a local write succeeds, which profile wins a race.
- `room` is how many sends the mailbox still accepts before the session driver
  leaves; `None` stands for a driver that stays. Theorems that hold only while the
  driver is receiving say so through it. The client's session leaves its table only
  after its driver has stopped; the relay leaves files alone whose session it does
  not have.
- The cache's clock does not run backwards between calls.
- `usize` is 64 bits. Lengths of in-memory buffers do not overflow it, so
  the chunked decoder's checked additions fail only where its length test fails too.

## Where the code and its comments differ

- The batch codec's comment speaks of 256 frames; the count is one byte and the cap
  is 255. Nothing in `drive_client.rs` bounds the preface put into the open batch:
  `Pumping.OpenBatchDecodes` gives the exact condition, at most 254 read buffers. The
  only caller that passes a preface stays far below it, because the proxy refuses a
  request head past 64 KiB (src/proxy_server.rs:3842, 3864-3888);
  `UploadSizes.ProxyOpeningsArrive` is the corollary for such prefaces.
- Eviction from the breaker map is described as dropping entries whose cooldown
  has passed. It also drops every entry that has no cooldown, strikes included
  (`Breaker.EvictedForgets`); the fallback "without a cooldown first" never applies.
- The chunked decoder is described as stopping cleanly at end of input. A body that
  ends with a complete chunk but without the zero chunk is refused
  (`Chunked.EndOfInputRefused`), while one cut within that chunk's closing CRLF is
  accepted (`Chunked.CutIff`).
- A file whose batch holds a frame kind the receiver rejects, behind frames it
  accepts, is deleted with its tail undelivered. `PeerFiles.IllegalKindLosesTail`
  says exactly when; `PeerFiles.ConnectAfterDataIsLost` is an instance. No sender
  in the repository emits such a batch.
- The relay's address parser is documented with failures going back to the client as
  an Error frame. The poll worker leaves the file instead, so a session whose Connect
  is refused never starts (`EndToEnd.RefusedNeverStarts`).
- A first record longer than 32769 bytes is accepted or refused depending on how it
  arrives (`HelloReplay.EveryChunkingAccepts`).

## Model

| member | source | states |
|---|---|---|
| `Wire.FrameRoundTrip` | drive-wire/src/frame.rs:81-126 | decoding undoes encoding, whatever bytes stand behind, if and only if the frame has this version and a payload within the cap |
| `Wire.ReadBatch` | drive-wire/src/frame.rs:280-322 | the cursor loop computes the recursive batch decoder, with each error in its place |
| `Wire.BatchRoundTrip` | drive-wire/src/frame.rs:251-322 | a batch of encodable frames survives the wire if and only if it has 1 to 255 frames; otherwise which error the wrapped count causes |
| `WireExact.FrameLayout` | drive-wire/src/frame.rs:81-90 | where each field of an encoded frame stands, the byte of each kind, and seq and length in network order |
| `WireExact.FrameExact` | drive-wire/src/frame.rs:94-126 | an input decodes to a frame if and only if it starts with the encoding of that frame and the frame is encodable |
| `WireExact.FrameErrors` | drive-wire/src/frame.rs:94-126 | which error every other input gives |
| `WireExact.BatchExact` | drive-wire/src/frame.rs:280-322 | an input decodes to a batch if and only if it is the magic, a count of 1 to 255 and that many length-prefixed frames, each with any slack behind it, and nothing more |
| `Replay.ReplayWindow.CheckNext` | src/drive_crypto.rs:597-618 | accept, replay and future are told apart exactly by comparison with the number of seqs accepted so far, also when the counter is exhausted |
| `Replay.ReplayWindow.Check` | src/drive_crypto.rs:581-589 | the loose check passes exactly the seqs above the high-water mark |
| `Replay.ReplayWindow.Commit` | src/drive_crypto.rs:628-633 | the window never moves back, and advances by one after an accepted check |
| `Replay.NonceInjective` | src/drive_crypto.rs:532-536 | two 64-bit seqs have the same 12-byte nonce only if they are equal |
| `Replay.AadInjective` | src/drive_crypto.rs:542-547 | the associated data determines both session and seq |
| `WireExact.NonceBytes` | src/drive_crypto.rs:532-536 | the nonce is the seq, least significant byte first, and four zero bytes |
| `WireExact.AadBytes` | src/drive_crypto.rs:542-547 | the associated data is the session id and the seq, most significant byte first |
| `Receiver.Session.CommitFrames` | src/drive_client.rs:1458-1526 | the frames of a batch are sent and committed one by one up to the first foreign sid, wrong seq, rejected kind or closed mailbox; window and mailbox afterwards, and whether the batch starts below the window |
| `Receiver.Session.CommitFrame` | src/drive_client.rs:1458-1526 | one frame is taken exactly when it is this session's next, translates and is sent, and it is committed only then; an old one is told apart |
| `Receiver.Session.DeliverPrepared` | src/drive_client.rs:1443-1544 | consumed, duplicate or blocked, and which file is deleted, as a function of the old state |
| `Receiver.Session.StartDownloads` | src/drive_client.rs:1306-1346 | stale files are deleted, files past a missing expected seq are left, the rest are downloaded |
| `Receiver.Session.JoinDownloads` | src/drive_client.rs:1348-1356 | whatever order tasks finish in, the usable batches come back as the same multiset and oversized files are deleted |
| `Receiver.Session.ProcessGroup` | src/drive_client.rs:1257-1369 | one call equals the specification of a poll for some arrival order of the usable downloads |
| `Cleanup.StaleIsDeleted` | src/drive_client.rs:1313-1322 | in every poll of a live session each listed file below the window is deleted |
| `Cleanup.OversizedIsDeleted` | src/drive_client.rs:1378-1406 | each file over the size cap at or above the window is deleted as soon as the expected seq is listed |
| `Cleanup.DeadGroupIsDeleted` | src/drive_client.rs:1268-1305 | all listed files of a client session that is gone, or of an exhausted counter, are deleted, and nothing is delivered |
| `Cleanup.UnknownIsLeft` | drive-relay/src/poll.rs:473-527 | the relay leaves everything as it is for a session it does not have |
| `Cleanup.DeletedOnlyFor` | src/drive_client.rs:1257-1369 | a poll of a live session deletes no other file: stale, over the cap, or a batch that the window has reached |
| `Delivery.PollInOrder` | src/drive_client.rs:1257-1369 | one poll keeps the in-order invariant |
| `Delivery.PollAppends` | src/drive_client.rs:1257-1369 | one poll appends to any mailbox the peer's next frames translated, one for each seq the window moved |
| `Delivery.ExactlyOnceInOrder` | src/drive_client.rs:1443-1544 | over every run of polls with any subsets, repeats, reorderings, failures and driver exit, the events are exactly the peer's frames 0..n-1 translated, each once, n being the window's count |
| `PeerFiles.DeliverPeerBatch` | src/drive_client.rs:1443-1544 | a peer batch at the window is delivered whole or the driver is gone; an earlier one is a duplicate, a later one blocks |
| `PeerFiles.RunSettled` | src/drive_client.rs:1299-1333 | the window sits on a batch boundary after every run, unless the driver is gone |
| `PeerFiles.DeletionNeverLosesData` | src/drive_client.rs:1299-1333 | over every run, while the driver is receiving, every frame of every deleted file stands in the mailbox, translated, at the place of its seq |
| `PeerFiles.PrefetchRefinesSequential` | src/drive_client.rs:1292-1366 | with an accepting mailbox one poll hands over exactly the frames of the batches that a reader taking usable ones one at a time would, and its window ends there |
| `PeerFiles.PeerFilePrepares` | src/drive_client.rs:1371-1441 | a file of a batch within the caps is never discarded and is used whenever it opens; one of any other batch never is |
| `Gaps.RunBelow` | src/drive_client.rs:1257-1369 | no run of polls passes a batch that no file holds, that is over a cap or that was never sent, whatever the translation |
| `ArrivalOrder.ArrivalOrderIrrelevant` | src/drive_client.rs:1348-1366 | the order in which downloads finish does not change the state reached, the set of deleted files included, also with duplicate files |
| `PeerFiles.PeerIsAuthentic` | drive-wire/src/frame.rs:232-238 | a peer that cuts its stream into files named by first seq meets the hypothesis of exactly-once delivery |
| `PeerFiles.IllegalKindLosesTail` | src/drive_client.rs:1501-1543 | a delivered file is deleted with frames undelivered if and only if it opens with an accepted kind and holds a rejected one |
| `PeerFiles.ConnectAfterDataIsLost` | src/drive_client.rs:1562-1574 | a concrete r2c file, Data then Connect, whose second frame is lost |
| `Sender.DataFramesFromBytes` | src/drive_client.rs:569-578 | consecutive seqs, frames of 1 byte to 16 KiB, as many as the rounded-up quotient |
| `Pumping.DataFramesCarryBytes` | src/drive_client.rs:569-578 | the payloads concatenate to the bytes given |
| `Sender.Pump.FlushBatch` | src/drive_client.rs:665-707 | the pending frames become one upload and the timer is disarmed; nothing happens when none is pending |
| `Sender.Pump.PushFrame` | src/drive_client.rs:720-753 | the push rule with its caps, tiers and deadline, as a function of the old state |
| `Sender.Pump.Turn` | src/drive_client.rs:887-1016 | one wake-up of the select loop equals one step of the pump's transition function |
| `Sender.Pump.PumpSession` | src/drive_client.rs:845-1018 | the loop equals the run of that function over its events |
| `Pumping.SenderConserves` | src/drive_client.rs:569-1018 | over every run: open batch, flushed batches and pending are frames 0..next-1 without gap or repeat, their Data payloads are exactly the local bytes, kinds are Connect Data* Eof? Close?, and nothing is pending once the pump has returned |
| `PumpEvents.FramesByEvents` | src/drive_client.rs:887-1016 | over every run, what the frames say and how the pump ended as a function of the events alone: one Data frame for each read, Eof where the local side ended, Close last after a failure or the second half-close |
| `PumpEvents.KindsByEvents` | src/drive_client.rs:887-1016 | an Eof frame is sent if and only if the local side ended, a Close frame if and only if a read or a due write failed or both sides half-closed, and no Data frame is empty |
| `PumpEvents.TimerUploads` | src/drive_client.rs:948-954 | when the timer fires the waiting frames become one upload and nothing waits |
| `Pumping.NothingStranded` | src/drive_client.rs:720-753 | a frame waits exactly while a deadline is armed, and alone; every later upload has 1 or 2 frames and at most 32 KiB |
| `Pumping.CapsNeverTrigger` | src/drive_client.rs:634-642 | count cap, byte cap and bulk tier never decide: a push flushes exactly when told to or when a frame is waiting, otherwise the wait is 5 or 50 ms |
| `Pumping.WrittenIsRelayPrefix` | src/drive_client.rs:889-945 | if no local write fails, the local socket receives exactly the relay's bytes before its first Eof or Close |
| `Pumping.NoNonceReuse` | src/drive_client.rs:622-627 | the first seqs of all uploads of a session strictly increase, so no nonce is used twice |
| `Pumping.OpenBatchDecodes` | src/drive_client.rs:602-614 | the open batch decodes at the peer if and only if the embedded preface is at most 254 read buffers |
| `UploadSizes.UploadsReadable` | src/drive_client.rs:622-707 | over every run each flushed batch is within the receiver's caps and decodes to itself there, and so does the open batch if and only if closed formulas of address and preface length hold |
| `UploadSizes.ProxyOpeningsArrive` | src/drive_client.rs:809-825 | for every address and preface within the proxy's head cap the open batch decodes at the peer and fits the size cap |
| `Channel.SenderIsWellCut` | src/drive_client.rs:644-707 | over every run of the pump the files of a session the far side accepts meet the whole hypothesis of the receiver theorems: contiguous, of legal kinds, within both caps |
| `Channel.SenderIsContiguous` | src/drive_client.rs:644-707 | whatever the far side makes of the frames, the files cut one stream numbered from 0 and are named by their first seq |
| `Channel.ReceivedIsPrefixOfSent` | src/drive_client.rs:644-663 | for any translation, with uploads landing in any order or never, what is received is always the translation of a prefix of the frames sent and never passes a batch that has not landed or is over a cap |
| `Channel.BytesArriveInOrder` | src/drive_client.rs:644-707 | for any translation the Data bytes handed over are a prefix of the bytes taken from the near socket, at every point of every run |
| `EndToEnd.NothingDeletedIsLost` | src/drive_client.rs:1299-1333 | in every run of the whole system, while the driver of an accepted session is receiving, a deleted file is one of the uploads and all of its frames stand in the mailbox |
| `EndToEnd.AllShownAllDelivered` | src/drive_client.rs:1257-1369 | after any run, one poll that shows and opens every upload delivers every frame uploaded; once the pump has returned, every frame of the session |
| `EndToEnd.RefusedNeverStarts` | drive-relay/src/poll.rs:711-818 | if the far side refuses the Connect frame, no run hands over anything |
| `EndToEnd.UnacceptedNeverStarts` | drive-relay/src/poll.rs:619-818 | a session the far side does not accept, for its Connect frame, the size or the frame count of its open batch, hands over nothing in any run |
| `RelayInbound.ConnectRoundTrip` | drive-relay/src/state.rs:125-153 | the relay dials the printed host and port if and only if the port is not 0 and the host is unbracketed and not blank or one non-empty bracketed name; and which host it dials |
| `RelayInbound.PaddedAddress` | drive-relay/src/state.rs:125-129 | white space around an address changes nothing |
| `RelayInbound.RelayAccepts` | drive-relay/src/state.rs:206-229 | exactly which sessions of the client the relay accepts: that condition on host and port, and both caps on the open batch |
| `RelayInbound.RelayStartsOnlyAccepted` | drive-relay/src/poll.rs:619-818 | a session that fails that condition never starts at the relay, in any run |
| `RelayInbound.RelayAcceptsProxied` | drive-relay/src/poll.rs:631-645 | the relay accepts every dialable host and port with any request head that the proxy lets through |
| `Sockets.ServerGetsClientPrefix` | drive-relay/src/state.rs:206-229 | at every point of every run, the payloads the relay is told to write to the server are a prefix of the bytes the client read |
| `Sockets.BrowserGetsRelayPrefix` | src/drive_client.rs:889-945 | a pump fed in order from the mailbox that any run of polls filled has written to the browser a prefix of the relay's Data bytes, whatever writes fail |
| `Kinds.MailboxByKind` | src/drive_client.rs:1562-1574 | over every run of polls entry i of the mailbox is the relay's frame i by kind: data for Data with its payload, end for Eof, close for Close or Error |
| `Kinds.ClientTranslates` | src/drive_client.rs:1562-1574 | exactly Hello and Connect are refused |
| `Kinds.HalfCloseKeepsRunning` | src/drive_client.rs:914-934 | a relay that sent neither Close nor Error leaves the pump running until the local side ends |
| `Kinds.SessionByKind` | drive-relay/src/state.rs:206-229 | over every run of the system event i of the relay's session is the client's frame i by kind |
| `Kinds.RelayTranslates` | drive-relay/src/state.rs:206-229 | Hello is refused, Data, Eof, Close and Error are always taken, and each by its kind |
| `Kinds.HalfCloseArrives` | drive-relay/src/state.rs:206-229 | once all uploads are delivered the relay has been told to half-close if and only if the browser ended its side, and to shut down if and only if the client closed |
| `ClientHello.SeekExtension` | src/direct_mode.rs:425-476 | on any bytes the walk ends, stays in bounds and finds what the recursive lookup finds |
| `ClientHello.LookupPrinted` | src/camouflage.rs:219-262 | the first extension of a type in a printed hello is found past any others, with exactly its body |
| `ClientHello.PrefixHasNoBlock` | src/direct_mode.rs:425-476 | a hello cut anywhere before the end of its extension block is not read |
| `ServerName.FindHost` | src/direct_mode.rs:425-502 | the two walks together compute the host range on any bytes |
| `ServerName.HostRoundTrip` | src/direct_mode.rs:425-502 | for any session id, ciphers, compression, other extensions and other name entries in front, the range found is exactly the host |
| `ServerName.NoHostFound` | src/direct_mode.rs:425-502 | no extension, no host; and none in any strict prefix of a hello |
| `Alpn.ReadOffer` | src/camouflage.rs:219-290 | the ALPN walk with its moving index computes the recursive reader, on any bytes |
| `Alpn.OfferRoundTrip` | src/camouflage.rs:219-290 | a non-empty protocol list behind any other extensions is returned exactly |
| `Alpn.NoOfferFound` | src/camouflage.rs:219-290 | no extension, no offer; and none in any strict prefix of a hello |
| `Alpn.ChooseUpstream` | src/camouflage.rs:298-311 | the loop computes the upstream offer: the offered protocols among h2 and http/1.1 in order of first mention without repeats, or exactly http/1.1 when there are none |
| `Alpn.UpstreamForHello` | src/camouflage.rs:219-311 | parser and chooser together on a printed hello: exactly the spliceable protocols of its list, in its order, or http/1.1 alone |
| `Alpn.UpstreamWithoutOffer` | src/camouflage.rs:219-311 | a hello without an offer, or cut anywhere, gets http/1.1 alone |
| `HelloExact.FoundIsCarried` | src/direct_mode.rs:425-476 | an extension is found only in bytes that are a hello carrying it as the first of its type, whatever follows |
| `HelloExact.CarriedIsFound` | src/camouflage.rs:219-262 | and is found, with exactly its body, in all such bytes |
| `HelloExact.HostIsCarried` | src/direct_mode.rs:478-502 | a host is found only where such an extension names it first, for arbitrary input |
| `HelloExact.CarriedHostIsFound` | src/direct_mode.rs:478-502 | and wherever one does, also with bytes the walk never reaches behind it |
| `HelloExact.OfferIsCarried` | src/camouflage.rs:266-290 | an offer is read only where such an extension prints it, for arbitrary input |
| `HelloExact.CarriedOfferIsRead` | src/camouflage.rs:266-290 | and wherever one does |
| `SplitPoints.EqualSplits` | src/direct_mode.rs:381-399 | the loop that skips repeats yields min(n, k) - 1 cuts and says which |
| `SplitPoints.EvenIsCuts` | src/direct_mode.rs:381-399 | those cuts ascend strictly inside the data and every chunk has the floor or the ceiling of n / k bytes |
| `SplitPoints.RandomSplits` | src/direct_mode.rs:403-419 | for every outcome of the generator, exactly min(count, n - 1) strictly ascending points in (0, n): the sorted front of the shuffled pool |
| `SplitPoints.PartialShuffle` | src/direct_mode.rs:403-419 | the in-place swaps compute the partial Fisher-Yates shuffle of the old array |
| `SplitPoints.AnyCutsPossible` | src/direct_mode.rs:403-419 | and every set of cuts of that size is produced by some outcome |
| `SplitPoints.NormalizeCuts` | src/direct_mode.rs:557-559 | filtering, sorting and removing repeats keeps exactly the positions inside the data, once each, ascending |
| `SplitPoints.ComputeSplits` | src/direct_mode.rs:508-567 | for every profile: strictly ascending inner cuts, none for passthrough or fewer than 2 bytes, at least one otherwise, and which ones, the seven places around a host written out |
| `Profiles.FragmentingHasChunks` | src/direct_mode.rs:214-263 | every profile but passthrough asks for at least 2 chunks |
| `Fragmenter.WritePieces` | src/direct_mode.rs:584-602 | the write loop writes exactly the pieces between the cuts, or a prefix of them up to the write that fails |
| `Fragmenter.FragmentedWrite` | src/direct_mode.rs:579-602 | the chunks are non-empty and concatenate to the data; at least 2 when fragmenting 2 bytes or more; even sizes for even splits; with a host strategy no chunk holds the whole host if and only if the host has at least 2 bytes |
| `HelloReplay.ReadFirstRecord` | src/direct_mode.rs:1246-1288 | how reading ends after exactly how many reads, at most 32769 reads and 36864 bytes |
| `HelloReplay.OneEnding` | src/direct_mode.rs:1246-1288 | every sequence of reads has exactly one ending, and it is a record if and only if one is accepted |
| `HelloReplay.EndingOnBytes` | src/direct_mode.rs:1259-1278 | the ending read off the bytes: a record is a complete handshake record, each refusal has its reason in the bytes, and before the last read more was wanted |
| `HelloReplay.WrongTypeRefused` | src/direct_mode.rs:1263-1268 | five bytes or more that do not open with a handshake record are refused as such, however they arrive |
| `HelloReplay.EveryChunkingAccepts` | src/direct_mode.rs:1259-1278 | a stream that opens with a complete record is accepted under every chunking if and only if that record ends within 32769 bytes |
| `HelloReplay.PrefacedStream.PollRead` | src/direct_mode.rs:898-918 | what is read followed by what remains is what remained before, within the buffer |
| `HelloReplay.Drain` | src/direct_mode.rs:898-918 | any sequence of buffer sizes yields the stream in order from its first byte |
| `HelloReplay.FallBack` | src/direct_mode.rs:996-1024 | the stream handed on starts at byte 0 of the client's stream, whatever was read ahead |
| `Breaker.ReplayedMeans` | src/direct_mode.rs:1503-1560 | a host's entry says what its reports say: strikes are failures since the profile's own last win, the count is the losing streak, the cooldown runs from the last loss of a streak of 3 or more |
| `Breaker.SinceIsSuffix` | src/direct_mode.rs:1470-1482 | "since the last win" is the longest run of reports at the end of the history without one |
| `Breaker.Updated` | src/direct_mode.rs:1521-1550 | the loop over failed profiles and the winner branch compute the entry after one report |
| `Breaker.EvictedForgets` | src/direct_mode.rs:1446-1468 | eviction drops exactly the hosts not cooling down, or, from 256 that are, one that comes back soonest |
| `Breaker.HostBreaker.EvictIfAtCap` | src/direct_mode.rs:1446-1468 | nothing changes below the cap or for a known host; at the cap the map shrinks as described |
| `Breaker.HostBreaker.NoteDialOutcome` | src/direct_mode.rs:1503-1560 | keeps at most 256 entries, no empty one, each the replay of its host's own reports; other hosts are untouched unless the map is full, and then changed only by eviction, which alone shortens a host's memory |
| `Breaker.HostBreaker.HostState` | src/direct_mode.rs:1370-1560 | in every reachable state each entry means its host's reports since it was last forgotten, and all of them while at most 256 hosts were ever reported; a cooldown is set if and only if there are 3 failures |
| `Breaker.HostBreaker.Tripped` | src/direct_mode.rs:1419-1439 | tripped if and only if the streak is at least 3 and its last loss is under 30 s ago |
| `ProfileChoice.RotationIs` | src/direct_mode.rs:1575-1595 | for any strikes, threshold and floor: no repeats, never passthrough, exactly the profiles below the threshold or, below the floor, the whole pool |
| `ProfileChoice.AllowedIs` | src/direct_mode.rs:1600-1618 | at least 2 profiles are in rotation, all of them fragmenting |
| `ProfileChoice.PreferredIsAllowed` | src/direct_mode.rs:1779-1798 | for any remembered index the first profile tried is in rotation and fragments |
| `ProfileChoice.PreferredIs` | src/direct_mode.rs:1635-1649 | which profile is tried first: the remembered winner where it is in rotation, else p05 where that is, else the first of the table that is |
| `ProfileChoice.FirstTried` | src/direct_mode.rs:1779-1805 | in every outcome the profile dialled first is that one |
| `ProfileChoice.TwoConnections` | src/direct_mode.rs:1913-1934 | the winner of one connection is the first attempt of the next, wherever it is in rotation |
| `ProfileChoice.AttemptList` | src/direct_mode.rs:1805-1862 | the attempts are a duplicate-free enumeration of exactly the profiles in rotation, the preferred one first |
| `ProfileChoice.Remember` | src/direct_mode.rs:1651-1669 | a passthrough win is not remembered; any other is found again by its index |
| `ProfileChoice.TryLocalBypass` | src/direct_mode.rs:1740-1934 | which outcome files which report about the host, that it respects the rotation at the snapshot, and what index is stored, with other connections' reports in between |
| `ProfileChoice.RunDials` | src/direct_mode.rs:1779-1911 | who wins, by the dials, and that every outcome respects the rotation of the snapshot |
| `ProfileChoice.FileReport` | src/direct_mode.rs:1902-1934 | each outcome files its report, once, on whatever entry the host has by then |
| `ProfileChoice.AllFailedIsTotal` | src/direct_mode.rs:1878-1902 | a failed race reports a failure of every profile in rotation at the snapshot, each once, and no winner |
| `ProfileChoice.OneStrikeEach` | src/direct_mode.rs:1878-1902 | after a failed race each profile in rotation at the snapshot has exactly one more strike than the entry the report meets, and no other has |
| `ProfileChoice.PartialSuccess` | src/direct_mode.rs:1913-1934 | a race won after a failed first attempt strikes that attempt alone and clears the winner, whatever the entry is by then |
| `ProfileChoice.FastPathClears` | src/direct_mode.rs:1821-1824 | a first attempt that wins clears its own strikes and the host's losing streak, and nothing else |
| `ProfileChoice.DeadHostKeepsPool` | src/direct_mode.rs:1888-1901 | one total failure of a host with equal strikes keeps them equal, also when others report in between, and the pool is untouched or forgiven at once |
| `ProfileChoice.DeadHostRun` | src/direct_mode.rs:1888-1901 | after any number of total failures and nothing else, with any snapshots in between, all strikes are equal and the whole pool is in rotation |
| `Cache.ResponseCache.Get` | src/cache.rs:51-66 | returns the latest response stored and not evicted since, if and only if it has not expired; an expired one leaves the list; hits and misses are counted |
| `Cache.ResponseCache.Put` | src/cache.rs:68-95 | a rejected response changes nothing; an accepted one goes last after the shortest oldest-first prefix of the others that makes room, each eviction on the record |
| `Cache.ResponseCache.MakeRoom` | src/cache.rs:81-88 | the eviction loop always makes room, drops the shortest prefix and never takes its `break`; subtraction never clips |
| `Cache.LastStoredMeans` | src/cache.rs:51-95 | "latest and not evicted" read off the history: stored at some point, and neither stored again nor evicted after |
| `Cache.FaithfulAfterPut` | src/cache.rs:76-95 | after a put the map agrees with the history for every key |
| `Cache.FaithfulAfterGet` | src/cache.rs:51-66 | after a get the map agrees with the history, except for responses that have expired |
| `Cache.RetainItems` | src/cache.rs:60-78 | removing a key from the queue removes its item and keeps the order of the others |
| `Chunked.FindSubslice` | src/doh.rs:506-511 | the first occurrence of a non-empty needle, or proof that there is none |
| `ChunkSize.SizeLineParses` | src/doh.rs:413-416 | white space, an optional plus, hexadecimal digits in either case with any leading zeros, white space and an optional extension read as the number the digits stand for |
| `ChunkSize.ParsedIsSizeLine` | src/doh.rs:413-416 | and no other line has a size |
| `Text.SpelledReads` | src/doh.rs:416 | every numeral of a number in range reads as it: any leading zeros, each digit in either case, with or without a plus |
| `Text.ReadIsSpelled` | src/doh.rs:416 | and nothing else does |
| `Text.Utf8RoundTrip` | src/doh.rs:413 | decoding UTF-8 undoes encoding for every sequence of scalar values |
| `Text.Utf8Exact` | src/doh.rs:413 | and nothing else decodes: no overlong form, surrogate or value past the last plane |
| `Chunked.DecodeChunked` | src/doh.rs:409-433 | the loop ends on any input, computes the decoder, and its output is never longer than its input |
| `Chunked.DecodeRendered` | src/doh.rs:409-433 | every body made of valid chunks and a valid ending decodes to its data |
| `Chunked.DecodedIsRendered` | src/doh.rs:409-433 | every body that decodes is made that way, so the accepted inputs are known exactly |
| `Chunked.RoundTrip` | src/doh.rs:407-433 | for every list of non-empty chunks, with any data and extensions and sizes written in either case with any leading zeros, encoding plus the zero chunk decodes to the concatenation |
| `ChunkSize.HexIsNumeral` | src/doh.rs:416 | lower case without leading zeros is one of the ways to write a size |
| `Chunked.CutIff` | src/doh.rs:420-430 | a complete body cut anywhere decodes if and only if the cut falls behind the zero size or within the closing CRLF of a chunk |
| `Chunked.CutInside` | src/doh.rs:424-430 | and then the chunks up to the cut are delivered |
| `Chunked.EndOfInputRefused` | src/doh.rs:407-412 | a body that ends with a complete chunk but no zero chunk is refused |

## Left out

- Key agreement, HKDF, ChaCha20-Poly1305, bech32m and certificate checks: foreign libraries, kept as the assumption that an opened body is the peer's.
- Drive REST calls, OAuth and the token cache: only success or failure of a step is an input.
- The listing cursor and the polling interval: a blocked file can fall out of later listings, so no unconditional delivery follows and none is claimed.
- The Base32 filename codec: file names are a datatype of kind, session and seq.
- The relay's session bootstrap: a poll that creates the session from its first file counts as one that finds it, and discarding a malformed Hello, evicting idle sessions and re-creating one from a leftover first file are not modelled. The rest of its receiving loop is the client's but for the translation, the size cap of the first file and leaving files without a session, and those are modelled.
- Bytes that a failed local write may have written: the pump's `written` leaves them out, and `Pumping.WrittenIsRelayPrefix` is about runs without such a failure.
- The process-wide breaker of the Google path: two relaxed atomics without a joint invariant.
- `breaker_key`: host names reach the breaker as keys already stripped of port and case.
- Overflow of `n * i` in `equal_splits`: needs buffers far beyond memory.
- Detached deletions that fail: a file that stays behind is a later poll's listing, which the run theorems allow.
- `WorkerSemaphoreClosed` and lock poisoning: the semaphore is never closed, and a panic while holding a lock is outside the model.
- Socket dialing, DNS racing, JSON parsing, TTL headers, configuration, installers, user interface and logging: I/O or branch tables that would add only easy members.
