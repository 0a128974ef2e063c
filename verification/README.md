# Verified models of the debuglet system

Dafny models of five parts of the debuglet repository, and proofs about them. `dafny verify dfyconfig.toml` checks
everything.

1. **Packet attribution** (`tools/verify_pcap.py`, `tools/tag_vectors.py`). Executors tag the packets of a measurement
   run with the low 16 bits of SipHash-2-4 under a key derived from a TESLA hash chain (RFC 4082), in the IP
   identification field. The verifier reads a capture, checks that the disclosed chain key leads to the public anchor,
   and attributes a packet to a run if a key that was still secret at capture time reproduces its tag. Both tools are
   written independently; the models keep them apart (`HashInput`/`TagInput`, `HkdfCounted`/`HkdfUntilLong`,
   `SipHashPadded`/`SipHashWords`, `TagOf`/`ComputeTag`), prove each against one specification, and `Agreement` draws
   the conclusion. SHA-256, HMAC-SHA256 and the SipHash round are parameters: every theorem holds for any functions, and
   none needs an assumption about collisions. `Tesla` states the security argument over disclosure runs, in which keys
   are published no earlier than scheduled and any known key can be hashed to the one before it.
2. **Executor supervisor** (`cmd/executor/main.go`): the reconnect loop, one session with its two goroutines, and the
   deferred closes, as steps of a state machine whose surroundings may do anything the code allows (`Supervisor`); and
   what a whole run amounts to, read off its steps without the machine's own variables (`SupervisorHistory`).
3. **Connection ownership** (`cmd/dispatcher/main.go`): every interleaving of `Accept`, listener `Close` and connection
   `Close` by any number of threads (`Ownership`), and the listener as an object whose calls are runs of that protocol
   (`ConnectionListener`).
4. **Output drain** (`cmd/dbl/logs.go`): the cursor loop, against any server the SDK's checks let through and against an
   honest server of a log that is still growing.
5. **Inventory traversal** (`deploy/scripts/executor-ids.py`): the explicit stack against recursive preorder.

| part | modules |
|---|---|
| bytes and arithmetic | `Bytes`, `Bits`, `Arithmetic`, `Wrappers` |
| the tag | `PacketInput`, `SipHash`, `Crypto`, `HashChain`, `Checksum`, `TaggedPacket`, `Agreement` |
| captures | `LinkLayer`, `Capture`, `BlockWalk`, `Pcap`, `Pcapng` |
| attribution | `Schedule`, `FirstOccurrences`, `Verifier`, `Tesla`, `EndToEnd` |
| the services | `Supervisor`, `SupervisorHistory`, `Ownership`, `ConnectionListener`, `FollowLogs`, `Inventory` |

Loops that change variables or buffers in place are methods, proved equal to a specification function; what the
repository promises is then proved about that function. Constants, offsets and formats of the specification functions
are pinned by laws that give the values themselves.

## Where the code falls short of a promise

- **A stranded readiness record meets the next session.** `serveSession` ends the retries when it cannot remove the
  readiness record it published (`cmd/executor/main.go:368-372`). A `readiness.Write` that fails after publishing and
  then cannot withdraw its record (`internal/readiness/readiness.go:55-60`) leaves the record behind just the same, but
  goes unnoticed if the session's own cause, transport loss say, replaces the end. The loop then starts a new session.
  `Supervisor.StrandedRecordMeetsNextSession` is such a run, and `SupervisorHistory.RecordAtSessionStart` shows that in
  all runs this is the only way: a record is there when a session is created if and only if a failed write stranded it.
- **Time before the anchor is epoch 0.** The tag's documentation lets epoch t cover an interval that starts at the anchor
  plus t epochs; `epoch_of` (`tools/verify_pcap.py:754-759`) also maps every earlier time to epoch 0.
  `Schedule.EpochIsInterval` follows the code.
- The checksum promise needs no nonzero word: `Checksum.InstalledVerifies` holds for the all-zero header as well, because
  the installed field is then 0xFFFF.

## Model

| member | source | states |
|---|---|---|
| PacketInput.TagInput | tools/verify_pcap.py:239-273 | The in-place zeroing of the verifier yields exactly the canonical input, the first min(64, total length) bytes with every byte the tag does not cover zeroed, or the refusal assigned to the packet, for every byte string |
| PacketInput.HashInput | tools/tag_vectors.py:131-161 | The same for the sender's independent implementation, with its own loops and byte joins |
| PacketInput.ProjectionIsExact | tools/verify_pcap.py:257-273 | Two covered packets have the same input if and only if they agree on every authenticated byte of the input length: nothing mutable matters, and nothing authenticated is lost |
| PacketInput.CanonicalIsIdempotent | tools/verify_pcap.py:260-273 | A canonical input is itself a covered packet whose input is itself |
| PacketInput.TrailingBytesIgnored | tools/verify_pcap.py:257-260 | Bytes after a covered packet, such as link-layer padding, never enter its input |
| PacketInput.RefusedExactly | tools/verify_pcap.py:245-261 | Which packets have no tag and why, in terms of their bytes: version nibble, IHL, total length, the two fragment bytes |
| PacketInput.InputBytes | tools/verify_pcap.py:260-273 | The input is the first min(64, total length) bytes with exactly TOS, identification, flags and offset, TTL, header checksum, options and the ICMP, TCP or UDP checksum zeroed, all given by offset |
| PacketInput.ChangesOnTheWayIgnored | tools/verify_pcap.py:263-272 | Any byte at one of those offsets can change on the way, a router lowering the TTL included, without changing the input |
| PacketInput.SameInputSameFixedBytes | tools/verify_pcap.py:260-273 | Conversely packets with the same input agree on every other byte of its length |
| Checksum.Ipv4Checksum | tools/tag_vectors.py:118-124 | The summing and folding loops end and give the ones' complement of the end-around sum; an odd length raises |
| Checksum.FoldKeepsModulo | tools/tag_vectors.py:122-123 | The end-around carry preserves the sum modulo 65535 |
| Checksum.FoldIsAllOnes | tools/tag_vectors.py:122-124 | A sum folds to 0xFFFF if and only if it is a nonzero multiple of 65535 |
| Checksum.VerifiesExactly | tools/tag_vectors.py:118-124 | A header verifies if and only if its field equals the installed checksum modulo 65535 and some word is not zero |
| Checksum.InstalledVerifies | tools/tag_vectors.py:174-176 | After the computed checksum is installed the checksum over the header is 0, for every even-length header |
| TaggedPacket.TagPacket | tools/tag_vectors.py:169-177 | The in-place writes produce the tagged packet, or fail where Python would raise |
| TaggedPacket.SupportedCanBeTagged | tools/tag_vectors.py:169-177 | Every packet the tag covers can be tagged with every 16-bit tag |
| TaggedPacket.TaggedExactly | tools/tag_vectors.py:169-177 | Tagging succeeds if and only if the packet has 12 bytes, the tag fits 16 bits and the header present has even length |
| TaggedPacket.TagIsReadBack | tools/tag_vectors.py:169-177 | The receiver reads the tag back from the identification field, DF is set, the header checksum verifies, and no other byte changed |
| TaggedPacket.TaggingKeepsInput | tools/tag_vectors.py:169-177 | Writing any tag leaves the tag input, or the reason there is none, unchanged |
| SipHash.SipHashPadded | tools/tag_vectors.py:77-95 | One padded buffer read in 8-byte words computes SipHash-2-4 of the padded message, packed little-endian; a key that is not 16 bytes fails |
| SipHash.SipHashWords | tools/verify_pcap.py:188-231 | Whole words followed by a last word or-ed together byte by byte compute the same function for every message length |
| SipHash.LastWord | tools/verify_pcap.py:219-223 | Or-ing the shifted tail bytes into the shifted length gives the little-endian last block of the padded message |
| SipHash.SipOfShortMessage | tools/verify_pcap.py:211-231 | SipHash-2-4 of a message below eight bytes written out: the four constants, two rounds for its word, four to finish, for any round function |
| SipHash.AbsorbsInOrder | tools/verify_pcap.py:224-228 | Every further word costs two rounds between its two xors, in order |
| SipHash.PackedReadsBack | tools/tag_vectors.py:95 | The eight little-endian output bytes hold the 64-bit result |
| Crypto.HkdfCounted | tools/tag_vectors.py:108-115 | The counted loop computes HKDF of section 2.3 of RFC 5869, or fails when the block counter leaves its byte |
| Crypto.HkdfUntilLong | tools/verify_pcap.py:151-168 | The loop that runs until enough bytes exist computes the same, for every length |
| Crypto.HkdfWrittenOut | tools/tag_vectors.py:108-115 | Section 2.3 of RFC 5869 written out with HMAC alone, for every length and every block of the output |
| Crypto.MeasurementKeyIsHkdf | tools/verify_pcap.py:836-837 | A measurement key is one HKDF block and can always be derived |
| Crypto.TagOf | tools/tag_vectors.py:164-166 | The first two bytes of the packed SipHash output are the tag: the 64-bit value modulo 65536 |
| Crypto.ComputeTag | tools/verify_pcap.py:234-236 | The masked 64-bit value is the same tag, for every key of at least 16 bytes |
| Crypto.TagIsLowBits | tools/verify_pcap.py:234-236 | The tag is SipHash-2-4 under the first 16 bytes of the key modulo 65536, and needs no more of the key |
| Agreement.SameInput | tools/tag_vectors.py:5-12 | Both tools accept the same packets, hash the same bytes, and refuse all others for the same reason |
| Agreement.SameKey | tools/tag_vectors.py:108-115 | Both HKDF loops give the same bytes of the requested length for every length up to 255 blocks, and both fail above |
| Agreement.SameTag | tools/tag_vectors.py:164-166 | From any packet, chain key and run ID both tools reach the same tag, exactly for the covered packets, and it is the specified one |
| HashChain.HashChainForward | tools/verify_pcap.py:134-143 | The loop hashes exactly as often as asked, not at all for a negative count |
| HashChain.HashNSum | tools/verify_pcap.py:134-143 | Hashing a steps and then b steps is hashing a + b steps |
| HashChain.Chain | tools/tag_vectors.py:227-232 | The array filled from its end ends in the seed and holds an honest chain: each key is the hash of the next |
| HashChain.EarlierKey | tools/verify_pcap.py:134-148 | In an honest chain every key follows from any later one by hashing as often as they are apart |
| LinkLayer.ExtractIp | tools/verify_pcap.py:323-372 | The link-type branches and the VLAN loop compute the extracted packet, for every link type and frame |
| LinkLayer.WalkPassesTags | tools/verify_pcap.py:335-342 | The VLAN walk passes any number of stacked tags and stops at the packet's own type |
| LinkLayer.ExtractIsExact | tools/verify_pcap.py:323-372 | A packet is extracted if and only if the frame is a link header of link type 0, 1, 101, 108, 113, 228 or 276, with ethertype 0x0800 or 0x86DD behind any VLAN tags 0x8100, 0x88A8, 0x9100, followed by an IP packet that ends there |
| LinkLayer.ExtractUndoesEncapsulation | tools/verify_pcap.py:326-329 | A whole IPv4 packet comes back unchanged from any link header with any padding behind it |
| LinkLayer.TrimKeepsInput | tools/verify_pcap.py:326-329 | Cutting padding changes neither the tag input nor the reason for having none |
| LinkLayer.ExtractKeepsInput | tools/verify_pcap.py:323-372 | Whatever link header carries an IP packet, it is extracted with its tag input unchanged |
| Pcap.ReadPcap | tools/verify_pcap.py:379-406 | The position loop ends and returns every packet in order, or the error of a bad magic or a short header |
| Pcap.TimestampKeepsParts | tools/verify_pcap.py:405 | Seconds and fraction can both be recovered from a packet's nanoseconds |
| Pcap.ParseUndoesEncode | tools/verify_pcap.py:379-406 | Reading an encoded capture gives back the packets of its frames, for both byte orders and both resolutions |
| Pcap.OneRecordFile | tools/verify_pcap.py:379-406 | For each of the four magics: a file of one record reads as the packet at the format's offsets, with microseconds or nanoseconds |
| Pcap.OtherFilesRefused | tools/verify_pcap.py:381-391 | Exactly the files that start with none of the four magics are refused as not pcap |
| Pcap.TruncationParsesToPrefix | tools/verify_pcap.py:393-399 | A capture cut anywhere behind its 24-byte header reads to a prefix of the whole, and fails only if the whole does |
| Pcapng.ReadPcapng | tools/verify_pcap.py:409-460 | The block loop ends and returns every packet in order, or the error of a block that is too short for its type |
| Pcapng.ReadOptions | tools/verify_pcap.py:429-441 | The option loop ends and computes the resolution, or raises |
| Pcapng.OptionsPass | tools/verify_pcap.py:433-440 | The option walk passes any list of options padded to four bytes and ends with the value of the last nonempty if_tsresol among them |
| Pcapng.DescriptionReads | tools/verify_pcap.py:429-441 | An interface description with any options, with or without an end mark or bytes after it, reads as its link type and that resolution, or microseconds if no option declares one |
| Pcapng.CutResolutionRaises | tools/verify_pcap.py:437-439 | An if_tsresol whose value is cut off raises, whatever options come before it |
| Pcapng.ShortBodiesRaise | tools/verify_pcap.py:428-446 | Interface descriptions below 2 and packet blocks below 20 bytes raise, and no other length does |
| Pcapng.TimestampRoundsDown | tools/verify_pcap.py:448-455 | In every binary or decimal resolution a packet's nanoseconds are the exact time rounded down |
| Pcapng.BlocksAreBlocks | tools/verify_pcap.py:416-427 | Every block takes at least 12 bytes of the data and reads the same whatever follows it |
| Pcapng.SectionHeaderResets | tools/verify_pcap.py:418-422 | Data that starts with a section header reads the same in whatever byte order and with whatever interfaces it is reached |
| Pcapng.ConcatenationReadsInParts | tools/verify_pcap.py:409-460 | Whole blocks followed by a section read as the two parts read apart, even in different byte orders, and fail exactly as the first failing part does |
| Pcapng.TruncationParsesToPrefix | tools/verify_pcap.py:416-427 | Any truncation of a readable capture reads to a prefix of it |
| Pcapng.ParseUndoesEncode | tools/verify_pcap.py:409-460 | Reading undoes encoding for any sequence of sections, interfaces with any options, packets on known or unknown interfaces, and skipped blocks, in either byte order |
| BlockWalk.ReadInParts | tools/verify_pcap.py:409-460 | For any block format that makes progress: whole blocks followed by data that resets the state read as the two parts |
| BlockWalk.ReadOfTruncation | tools/verify_pcap.py:393-406 | For any block format that makes progress: cut data reads to a prefix |
| Schedule.EpochIsInterval | tools/verify_pcap.py:754-759 | An epoch is exactly its half-open interval, and epoch 0 also everything before the anchor |
| Schedule.StillSecretMonotone | tools/verify_pcap.py:707-709 | If a key is still secret, so is every newer one |
| Schedule.ExactMargin | tools/verify_pcap.py:688-709 | The key of epoch t - back is usable at every instant of epoch t if and only if tolerance plus 5 s fit into d - 1 - back whole epochs |
| Schedule.DelayOneNeverUsable | tools/verify_pcap.py:688-691 | With a disclosure delay of one epoch the previous epoch's key is never usable |
| Verifier.VerifyPacket | tools/verify_pcap.py:762-847 | The refusals in their order and the two-epoch loop over runs with its set of seen ones compute the declarative verdict |
| Verifier.ReportedExactly | tools/verify_pcap.py:816-839 | Past the refusals a run is reported with an epoch if and only if it is listed and that is the largest usable candidate epoch whose key reproduces the tag |
| Verifier.ReportedOnceNewestFirst | tools/verify_pcap.py:816-839 | However often a run is listed it is reported once, and the packet's own epoch comes before the one before it |
| Verifier.ReasonExplainsEmpty | tools/verify_pcap.py:766-770 | A reason is given exactly when nothing is reported |
| Verifier.ScheduleRefusals | tools/verify_pcap.py:772-799 | Each refusal about coverage, epoch length, delay below 2, missing keys and a foreign key is given exactly when its case holds and no earlier one does |
| Verifier.DisclosureRefusals | tools/verify_pcap.py:801-814 | A key is reported as due exactly up to d + 1 epochs back, at the time its secrecy and the five seconds of skew are over; older gaps and empty run lists otherwise |
| Verifier.EmptyReasons | tools/verify_pcap.py:840-846 | Past the refusals an empty result is blamed on epoch 0, on a candidate key that may have been public, or on no run, exactly in these cases |
| EndToEnd.Attribute | tools/verify_pcap.py:762-847 | Written out with HMAC, SipHash and times: a run is reported with an epoch if and only if it is listed and that is the newest disclosed epoch whose key, hashed from the disclosed one, gives the packet's tag for the run, in a packet captured in that epoch or the next before the key could be public |
| EndToEnd.DerivedTagIsWireTag | tools/verify_pcap.py:832-837 | Whatever HKDF of the chain key with the run ID and the tag computation give is the tag the verifier looks for |
| EndToEnd.Send | tools/tag_vectors.py:131-177 | The sender's own HKDF, input, SipHash and header writes produce that tag in the packet |
| EndToEnd.SendAndVerify | tools/verify_pcap.py:762-847 | Sender, link header, padding, extraction and verifier run after each other: an honest packet captured in time is attributed to its run, under its own epoch unless the next key gives the same tag |
| FirstOccurrences.FirstInOrder | tools/verify_pcap.py:832-839 | Reported runs come in the order they are first listed |
| Tesla.KnownOnlyAfterSecrecy | tools/verify_pcap.py:707-709 | In every disclosure run a key other than the anchor is known only once its own secrecy has ended, even though later keys hash to it |
| Tesla.SafetyTestIsExact | tools/verify_pcap.py:825-830 | The receiver's test passes if and only if no disclosure run could have revealed the key by the capture time plus tolerance |
| Tesla.AttributionIsSafe | tools/verify_pcap.py:821-830 | Whenever a packet is attributed to epoch e, in no disclosure run was any key of index e or above known by its capture time plus tolerance |
| Tesla.AttributionIsCandidate | tools/verify_pcap.py:816-839 | A match names a listed run and an epoch at least 1, disclosed, and the packet's own or the one before, whose key reproduces the tag |
| Tesla.AttributionIsAnchored | tools/verify_pcap.py:146-148 | The key a match was made with hashes to the published anchor in exactly its epoch's number of steps |
| Tesla.HonestPacketIsAttributed | tools/verify_pcap.py:762-847 | End to end: a covered packet tagged for a listed run in epoch e, captured behind any link header with any padding in epoch e or e + 1 while its key was secret, is attributed to that run, under e unless the newer key gives the same tag |
| Tesla.HonestTagReproduces | tools/verify_pcap.py:794-839 | Such a packet is not refused, its own epoch reproduces the tag, and the newer one does if and only if both keys give the same tag |
| Tesla.VerdictIsStable | tools/verify_pcap.py:797-847 | Once a packet's epoch is disclosed, keys disclosed later change neither matches nor reason |
| Tesla.NothingReportedEarly | tools/verify_pcap.py:800-811 | Before that nothing is reported, so no match is ever withdrawn or changed |
| Supervisor.AlwaysInv | cmd/executor/main.go:240-376 | Every run of the supervisor keeps the invariant on sessions, readiness record, ends and closes |
| Supervisor.SessionsNeverOverlap | cmd/executor/main.go:261-270 | A session is created only after every earlier one joined and none of its goroutines is left |
| Supervisor.UnjoinedKeepsResources | cmd/executor/main.go:246-249 | While a session has not joined, and forever if it never does, neither node nor storage is closed |
| Supervisor.ClosesOnceInOrder | cmd/executor/main.go:246-255 | Node and storage are closed at most once each; on return the node was closed if and only if every session joined, and the storage if and only if the node closed without error |
| Supervisor.NilOnlyWhenCancelledAndClosed | cmd/executor/main.go:240-297 | serveNode returns nil only if its context was cancelled, every session joined and both closes succeeded |
| Supervisor.JoinedHasEnd | cmd/executor/main.go:361-374 | A session that joined always has an end |
| Supervisor.FatalStaysVisible | cmd/executor/main.go:266-277 | A fatal end, a record that could not be removed, or a session that did not join is never retried and always makes serveNode return an error, cancelled or not |
| SupervisorHistory.RecordAtSessionStart | cmd/executor/main.go:317-327 | When a session is created a readiness record is on disk if and only if an earlier failed write stranded it there; never after a failed removal |
| Supervisor.StrandedRecordMeetsNextSession | internal/readiness/readiness.go:55-60 | A run in which a second session starts while the first one's record is still there |
| Supervisor.DelayRange | cmd/executor/main.go:227-230 | The delays that can be drawn are exactly those from half the bound to the bound |
| SupervisorHistory.TimesAreRead | cmd/executor/main.go:328-364 | In every run the healthy time of each session and wait is the time from its readiness to its join, 0 if it never was ready |
| SupervisorHistory.RetryDiscipline | cmd/executor/main.go:256-296 | Over every run only transport loss and lease expiry are retried; each wait is bounded by 30 s and 250 ms doubled once per loss since the last session that was ready for 30 s before its join, and lasts at least half its bound |
| SupervisorHistory.RetriedExactly | cmd/executor/main.go:271-283 | A joined session is followed by a wait if and only if nothing was cancelled and it ended in transport loss or lease expiry |
| SupervisorHistory.EndIsRead | cmd/executor/main.go:334-374 | In every run the end reported is the first thing noticed, overridden by cancellation, by the session's own cause, and by a failed removal |
| SupervisorHistory.NilExactly | cmd/executor/main.go:240-297 | serveNode returns nil if and only if it left its loop cancelled and not after a fatal end, and no close failed |
| SupervisorHistory.FailedJoinKeepsResources | cmd/executor/main.go:246-269 | Once a session fails to join nothing shared is ever closed, no session follows, and the return is an error |
| SupervisorHistory.ClosedExactly | cmd/executor/main.go:246-255 | On return the node was closed exactly once unless a join failed, the storage exactly once if that succeeded, counted over the steps of the run |
| SupervisorHistory.RecordLastsWhileUp | cmd/executor/main.go:317-330 | A published record stays while its session is up and can be removed once the session is stopped |
| Ownership.AlwaysInv | cmd/dispatcher/main.go:492-545 | Every interleaving keeps the invariant on mutex, registration, onces and close counts |
| Ownership.ClosedAtMostOnce | cmd/dispatcher/main.go:530-545 | No connection is closed underneath more than once |
| Ownership.NothingLeaks | cmd/dispatcher/main.go:515-528 | Once a listener Close has returned and no Accept carries a connection, every connection ever accepted was closed exactly once and none is registered |
| Ownership.CloseReturnsClosed | cmd/dispatcher/main.go:537-545 | When the Close of a connection returns, that connection is closed and deleted, whichever thread ran its once |
| Ownership.NoCloseUnderItsMutex | cmd/dispatcher/main.go:504-509 | A connection closed by the holder of the mutex was never owned, so its Close does not need that mutex |
| Ownership.OnlyHolderWrites | cmd/dispatcher/main.go:492-528 | The listener's fields change only in the hands of the thread that holds the mutex |
| Ownership.NeverStuck | cmd/dispatcher/main.go:499-545 | No deadlock: as long as some call has not returned, some unreturned call can take a step |
| Ownership.StepsRunOut | cmd/dispatcher/main.go:499-545 | Every step brings its thread strictly closer to returning and moves no other |
| ConnectionListener.Listener.Accept | cmd/dispatcher/main.go:499-513 | The call is a run of the protocol; it hands out and registers a fresh connection, or closes it once if the listener is closed |
| ConnectionListener.Listener.CloseConn | cmd/dispatcher/main.go:537-545 | The call is a run of the protocol after which the connection is deleted and closed exactly once, however often it is closed |
| ConnectionListener.Listener.Close | cmd/dispatcher/main.go:515-528 | The call is a run of the protocol after which nothing is registered and every connection ever accepted was closed exactly once |
| FollowLogs.FollowLogs | cmd/dbl/logs.go:66-100 | The loop's outcome and emitted entries are those of the recursive reading of its rounds |
| FollowLogs.DrainedExactly | cmd/dbl/logs.go:79-84 | The drain succeeds if and only if it reaches a page that says complete with its final cursor reached |
| FollowLogs.IncompleteExactly | cmd/dbl/logs.go:79-92 | It reports incomplete output if and only if it reaches a page that says truncated with its final cursor reached, or the last page of an exited run that declares no finality, and reports that page's output |
| FollowLogs.StopsAt | cmd/dbl/logs.go:68-98 | Where the loop stops, the page there fixes the outcome, every error included, and what was emitted is all pages up to it |
| FollowLogs.NeverRepeats | cmd/dbl/logs.go:57-61 | Whatever the server sends past the SDK's checks, emitted IDs are new and strictly increasing |
| FollowLogs.GoesOnOnlyForward | cmd/dbl/logs.go:57-61 | A round that goes on without sleeping moves the cursor, so a misbehaving server cannot make the loop spin |
| FollowLogs.NeverWaitsOnFinal | pkg/client/client.go:430-457 | Past the SDK's checks declared output is never slept on and never exceeds its final cursor |
| FollowLogs.HonestIsAccepted | pkg/client/client.go:399-457 | The SDK's checks never refuse a page of an honest server, at any cursor and any growth of the log |
| FollowLogs.EmitsGaplessly | cmd/dbl/logs.go:64-100 | At any moment the emitted entries are the log's own from the start cursor to the current one, without gap or repeat |
| FollowLogs.DrainsExactly | cmd/dbl/logs.go:64-100 | A nil return, or a report of truncated output, comes exactly after all entries behind the start cursor up to the final cursor |
| FollowLogs.DrainFinishes | docs/client.md:34-36 | Once the end is declared the drain finishes within as many rounds as entries remain, plus one |
| Inventory.ComputeExecutorIds | deploy/scripts/executor-ids.py:8-24 | The explicit stack ends, also on cyclic groups, and equals recursive preorder with hosts in first-visit order, or fails with the same group |
| Inventory.SucceedsExactly | deploy/scripts/executor-ids.py:11-20 | The traversal succeeds if and only if every reachable group is present and well formed |
| Inventory.VisitsReachableOnce | deploy/scripts/executor-ids.py:11-15 | On success exactly the reachable groups are visited, each once |
| Inventory.ListsReachableHostsOnce | deploy/scripts/executor-ids.py:21-22 | Exactly the hosts of reachable groups are listed, each once |
| Inventory.HostsOnce | deploy/scripts/executor-ids.py:21 | A host keeps the place of its first visit whatever groups come later |
| Inventory.HostsInListedOrder | deploy/scripts/executor-ids.py:21 | A group's hosts are added in the order it lists them |
| Inventory.SiblingsInOrder | deploy/scripts/executor-ids.py:22 | What earlier children of a group lead to, groups and hosts, comes before anything only later children lead to |
| Inventory.IdsAnswerHosts | deploy/scripts/executor-ids.py:23-24 | Each listed ID is its host's executor ID, or the host's name if it has none |
| Inventory.GoodExactly | deploy/scripts/executor-ids.py:16-20 | A group is readable if and only if it is an object whose hosts and children are lists of names or missing, with the error for each other case |
| Inventory.VisitsOnlyReachable | deploy/scripts/executor-ids.py:11-20 | A failure names a reachable group that cannot be read, with the reason it cannot |

## Left out

- The inside of SHA-256, HMAC-SHA256 and the SipHash round, and any claim about collisions: they are arbitrary functions; the reference vectors of `check_siphash_reference` are therefore not evaluated.
- `DispatcherClient`, base64, JSON, TLS, rate-limit retries, `main` reporting and `read_capture`'s choice by file magic: network and text plumbing. The schedule, the disclosed key and the run list are inputs of `VerifyPacket`; a run ID is the bytes it is encoded to.
- The text of each refusal is a constructor with the values it names; formatting the due date, which raises for dates Python cannot represent, is not modelled. The verifier's loop over the two candidate epochs is written as two calls.
- TagPacket: an index out of range, a byte out of range and an odd header length are one failure, not three exceptions.
- `Packet`'s printable source and destination addresses, and the earlier name `extract_ipv4`.
- SupervisorHistory.RecordAtSessionStart: the promise that no session starts while an earlier record could not be removed is false for a stranded record; what is stated is exactly when it holds.
- The supervisor is a state machine on values, because `serveSession` runs three goroutines at once: joined error lists, log messages, the nil logger and error texts are not modelled; an error is nil, a typed end or another error. What a session reports as its cause, and whether `Wait`, the closes and the timer succeed, is free.
- Close: the object of `ConnectionListener` runs one call at a time; concurrent calls are the subject of `Ownership`. The errors the underlying closes return are not modelled, and neither is closing the underlying listener beyond its place in the order. Connections are numbers, and the once of each is a set on the listener.
- `serveCombinedWithMetadata`, `memberListener`, the HTTP and gRPC servers: the outcome depends on library behaviour.
- FollowLogs.HonestIsAccepted: loss reasons and the run state text are not modelled; the state `unknown` and future states are one case without a constraint on the final cursor, so more pages are allowed than the SDK lets through.
- FollowLogs: one run of the loop is a finite sequence of answers; `Running` is the outcome when they run out. Cursors are unbounded integers.
- ComputeExecutorIds: the group table is a map from names to groups, host variables are a map from names to IDs; host variables of another shape, and an `executor_id` that is not a string, are not modelled.
- The other `dbl` commands, release, packaging and CI scripts and generated protocol code: field-by-field validation.
