# Tree protocol verification

Models, in Dafny 4.11, of the parts of the WWATP tree service that carry its guarantees, and proofs of those
guarantees for all inputs, all runs and all interleavings of messages. `dafny verify dfyconfig.toml` checks the
whole project.

The service keeps trees of labelled nodes in *backends*. A server route numbers the writes of its backend into a
bounded journal; client backends poll it, replay what is new, and fetch a page of nodes when they have fallen out of
the journal. Nodes, notifications and transactions travel as chunks of at most 1200 bytes. Backends are mounted into
composites, redirected, mirrored, and constructed from a configuration in dependency order.

| files | component | main results |
|---|---|---|
| Journal, JournalServer, JournalClient, JournalProtocol, JournalRuns, JournalWitnesses | journal replication | replica of a prefix without gaps, convergence after a gap, the exact condition for a gap |
| JournalAgreement, JournalRecovery | journal replication | exact guards on the writes under which replica and recovery agree with the server |
| MemoryTree | in-memory tree | what a delete along child names takes, and what a transaction erases |
| JournalTimer | poll timer | polling starts, goes on, one poll at a time and an interval apart |
| Text, NodeText, NodeTextLoops, NodeTextReading | text form of a node | the parser undoes the printer, with the exact exceptions; which other texts it reads, and as what |
| Chunks, Codec, CodecLayout, CodecLoops, TreeMessage | chunked codec | exact framing at every nesting level, never decodable early, responses complete at their last chunk; the texts and headers on the wire |
| Wire | bytes of a chunk | they read back, and nothing else is read |
| LongStringCpp | long strings in C++ | agreement with the JS split, and the exact length up to which the prediction is right |
| ConstructionOrder | construction order | success exactly for acyclic repeat-free graphs, genuine cycles, the unreachable fallback |
| PropertyBlob | packed properties | the buffer refines a list of named values under every run of edits |
| Mounts, MountedBackends | mounting and relabelling | the lookup is a scan under an exact condition; a redirect to a mount is the mounted backend |
| FileBackend | versions and transactions | wrap-around order, the checks all backends share, no lost updates over every run |
| CloningMediator | two-way mirror | exactly when equal trees stay equal, no echo, never an older node |
| ChunkScheduler | outgoing queues | plan and pop agree for every random choice, on chunks and on bytes |

`TreeModel` holds the values all components exchange. A `string` is a string of bytes, one character a byte, so
text encodings are the identity. Where the original updates fields or loops, the model is a class or a method that is
proved against a specification function; lemmas state what that function means.

## Where the code does not do what it is meant to

Each of these is proved, with the exact condition under which the intended property holds.

- After a gap a client whose backend deletes along child names, as the in-memory tree in C++ does, may lose a label
  of the snapshot for good (`JournalWitnesses.RecoveryLosesChild`). Whatever deletes mean to the two sides, a label is
  safe if every delete above it since the index is followed by a write of the label or finds it deleted
  (`JournalRuns.GapRecoverySettled`). No weaker condition on labels and kinds of writes is enough
  (`JournalRecovery.RecoversExactly`). Where deletes go by path, as in the file backend and the simple backend in JS,
  recovery always converges (`JournalRuns.GapRecoveryConverges`).
- A transaction of the in-memory tree erases the one key, but its listeners hear of a plain delete. A gap-free client
  in memory then loses the stored children of that node, which the server keeps
  (`JournalWitnesses.TransactionOrphansChild`). It follows the server exactly as long as no transaction deletes a node
  that has a stored child (`JournalRuns.NoGapReplica`).
- A page tree that is older than the client's index puts old values back unless they are written again
  (`JournalRuns.StaleSnapshotRegresses`), and a run gets there (`JournalWitnesses.StaleSnapshotIsReached`).
- Numbers of notifications are cut to 32 bits in JS (`Codec.NotificationFramed`).
- Mount lookup goes wrong exactly when one mount extends another by a character up to '/'
  (`Mounts.LookupIsScanExactly`), and the overlap test of mounting does not prevent that (`Mounts.AcceptedYetHiding`).
  The comment above that test says that "A" and "A/B" overlap; the code says they do not, and it compares only the
  lengths of two segments (`Mounts.OverlapSeesTwinsExactly`).
- A repeated dependency is counted twice and released once, so a sort without any cycle can fail
  (`ConstructionOrder.RepeatIsRejected`); the sort succeeds exactly without cycles and repeats
  (`ConstructionOrder.TopologicalSort`).
- The C++ length of a long string is narrowed to 32 bits (`LongStringCpp.PredictionExact`).
- The response to a delete never completes in the JS client (`TreeMessage.DeleteResponseNeverCompletes`); the
  responses with a node, nodes, a journal or a label complete exactly at their last chunk (`TreeMessage.NodeResponse`
  and the rows behind it).
- Of several writes of one parent in the same transaction only the last stays (`FileBackends.OnlyLastWriteStays`), so
  writes are counted exactly when there is one to a transaction (`FileBackends.WritesCountedExactly`).
- The children of a transaction are checked exactly when its parent is stored (`FileBackends.ChildrenCheckedExactly`),
  so creating a parent replaces a stored child.
- A stored parent can be deleted through the child list of its own sub-transaction
  (`FileBackends.ParentDeletedAsChild`); `FileBackends.StoredSurvivesExactly` says when it stays.
- A span inserted under a fixed type name is written as a length and bytes all the same. What that leaves is a list of
  named values exactly when the bytes fit by chance (`PropertyBlob.SpanDescribableExactly`).
- An optional text that is Just of the empty text reads back as Nothing, a max version of zero as 256, and version numbers
  in 16 bits (`NodeText.RoundTripIff`).
- A mediator lets equal trees differ exactly in three cases (`CloningMediators.RunStaysEqualExactly`): a versioned
  write is older than what the mirror has; a backend over files deletes a label that is not stored but has stored
  labels below it, which the callback takes for no change (`CloningMediators.UnstoredDeleteIsSkipped`); a transaction
  in memory deletes a node that has a stored child (`CloningMediators.ErasedChildrenAreLost`).

## Model

| member | source | states |
|---|---|---|
| `JournalServer.Http3ServerRoute.constructor` | common/frontend/http3_server_cpp/http3_server.h:26-30 | a new route has journalled nothing but the placeholder numbered 0 |
| `JournalServer.Http3ServerRoute.OnNotification` | common/frontend/http3_server_cpp/http3_server.cpp:121-130 | the callback numbers the write one past the newest entry and drops the oldest on overflow: the journal stays the newest suffix of the history |
| `JournalServer.Http3ServerRoute.LowerBound` | common/frontend/http3_server_cpp/http3_server.cpp:182-185 | the binary search stops at the first entry whose number is not below the index |
| `JournalServer.Http3ServerRoute.GetJournal` | common/frontend/http3_server_cpp/http3_server.cpp:177-213 | the answer is all entries from the client's number on when that number is in the journal, and the 0, 2, latest marker otherwise |
| `JournalServer.Http3ServerRoute.GetPageTree` | common/backend_cpp/memory/src/simple_backend.cpp:88-99 | a page tree is the stored nodes among the children of the page node, in their order |
| `JournalServer.StoredAmongHolds` | common/backend_cpp/memory/src/simple_backend.cpp:88-99 | a page tree carries exactly the stored ones of the children, each with the value under its label |
| `JournalServer.StoredInOrder` | common/backend_cpp/memory/src/simple_backend.cpp:88-99 | a page tree holds the stored children in the order of the list and as often as it names them: one entry to each stored position, behind those of the stored positions before it |
| `JournalServer.Http3ServerRoute.Upsert` | common/frontend/http3_server_cpp/http3_server.cpp:121-130 | a server write changes the store and is appended to the history |
| `JournalServer.Http3ServerRoute.ApplyTransaction` | common/frontend/http3_server_cpp/http3_server.cpp:100-106 | a transaction throws and changes nothing unless all its checks pass; else the backend is what the transaction makes of it, the history has its changes in order, and the backend is still the replay of the history |
| `JournalServer.Http3ServerRoute.NotifyChanges` | common/backend_cpp/memory/src/simple_backend.cpp:134-149 | listeners hear of every change of a transaction, parent before children |
| `JournalServer.TransactionIsReplay` | common/backend_cpp/memory/src/memory_tree.cpp:85-173 | on either kind of backend a transaction of nodes under their own labels is the replay of the writes its listeners hear of |
| `JournalServer.AnswerFrom` | common/frontend/http3_server_cpp/http3_server.cpp:177-200 | where the lower bound of an index leaves the answer: the suffix from it, or the marker |
| `JournalServer.Http3ServerRoute.Delete` | common/frontend/http3_server_cpp/http3_server.cpp:121-130 | a server delete takes what its backend takes a delete to mean, and is appended to the history |
| `JournalSpec.JournalShape` | common/frontend/http3_server_cpp/http3_server.h:26-30 | the journal is never empty, contiguous, within its bound, ends at the newest write, and holds exactly the numbers since the first one kept |
| `JournalSpec.JournalAppend` | common/frontend/http3_server_cpp/http3_server.cpp:121-130 | appending and erasing the front keeps precisely the newest suffix |
| `JournalSpec.GapIffNotInJournal` | common/frontend/http3_server_cpp/http3_server.h:46-52 | a client declares a gap if and only if its index is no number of the journal, and the answer always ends at the newest write |
| `JournalSpec.AnswerCarriesUnseen` | common/backend_cpp/http3_client/http3_client_backend.cpp:537-540 | without a gap the entries that are applied are exactly the writes after the client's index |
| `JournalSpec.MarkerIs` | common/frontend/http3_server_cpp/http3_server.cpp:192-198 | an index that is no number of the journal is answered 0, 2 and the newest number, all without a label |
| `JournalSpec.JumpExactly` | common/backend_cpp/http3_client/http3_client_backend.cpp:522-534 | any answer: the scan finds a gap between entries if and only if some solicited number is more than one above the solicited one before it; going back is none |
| `JournalSpec.LastSolicitedIs` | common/backend_cpp/http3_client/http3_client_backend.cpp:535-544 | any answer: the last entry is the last that answers the poll, or the first of all when none does |
| `JournalSpec.NewerAppend` | common/backend_cpp/http3_client/http3_client_backend.cpp:536-539 | any answer: each entry numbered above the index is applied, in order |
| `JournalSpec.UnsolicitedIsApplied` | common/backend_cpp/http3_client/http3_client_backend.cpp:524-544 | an entry that answers no poll, anywhere in an answer, opens no gap and is not the last one, but is applied where it stands |
| `JournalSpec.ReplayAt` | common/backend_cpp/file/file_backend.cpp:537-579 | where deletes go by path, the last write that touches a label decides its value, whatever either store held before |
| `JournalSpec.TakesIsDeleted` | common/backend_cpp/memory/src/memory_tree.cpp:33-61 | what either kind of delete takes: by path every stored key below the label, by child names every key a chain of stored nodes leads to |
| `JournalSpec.ReplayValue` | common/backend_cpp/http3_client/http3_client_backend.cpp:668-686 | whatever a delete means: a replay leaves nothing at a label that a delete sweeps away for good, else its last upsert, else what was there |
| `JournalSpec.ReplaysAgreeExactly` | common/backend_cpp/http3_client/http3_client_backend.cpp:668-686 | two stores that start alike at a label, or see it set, end alike if and only if the writes sweep it away from both or from neither |
| `JournalSpec.ReplayHeard` | common/backend_cpp/http3_client/http3_client_backend.cpp:668-686 | the client's replay depends on what listeners are told alone, not on whether a transaction made the write |
| `JournalSpec.ReplayIsServerStore` | common/backend_cpp/http3_client/http3_client_backend.cpp:668-686 | the client's replay is the server's store unless the empty label was written or a transaction took one key alone |
| `JournalSpec.ReplicableIs` | common/backend_cpp/http3_client/http3_client_backend.cpp:668-675 | the labels a client can follow are all but the empty one and those that start with a slash |
| `JournalAgreement.AppliedAlikeExactly` | common/backend_cpp/memory/src/memory_tree.cpp:152-173 | a write keeps two stores alike if and only if it is not a transaction of the in-memory tree deleting a node that has a stored child |
| `JournalAgreement.ReplayAlikeExactly` | common/backend_cpp/http3_client/http3_client_backend.cpp:668-686 | client and server that take plain deletes alike agree after every write, on every label a client can follow, if and only if no write orphans a stored child |
| `JournalAgreement.SettledSidesAgree` | common/backend_cpp/http3_client/http3_client_backend.cpp:668-686 | whatever deletes and transactions mean to two sides, they agree on a label after writes that settle it, if one writes it or they agreed before: every delete above the label is followed by a write of it or finds it deleted |
| `JournalAgreement.SettledLeavesAlone` | common/backend_cpp/http3_client/http3_client_backend.cpp:668-686 | writes that settle a label without writing it leave it alone all along |
| `JournalAgreement.UnsettledIsLost` | common/backend_cpp/file/file_backend.cpp:537-579 | a client that deletes by path loses every label the writes do not settle, whatever it held |
| `JournalAgreement.UnnamedStays` | common/backend_cpp/memory/src/memory_tree.cpp:33-61 | a server that deletes along child names keeps a stored label that no node names as a child, unless its last write deletes it |
| `JournalClient.Http3ClientBackend.ProcessJournalResponse` | common/backend_cpp/http3_client/http3_client_backend.cpp:517-554 | gap: store untouched and one page request queued; no gap: the store is the replay of the newer entries and nothing is echoed; either way the index moves to the newest solicited entry |
| `JournalClient.Http3ClientBackend.ProcessOneNotification` | common/backend_cpp/http3_client/http3_client_backend.cpp:668-686 | one notification is applied locally and not sent back; an empty label only carries a number |
| `JournalClient.Http3ClientBackend.NotificationGap` | common/backend_cpp/http3_client/http3_client_backend.cpp:517-535 | the scan finds a gap exactly when the answer starts behind the last index or a solicited entry skips a number |
| `JournalClient.Http3ClientBackend.JournalStreamHandler` | common/backend_cpp/http3_client/http3_client_backend.cpp:796-802 | a poll that has been answered is processed and lets the next one go out |
| `JournalClient.Http3ClientBackend.UpdateLastNotification` | common/backend_cpp/http3_client/http3_client_backend.cpp:688-695 | an unsolicited entry never becomes the last index |
| `JournalClient.Http3ClientBackend.GetMutablePageTree` | common/backend_cpp/http3_client/http3_client_backend.cpp:642-655 | the request always names the page "MutableNodes" |
| `JournalClient.Http3ClientBackend.ProcessPageTreeResponse` | common/backend_cpp/http3_client/http3_client_backend.cpp:386-397 | a snapshot is upserted locally and nothing is echoed |
| `JournalClient.Http3ClientBackend.UpsertNode` | common/backend_cpp/http3_client/http3_client_backend.cpp:71-93 | a write of the client goes to the local store and, while synchronising is on, to the server |
| `JournalClient.Http3ClientBackend.DeleteNode` | common/backend_cpp/http3_client/http3_client_backend.cpp:95-117 | likewise a delete, as the local backend means it |
| `JournalClient.Http3ClientBackend.constructor` | common/backend_cpp/http3_client/http3_client_backend.h:17-24 | a new client waits for no poll and its timer stands at 0 |
| `JournalClient.Http3ClientBackend.NeedToSendJournalRequest` | common/backend_cpp/http3_client/http3_client_backend.cpp:711-726 | a poll is sent exactly when none is waited for, the timer is armed and more than an interval has passed; the timer takes the time of the call when it is armed or a poll is sent, and stays otherwise |
| `JournalClient.Http3ClientBackend.SetJournalRequestComplete` | common/backend_cpp/http3_client/http3_client_backend.cpp:728-730 | a completed poll is no longer waited for; the timer stays |
| `JournalClient.Http3ClientBackend.HurryJournalRequest` | common/backend_cpp/http3_client/http3_client_backend.cpp:314-323 | while a poll is waited for, a blocking client sets the timer back to 2.0 |
| `JournalTimer.FirstPoll` | common/backend_cpp/http3_client/http3_client_backend.cpp:711-726 | polling starts: a new client that is first asked at t0 sends nothing up to an interval later, and sends on the first call beyond |
| `JournalTimer.FirstDueSends` | common/backend_cpp/http3_client/http3_client_backend.cpp:711-726 | and goes on: an armed timer without a poll outstanding sends on the first call more than an interval later, and on none before |
| `JournalTimer.PollsAreApart` | common/backend_cpp/http3_client/http3_client_backend.cpp:711-726 | over every run of calls and completions, from any state of the timer, two polls are more than an interval apart, and from the time the timer was armed with |
| `JournalTimer.HurriedPollIsDue` | common/backend_cpp/http3_client/http3_client_backend.cpp:314-323 | a hurried poll, once completed, makes the next one due if and only if an interval has passed since 2.0 |
| `JournalTimer.OneAtATime` | common/backend_cpp/http3_client/http3_client_backend.cpp:711-730 | over every run no poll goes out before the one before it is completed |
| `JournalTimer.NoRateNoPoll` | common/backend_cpp/http3_client/http3_client_backend.cpp:715-718 | without a rate the client never polls |
| `JournalProtocol.NextKeepsInv` | common/backend_cpp/http3_client/http3_client_backend.cpp:517-554 | every step (write, poll, answer, delivery, snapshot) keeps the protocol invariant |
| `JournalProtocol.ExecKeepsInv` | common/backend_cpp/http3_client/http3_client_backend.cpp:517-554 | so does every run |
| `JournalRuns.NoGapReplica` | common/backend_cpp/http3_client/http3_client_backend.cpp:517-554 | over every run: a client that has seen no gap holds the replay of the first writes up to its index; where both backends take plain deletes alike it has agreed with the server at every number if and only if no transaction orphaned a stored child; whatever deletes mean, it agrees on every label the writes settle, and in terms of the stores on those swept away on both sides or on neither |
| `JournalRuns.DeliveryReachesAnswer` | common/frontend/http3_server_cpp/http3_server.cpp:177-213 | over every run: a delivery moves the index to the number of writes at answer time, and counts a gap exactly when the index had left the journal |
| `JournalProtocol.SnapshotAgreement` | common/backend_cpp/http3_client/http3_client_backend.cpp:545-552 | deletes by path: a snapshot no older than the index is right from its own time on although older writes are replayed over it; an older one exactly when the label is written again or unchanged |
| `JournalProtocol.SnapshotAgreesWhenSettled` | common/backend_cpp/http3_client/http3_client_backend.cpp:545-552 | any deletes: the replay over a snapshot no older than the index gives the label the server's value when the writes since the index settle it |
| `JournalRuns.GapRecoveryConverges` | common/backend_cpp/http3_client/http3_client_backend.cpp:642-655 | deletes by path, over every run: after a snapshot not older than the index, later fresh snapshots included, all its labels have the server's value once the index has reached the time of the last snapshot that carried them |
| `JournalRuns.GapRecoverySettled` | common/backend_cpp/http3_client/http3_client_backend.cpp:642-655 | any deletes, over every run: after a snapshot not older than the index, without another snapshot or gap, a label of it has the server's value once the index has reached the snapshot's time, if the writes since the old index settle the label |
| `JournalRecovery.RecoversExactly` | common/backend_cpp/http3_client/http3_client_backend.cpp:642-655 | that guard is exact: over all setups, runs and nodes, a label recovers after writes of given labels and kinds if and only if these settle it |
| `JournalRecovery.UnsettledRunLoses` | common/backend_cpp/http3_client/http3_client_backend.cpp:642-655 | for all writes that do not settle a label, a run from the start with writes of the same labels and kinds ends with the label on the server alone, and nothing under way |
| `JournalRecovery.FollowRunReplays` | common/backend_cpp/http3_client/http3_client_backend.cpp:517-554 | a client that polls after each write replays every one of them without a gap |
| `JournalRuns.BetweenSnapshots` | common/backend_cpp/http3_client/http3_client_backend.cpp:537-540 | between snapshots and without a new gap the client replays the history from its index on |
| `JournalRuns.StaleSnapshotRegresses` | common/backend_cpp/http3_client/http3_client_backend.cpp:386-397 | a snapshot older than the index leaves a label right if and only if it is written again or unchanged since |
| `JournalWitnesses.StaleSnapshotIsReached` | common/backend_cpp/http3_client/http3_client_backend.cpp:386-397 | a run from the start delivers a page after a newer write of its label, and ends with the old node and nothing under way |
| `JournalWitnesses.RecoveryLosesChild` | common/backend_cpp/memory/src/memory_tree.cpp:33-61 | with deletes along child names a run from the start ends with a child on the server that the client has lost, and nothing under way |
| `JournalWitnesses.TransactionOrphansChild` | common/backend_cpp/memory/src/memory_tree.cpp:152-173 | both sides in memory: a run from the start, without a gap, in which an accepted transaction deletes a node with a stored child, ends with that child on the server alone |
| `JournalWitnesses.WritesThenPoll` | common/backend_cpp/http3_client/http3_client_backend.cpp:537-543 | writes that fit into the journal are all taken over by one poll |
| `JournalRuns.PollOutsideJournal` | common/backend_cpp/http3_client/http3_client_backend.cpp:545-552 | polling from outside the journal costs exactly one gap and one page request, changes nothing stored, and ends at the newest number |
| `JournalRuns.PollInsideJournal` | common/backend_cpp/http3_client/http3_client_backend.cpp:537-543 | polling from inside replays what is new and costs no gap |
| `JournalRuns.RecoveryRun` | common/backend_cpp/http3_client/http3_client_backend.cpp:386-397 | poll, gap and snapshot leave the client with every stored child of the mutable page as of the newest write |
| `Chunks.FlattenWithSignal` | js_client_lib/interface/http3_tree_message_helpers.js:170-181 | the splitting loop produces the chunks of the specification, each with the request id in 16 bits and the signal in 8 |
| `Chunks.FlattenedHeaded` | js_client_lib/interface/http3_tree_message_helpers.js:170-181 | every chunk belongs to the request, carries its signal, and fits into a datagram |
| `Chunks.FlattenedShape` | js_client_lib/interface/http3_tree_message_helpers.js:170-181 | nothing is lost, no payload exceeds a datagram, only the last chunk may be short, and the number of chunks is the rounded-up quotient |
| `Chunks.CollectPayloadBytes` | js_client_lib/interface/http3_tree_message_helpers.js:183-194 | the buffer filled by the second pass is the concatenation of the payloads |
| `Chunks.CollectedNone` | js_client_lib/interface/http3_tree_message_helpers.js:183-194 | a chunk without a payload gives no bytes |
| `Chunks.LengthRoundTrip` | js_client_lib/interface/http3_tree_message_helpers.js:238-258 | the eight length bytes read back |
| `Chunks.EightBytes` | js_client_lib/interface/http3_tree_message_helpers.js:248-258 | the first of the eight bytes counts ones, and every byte behind it 256 times as much as the one before |
| `Chunks.LabelFramed` | js_client_lib/interface/http3_tree_message_helpers.js:262-280 | a label is framed exactly: any chunks may follow it, and no strict prefix of its encoding is decodable |
| `Chunks.LabelFits` | js_client_lib/interface/http3_tree_message_helpers.js:262-266 | a label is one chunk of the request, and is refused exactly beyond 1194 bytes |
| `Chunks.CanDecodeLongString` | js_client_lib/interface/http3_tree_message_helpers.js:293-329 | the two scans find the end the specification defines, for every chunk list, lengths across chunk borders included |
| `Chunks.LongStringFramed` | js_client_lib/interface/http3_tree_message_helpers.js:287-341 | long strings are framed exactly |
| `Chunks.LongStringBytes` | js_client_lib/interface/http3_tree_message_helpers.js:287-291 | the bytes of a long string are its length in eight bytes and its characters |
| `Chunks.LongStringExactly` | js_client_lib/interface/http3_tree_message_helpers.js:293-341 | any chunks: a long string ends at n if and only if the first n are payload chunks and the first with which there are as many bytes as the first eight count; it is the bytes behind those eight |
| `Wire.ChunkToWire` | js_client_lib/interface/http3_tree_message_helpers.js:115-141 | the buffer is filled field by field with the bytes of the specification |
| `Wire.WireLayout` | js_client_lib/interface/http3_tree_message_helpers.js:56-95 | where the type, the signal, the request, the length and the payload of a chunk lie in its bytes; their number is its wire size |
| `Wire.WireRoundTrip` | js_client_lib/interface/http3_tree_message_helpers.js:115-167 | a chunk is read back from the front of any bytes if and only if its fields fit 8 and 16 bits |
| `Wire.WireExactly` | js_client_lib/interface/http3_tree_message_helpers.js:143-167 | any bytes: what is read from their front is the chunk whose bytes stand there, and nothing else |
| `Wire.WireCut` | js_client_lib/interface/http3_tree_message_helpers.js:143-167 | no strict prefix of the bytes of a chunk is read |
| `Wire.BatchRoundTrip` | js_client_lib/interface/http3_tree_message_helpers.js:115-167 | a batch of chunks is read back from its bytes |
| `Wire.HeadedFits` | js_client_lib/interface/http3_tree_message_helpers.js:170-181 | what an encoder produces fits the wire, in datagrams of at most 1200 bytes |
| `Codec.MaybeNodeFramed` | js_client_lib/interface/http3_tree_message_helpers.js:534-606 | an optional node is framed exactly |
| `Codec.NotificationFramed` | js_client_lib/interface/http3_tree_message_helpers.js:608-637 | a numbered notification is framed exactly, its number cut to 32 bits: it arrives as it is if and only if the number is below 2^32 |
| `Codec.NewNodeVersionFramed` | js_client_lib/interface/http3_tree_message_helpers.js:682-735 | a node version with its expected number is framed exactly |
| `Codec.SubTransactionFramed` | js_client_lib/interface/http3_tree_message_helpers.js:737-795 | a parent with its counted children is framed exactly |
| `Codec.TransactionFramed` | js_client_lib/interface/http3_tree_message_helpers.js:797-845 | every transaction decodes to itself and to its own end, and no strict prefix of its encoding is decodable |
| `Codec.NotificationVectorFramed` | js_client_lib/interface/http3_tree_message_helpers.js:639-680 | so does every notification vector, its numbers cut to 32 bits |
| `Codec.NodeVectorFramed` | js_client_lib/interface/http3_tree_message_helpers.js:847-885 | so does every node vector |
| `Codec.TransactionHeaded` | js_client_lib/interface/http3_tree_message_helpers.js:797-809 | every chunk of a transaction belongs to its request; so for all that is encoded with chunks |
| `Codec.SubTransactionHeaded` | js_client_lib/interface/http3_tree_message_helpers.js:737-754 | likewise for a sub-transaction |
| `Codec.NewNodeVersionHeaded` | js_client_lib/interface/http3_tree_message_helpers.js:682-705 | likewise for a node version |
| `Codec.NotificationHeaded` | js_client_lib/interface/http3_tree_message_helpers.js:608-615 | likewise for a notification |
| `Codec.MaybeNodeHeaded` | js_client_lib/interface/http3_tree_message_helpers.js:534-550 | likewise for an optional node |
| `Codec.NotificationVectorHeaded` | js_client_lib/interface/http3_tree_message_helpers.js:639-646 | likewise for a vector of notifications |
| `Codec.NodeVectorHeaded` | js_client_lib/interface/http3_tree_message_helpers.js:847-855 | likewise for a vector of nodes |
| `Codec.CountSpanExactly` | js_client_lib/interface/http3_tree_message_helpers.js:829-836 | any chunks: a count is a payload chunk of decimal digits, at least one |
| `CodecLayout.MaybeNodeLayout` | js_client_lib/interface/http3_tree_message_helpers.js:534-550 | on the wire a missing node is the text "Nothing"; a node is "Just ", its text, a line end and the number of its data chunks in 16 small hexadecimal digits, and then those chunks |
| `CodecLayout.NotificationLayout` | js_client_lib/interface/http3_tree_message_helpers.js:608-615 | a notification is a line with its number in 32 bits, a blank and its label, and then the node |
| `CodecLayout.NewNodeVersionLayout` | js_client_lib/interface/http3_tree_message_helpers.js:682-705 | a versioned write is a line with "Nothing", or "Just " and the expected number, a blank and the label, and then the node |
| `CodecLayout.SubTransactionLayout` | js_client_lib/interface/http3_tree_message_helpers.js:737-754 | a sub-transaction is the number of its children in decimal digits, the parent, and the children in order |
| `CodecLayout.CountedLayout` | js_client_lib/interface/http3_tree_message_helpers.js:797-809 | a counted list is its length in decimal digits in one chunk, and then its elements |
| `CodecLayout.EachLayout` | js_client_lib/interface/http3_tree_message_helpers.js:797-809 | the elements follow one another in order |
| `CodecLayout.JustsAppend` | js_client_lib/interface/http3_tree_message_helpers.js:872-885 | a vector of nodes keeps the nodes that are there, in order, and drops the missing ones |
| `CodecLayout.MaybeNodeEndExactly` | js_client_lib/interface/http3_tree_message_helpers.js:552-572 | any chunks: where an optional node ends, by the last 16 characters of its text, large or small digits |
| `CodecLayout.NodeReadExactly` | js_client_lib/interface/http3_tree_message_helpers.js:574-599 | any chunks: which are read as a node, and as which |
| `CodecLayout.NotificationLines` | js_client_lib/interface/http3_tree_message_helpers.js:624-637 | any line: up to the first blank the number, behind it the label; without a blank there is no label |
| `CodecLayout.VersionLines` | js_client_lib/interface/http3_tree_message_helpers.js:707-726 | any line: behind "Nothing" one character is skipped, behind "Just " there is a number up to the next blank, and without a blank neither a number nor a label |
| `CodecLoops.FramedAnywhere` | js_client_lib/interface/http3_tree_message_helpers.js:829-845 | what is framed exactly is found between any chunks before it and any chunks after it |
| `CodecLoops.EncodeTransaction` | js_client_lib/interface/http3_tree_message_helpers.js:797-809 | the encoding loop writes the specified chunks, each with the id and signal of the request |
| `CodecLoops.CanDecodeTransaction` | js_client_lib/interface/http3_tree_message_helpers.js:829-845 | the scanning loop returns the specified end or null |
| `CodecLoops.DecodeTransaction` | js_client_lib/interface/http3_tree_message_helpers.js:811-827 | the decoding loop returns the specified value and end |
| `CodecLoops.EncodeSubTransaction` | js_client_lib/interface/http3_tree_message_helpers.js:737-754 | the encoding loop writes the specified chunks, each with the id and signal of the request |
| `CodecLoops.CanDecodeSubTransaction` | js_client_lib/interface/http3_tree_message_helpers.js:777-795 | the scanning loop returns the specified end or null |
| `CodecLoops.EncodeVectorSequentialNotification` | js_client_lib/interface/http3_tree_message_helpers.js:639-646 | the encoding loop writes the specified chunks, each with the id and signal of the request |
| `CodecLoops.CanDecodeVectorSequentialNotification` | js_client_lib/interface/http3_tree_message_helpers.js:648-662 | the scanning loop returns the specified end or null |
| `CodecLoops.DecodeVectorSequentialNotification` | js_client_lib/interface/http3_tree_message_helpers.js:664-680 | the decoding loop returns the specified value and end |
| `CodecLoops.EncodeVectorTreeNode` | js_client_lib/interface/http3_tree_message_helpers.js:847-855 | the encoding loop writes the specified chunks, each with the id and signal of the request |
| `CodecLoops.CanDecodeVectorTreeNode` | js_client_lib/interface/http3_tree_message_helpers.js:857-870 | the scanning loop returns the specified end or null |
| `CodecLoops.DecodeVectorTreeNode` | js_client_lib/interface/http3_tree_message_helpers.js:872-885 | the decoding loop returns the specified value and end |
| `CodecLoops.TransactionOverWire` | js_client_lib/interface/http3_tree_message_helpers.js:115-167 | every transaction is decoded from the bytes of its chunks |
| `CodecLoops.NodeVectorOverWire` | js_client_lib/interface/http3_tree_message_helpers.js:115-167 | so is every vector of nodes |
| `CodecLoops.NotificationVectorOverWire` | js_client_lib/interface/http3_tree_message_helpers.js:115-167 | so is every vector of notifications, its numbers cut to 32 bits |
| `NodeTextLoops.FormatTreeNodeText` | js_client_lib/interface/http3_tree_message_helpers.js:355-402 | the printer appends the pieces of the text form in order |
| `NodeTextLoops.ParseLengthStringAt` | js_client_lib/interface/http3_tree_message_helpers.js:404-423 | the cursor reads a name, a length and that many characters, and stands behind them |
| `NodeTextLoops.ParseTreeNodeText` | js_client_lib/interface/http3_tree_message_helpers.js:425-526 | the cursor-driven parser computes the parse of the specification, on every text |
| `NodeText.NodeRoundTrip` | js_client_lib/interface/http3_tree_message_helpers.js:355-526 | the parser reads back every node with separator-free names and version fields, the long texts and whatever follows being arbitrary |
| `NodeText.RoundTripIff` | js_client_lib/interface/http3_tree_message_helpers.js:355-526 | it reads back exactly that node if and only if no optional text is Just of the empty text, the version numbers fit 16 bits and the max version is not zero |
| `NodeText.NodeTextAppend` | js_client_lib/interface/http3_tree_message_helpers.js:355-402 | the text form is a prefix of the node text followed by anything |
| `NodeText.NodeTextLayout` | js_client_lib/interface/http3_tree_message_helpers.js:355-402 | the parts of the text in their order: every long text behind its name and length, every list in brackets, an empty span at the end |
| `NodeText.VersionLayout` | js_client_lib/interface/http3_tree_message_helpers.js:376-382 | the fields of the version by name |
| `NodeText.FlagsRead` | js_client_lib/interface/http3_tree_message_helpers.js:498-524 | with a line of flags the parser tells an empty text from none |
| `NodeText.ParseInfoExactly` | js_client_lib/interface/http3_tree_message_helpers.js:462-466 | an item is read as a property if and only if it is a word, a blank and a name in round brackets |
| `NodeTextReading.NodeExactly` | js_client_lib/interface/http3_tree_message_helpers.js:425-526 | any text: it is read as a node if and only if it has the parts in this order, and as the node the parts make |
| `NodeTextReading.TailExactly` | js_client_lib/interface/http3_tree_message_helpers.js:495-525 | any text: the same for the long texts, the flags, the empty span and the end |
| `NodeTextReading.LengthStringExactly` | js_client_lib/interface/http3_tree_message_helpers.js:404-423 | any text: which are read as a text behind its name and length |
| `NodeTextReading.FlagsExactly` | js_client_lib/interface/http3_tree_message_helpers.js:498-509 | any text: the line of flags is optional, and one that says nothing known counts for none |
| `NodeTextReading.MaybeWordExactly` | js_client_lib/interface/http3_tree_message_helpers.js:475-485 | any text: an optional word of the version is "Nothing", or "Just", white space and a word |
| `NodeTextReading.NumberExactly` | js_client_lib/interface/http3_tree_message_helpers.js:475-485 | any text: a number is as many decimal digits as there are, at least one |
| `NodeTextReading.WordExactly` | js_client_lib/interface/http3_tree_message_helpers.js:475-485 | any text: a word is as many characters other than white space as there are, at least one |
| `NodeTextReading.UntilExactly` | js_client_lib/interface/http3_tree_message_helpers.js:457-494 | any text: a list ends at the first place where its end mark stands |
| `NodeTextReading.MaybeTexts` | js_client_lib/interface/http3_tree_message_helpers.js:348-353 | which value an optional word has |
| `NodeTextReading.DepthTexts` | js_client_lib/interface/http3_tree_message_helpers.js:484-484 | the collision depth is read behind the fifth character, trimmed; without a number it is zero |
| `Text.ItemsAre` | js_client_lib/interface/http3_tree_message_helpers.js:461-461 | a list is cut at every comma, each piece trimmed, and dropped if nothing is left of it |
| `Text.UnsignedExactly` | js_client_lib/interface/http3_tree_message_helpers.js:568-568 | a number is as many digits as there are, whatever follows, in base 16 behind an optional 0x |
| `Text.SignedExactly` | js_client_lib/interface/http3_tree_message_helpers.js:568-568 | white space in front and a sign are read; a negative number is cut to 32 bits like any other |
| `LongStringCpp.EncodeLongString` | common/backend_cpp/interface/http3_tree_message_helpers.cpp:56-77 | the C++ loop emits the payloads of the JS split, ceil((length + 8) / 1194) of them |
| `LongStringCpp.PredictionExact` | common/backend_cpp/interface/http3_tree_message_helpers.cpp:90-111 | the countdown predicts that number of chunks if and only if the length is at most 2^31 + 1185 |
| `LongStringCpp.CanDecodeLongString` | common/backend_cpp/interface/http3_tree_message_helpers.cpp:90-111 | the end is the start plus the predicted number, null when chunks are missing |
| `LongStringCpp.DecodeLongString` | common/backend_cpp/interface/http3_tree_message_helpers.cpp:79-88 | the string is the payloads of the predicted chunks without the eight header bytes |
| `LongStringCpp.RoundTrip` | common/backend_cpp/interface/http3_tree_message_helpers.cpp:56-111 | the C++ decoder reads back what either encoder wrote, whatever follows |
| `TreeMessage.HTTP3TreeMessage.PushResponseChunk` | js_client_lib/interface/http3_tree_message.js:69-83 | the signal follows the chunk, and the message completes when its chunks decode under that signal |
| `TreeMessage.NodeResponse` | js_client_lib/interface/http3_tree_message.js:69-112 | a node response pushed chunk by chunk completes exactly at its last chunk, and decodes to the node |
| `TreeMessage.NodeVectorResponse` | js_client_lib/interface/http3_tree_message.js:69-112 | so does a response that carries nodes |
| `TreeMessage.JournalResponse` | js_client_lib/interface/http3_tree_message.js:69-112 | so does a journal response, its numbers cut to 32 bits |
| `TreeMessage.LabelResponse` | js_client_lib/interface/http3_tree_message.js:99-108 | a boolean response is complete with its one chunk |
| `TreeMessage.DeleteResponseNeverCompletes` | js_client_lib/interface/http3_tree_message.js:87-112 | a response to a delete is never complete, its signal being absent from the list |
| `TreeMessage.UnknownNeverCompletes` | js_client_lib/interface/http3_tree_message.js:87-112 | nor is any response under a signal that is not one of the thirteen known ones |
| `ConstructionOrder.Kahn` | common/frontend/wwatp_service_cpp/wwatp_service.cpp:449-475 | the loop lists a backend exactly when it repeats no dependency and all it needs are listed, dependencies first |
| `ConstructionOrder.TopologicalSort` | common/frontend/wwatp_service_cpp/wwatp_service.cpp:413-559 | an order is returned if and only if nothing is missing, the graph is acyclic and no dependency is repeated; it is a permutation with dependencies first; a reported cycle is genuine, and the unprocessed backends are exactly those that lead to a cycle or a repeated dependency |
| `ConstructionOrder.FindMissing` | common/frontend/wwatp_service_cpp/wwatp_service.cpp:424-447 | exactly the pairs whose dependency is not configured are reported |
| `ConstructionOrder.CycleSearch.FindCycle` | common/frontend/wwatp_service_cpp/wwatp_service.cpp:495-532 | success leaves a genuine closed walk; failure finishes everything below the node |
| `ConstructionOrder.ReportCycle` | common/frontend/wwatp_service_cpp/wwatp_service.cpp:478-556 | the search from the first unprocessed backend succeeds when no dependency is repeated; the fallback text is reported only for an acyclic graph with a repeat |
| `ConstructionOrder.SearchSucceeds` | common/frontend/wwatp_service_cpp/wwatp_service.cpp:534-552 | an unprocessed backend that a failed search has finished proves a repeated dependency |
| `ConstructionOrder.LeftBehindExactly` | common/frontend/wwatp_service_cpp/wwatp_service.cpp:478-485 | the loop leaves a backend behind if and only if it needs, directly or not, or is one that is on a cycle or repeats a dependency |
| `ConstructionOrder.OrderIsAcyclic` | common/frontend/wwatp_service_cpp/wwatp_service.cpp:459-475 | a full order with dependencies first excludes every cycle |
| `ConstructionOrder.RepeatIsRejected` | common/frontend/wwatp_service_cpp/wwatp_service.cpp:424-433 | naming a dependency twice keeps a graph acyclic and complete, and makes the sort reject it |
| `ConstructionOrder.RepeatsComeFromComposites` | common/frontend/wwatp_service_cpp/wwatp_service.cpp:561-584 | a dependency is repeated exactly when a composite mounts its own root backend, or one backend twice |
| `ConstructionOrder.DependenciesOf` | common/frontend/wwatp_service_cpp/wwatp_service.cpp:561-584 | which backends a configuration needs, by its type: none, its backend, or its backend and its children; a missing type or backend is an error |
| `ConstructionOrder.ConstructBackends` | common/frontend/wwatp_service_cpp/wwatp_service.cpp:328-365 | in sorted order a backend is created exactly when its own configuration is sound and all it names were created |
| `PropertyBlob.ComputeLayout` | js_client_lib/interface/tree_node.js:430-454 | the layout maps every name, and no other, to where its property lies |
| `PropertyBlob.MetaOfPacked` | js_client_lib/interface/tree_node.js:430-454 | in a packed buffer the layout step finds the extent of the property, behind any bytes and before any bytes |
| `PropertyBlob.BuildPropertiesWithChange` | js_client_lib/interface/tree_node.js:524-593 | the two passes rebuild exactly the packed bytes of the changed list |
| `PropertyBlob.InsertIs` | js_client_lib/interface/tree_node.js:524-593 | an insert puts the property at its index, or behind the last one |
| `PropertyBlob.SetIs` | js_client_lib/interface/tree_node.js:524-593 | a set changes the bytes of the one property in its place |
| `PropertyBlob.DeleteIs` | js_client_lib/interface/tree_node.js:524-593 | a delete takes the one property out and leaves the others in their order |
| `PropertyBlob.ChangeReads` | js_client_lib/interface/tree_node.js:298-376 | every edit keeps the list well-formed; the edited name reads the new value and every other name the old one |
| `PropertyBlob.RunReads` | js_client_lib/interface/tree_node.js:298-376 | after any run of edits the list is well-formed, and names no edit mentions read unchanged |
| `PropertyBlob.RunReadsLast` | js_client_lib/interface/tree_node.js:298-376 | after any run of edits a name reads what the last edit that mentions it made of it |
| `PropertyBlob.DescribableExactly` | js_client_lib/interface/tree_node.js:430-454 | infos and bytes are those of some list of named values if and only if the layout cuts the bytes up whole |
| `PropertyBlob.SpanDescribableExactly` | js_client_lib/interface/tree_node.js:344-365 | a span inserted under any type name leaves such infos and bytes if and only if the type has variable size, or the bytes behind the fixed value are cut up whole again; with fixed properties behind it, if and only if the size is that of the length and the span |
| `PropertyBlob.BoolSpanIsLost` | js_client_lib/interface/tree_node.js:344-365 | in front of fixed properties a span under type "bool" never fits, and one under "float" only if empty |
| `PropertyBlob.PackingIsInjective` | js_client_lib/interface/tree_node.js:430-454 | infos and bytes determine the list of named values |
| `PropertyBlob.FixedRoundTrip` | js_client_lib/interface/tree_node.js:456-498 | a fixed value has the size of its type, and reads back if and only if it is in the range of that type |
| `PropertyBlob.FixedLayout` | js_client_lib/interface/tree_node.js:456-475 | the bytes of each kind of value: eight with the lowest first, those given, or one |
| `PropertyBlob.ReadFixedIs` | js_client_lib/interface/tree_node.js:477-498 | how bytes read under each fixed type: 64 bits in two's complement or without a sign, or any byte but zero |
| `PropertyBlob.SpanLayout` | js_client_lib/interface/tree_node.js:318-328 | a span lies behind four bytes of length, the lowest first |
| `PropertyBlob.PropertyNode.GetProperty` | js_client_lib/interface/tree_node.js:260-275 | a lookup returns extent and bytes of the named property |
| `PropertyBlob.PropertyNode.GetPropertyValue` | js_client_lib/interface/tree_node.js:260-275 | a fixed property reads as its value, one of variable size as its bytes |
| `PropertyBlob.PropertyNode.GetPropertyString` | js_client_lib/interface/tree_node.js:277-285 | a span is returned only for a property of variable size |
| `PropertyBlob.PropertyNode.SetPropertyValue` | js_client_lib/interface/tree_node.js:298-311 | the buffer stays packed and the list has the new value; otherwise nothing changes |
| `PropertyBlob.PropertyNode.SetPropertySpan` | js_client_lib/interface/tree_node.js:318-328 | likewise for spans |
| `PropertyBlob.PropertyNode.InsertProperty` | js_client_lib/interface/tree_node.js:330-342 | a new name is inserted at its index when that is one of the list, else at the end; an existing one changes nothing |
| `PropertyBlob.PropertyNode.InsertPropertySpan` | js_client_lib/interface/tree_node.js:344-365 | the infos and the bytes after the insert; the node stays valid with a type of variable size, and with a fixed one is still describable exactly when the span fits |
| `PropertyBlob.PropertyNode.DeleteProperty` | js_client_lib/interface/tree_node.js:367-376 | the named property goes, the rest stays packed |
| `Mounts.LookupIsScanExactly` | common/backend_cpp/structure/composite_backend.cpp:172-194 | the step back from the upper bound finds the mounted label or ancestor of every label if and only if no mount extends another by a character up to '/' |
| `Mounts.LookupFinds` | common/backend_cpp/structure/composite_backend.cpp:172-194 | under that condition the mount that covers a label is found |
| `Mounts.LowExtensionHides` | common/backend_cpp/structure/composite_backend.cpp:172-194 | a mount extended by such a character is missed for some label below it |
| `Mounts.InsertKeepsSorted` | common/backend_cpp/structure/composite_backend.cpp:169-169 | inserting keeps the mounts in order |
| `Mounts.OverlapSeesRelatedExactly` | common/backend_cpp/memory/src/simple_backend.cpp:11-65 | the overlap test sees an ancestor if and only if both labels have a '/' |
| `Mounts.OverlapSeesTwinsExactly` | common/backend_cpp/memory/src/simple_backend.cpp:11-65 | for all labels: the test answers true if and only if the two share the directory of the shallower one and the next segment of the deeper has the length of its last one |
| `Mounts.OverlapCallsStrangersRelated` | common/backend_cpp/memory/src/simple_backend.cpp:11-65 | so it calls "a/b" and "a/c/d" overlapping |
| `Mounts.QueriesDoNotMatter` | common/backend_cpp/memory/src/simple_backend.cpp:11-24 | what stands behind a question mark in either label does not matter to the test |
| `Mounts.OverlapUndefinedExactly` | common/backend_cpp/memory/src/simple_backend.cpp:20-39 | an empty label overlaps every other, and a label itself; the test reads past the end of two others if and only if neither has a slash, or only one has and its last lies behind the end of the other |
| `Mounts.AcceptedYetHiding` | common/backend_cpp/structure/composite_backend.cpp:163-168 | mounting accepts any two names in one directory of which one extends the other by a character below the slash, such as "x/zoo" and "x/zoo-a", which the lookup confuses |
| `Relabelling.PrefixLabels` | common/backend_cpp/interface/tree_node.cpp:1064-1084 | the label and every child name carry the prefix once; a prefix without '/' throws |
| `Relabelling.ShortenLabels` | common/backend_cpp/interface/tree_node.cpp:1086-1099 | the prefix is cut wherever it stands |
| `Relabelling.RelabelRoundTrip` | common/backend_cpp/interface/tree_node.cpp:1064-1099 | shortening undoes prefixing if and only if neither the label nor a child name starts with the prefix |
| `Relabelling.PrefixSubTransactionLabels` | common/backend_cpp/interface/tree_node.cpp:1122-1131 | the lift to sub-transactions; the empty prefix changes nothing and one without '/' throws |
| `Relabelling.ShortenSubTransactionLabels` | common/backend_cpp/interface/tree_node.cpp:1133-1142 | the lift to sub-transactions |
| `Relabelling.PrefixNewNodeVersionLabels` | common/backend_cpp/interface/tree_node.cpp:1144-1158 | the lift to one node version, with the same two exceptions |
| `Relabelling.ShortenNewNodeVersionLabels` | common/backend_cpp/interface/tree_node.cpp:1160-1171 | the lift to one node version |
| `Relabelling.TransactionRoundTrip` | common/backend_cpp/interface/tree_node.cpp:1122-1171 | the round trip of a whole transaction, exactly for clean ones |
| `MountedBackends.CompositeBackend.GetRelevantBackend` | common/backend_cpp/structure/composite_backend.cpp:172-194 | the branches compute the lookup, and cut the mount with the '/' behind it |
| `MountedBackends.UncoveredIsWhole` | common/backend_cpp/structure/composite_backend.cpp:172-194 | a label that no mount covers leads to the root, whole |
| `MountedBackends.MountIsCut` | common/backend_cpp/structure/composite_backend.cpp:172-194 | the label of a mount leads to it and is cut off whole |
| `MountedBackends.ArrivesBelow` | common/backend_cpp/structure/composite_backend.cpp:15-24 | a node at a mount arrives under the empty label, one below it under what stands behind the slash, and nothing else of it changes |
| `MountedBackends.UncoveredReachRoot` | common/backend_cpp/structure/composite_backend.cpp:15-24 | nodes that no mount covers reach the root as they are, in order, and nothing else reaches any backend |
| `MountedBackends.CompositeBackend.FetchIs` | common/backend_cpp/structure/composite_backend.cpp:4-13 | what a fetch is, by the mounts that cover the label: the answer of the root, the relabelled answer of the mount, or a throw at the mount itself |
| `MountedBackends.CompositeBackend.MountBackend` | common/backend_cpp/structure/composite_backend.cpp:156-170 | refused, changing nothing, for a mounted label, a node of the root, or an overlap; else inserted in order |
| `MountedBackends.CompositeBackend.GetNode` | common/backend_cpp/structure/composite_backend.cpp:4-13 | the answer of the backend the label leads to, relabelled; a node at the mount itself throws; for a label that no mount covers, the answer of the root for that very label |
| `MountedBackends.CompositeBackend.UpsertNode` | common/backend_cpp/structure/composite_backend.cpp:15-24 | every backend gets the nodes that lead to it, one by one and relabelled, and no other; nodes that no mount covers reach the root as they are |
| `MountedBackends.CompositeBackend.ApplyTransaction` | common/backend_cpp/structure/composite_backend.cpp:81-100 | throws exactly when prefixes differ, changing nothing; else one backend applies all of it, relabelled; a transaction that no mount covers is applied by the root as it is |
| `MountedBackends.RedirectReachesMount` | common/backend_cpp/structure/redirected_backend.cpp:14-22 | through a redirect to a mount clean nodes reach the mounted backend as they are, and nothing reaches another |
| `MountedBackends.RedirectedTransaction` | common/backend_cpp/structure/redirected_backend.cpp:64-74 | every sub-transaction of a redirected transaction leads to the mount |
| `MountedBackends.RedirectedBackend.constructor` | common/backend_cpp/structure/redirected_backend.h:12-21 | the prefix ends with one added '/' if it had none |
| `MountedBackends.RedirectedBackend.GetNode` | common/backend_cpp/structure/redirected_backend.cpp:4-12 | a redirect to a mount answers as the mounted backend does, if and only if the node is clean |
| `MountedBackends.RedirectedBackend.UpsertNode` | common/backend_cpp/structure/redirected_backend.cpp:14-22 | a redirect to a mount writes clean nodes as the mounted backend would, and nothing elsewhere |
| `MountedBackends.RedirectedBackend.ApplyTransaction` | common/backend_cpp/structure/redirected_backend.cpp:64-74 | a redirect to a mount applies a clean transaction as the mounted backend does, and never throws |
| `Versions.ExactlyOneOlder` | common/backend_cpp/interface/tree_node.h:74-95 | of two versions that differ in their number alone exactly one is older |
| `Versions.OlderThanIncremented` | common/backend_cpp/interface/tree_node.h:54-95 | a version is older than itself incremented k times for an exact set of k, across wrap-around |
| `Versions.OlderIs` | common/backend_cpp/interface/tree_node.h:74-95 | any two versions go by their numbers alone, and by the length of the left one's sequence |
| `Versions.OlderWithinHalf` | common/backend_cpp/interface/tree_node.h:54-95 | in particular for every k from 1 to (m-1)/2 |
| `Versions.TimesIs` | common/backend_cpp/interface/tree_node.h:54-58 | k increments add k modulo the sequence length |
| `Transactions.AcceptedExactly` | common/backend_cpp/file/file_backend.cpp:792-852 | which transactions are accepted, by the stored numbers alone: a stored parent is written under its number with the next one and its children are as expected, a stored child under its number, or deleted under none, a missing one expected missing; a parent that is not stored is expected missing, and its children are not looked at |
| `Transactions.ChangesOf` | common/backend_cpp/file/file_backend.cpp:855-876 | the changes of a transaction are made one sub-transaction after the other, the parent of each before its children |
| `FileBackends.FileBackend.CanPerformSubTransaction` | common/backend_cpp/file/file_backend.cpp:792-852 | the checks of one sub-transaction, in the branches of the original |
| `FileBackends.FileBackend.PerformSubTransaction` | common/backend_cpp/file/file_backend.cpp:855-876 | the parent, then the children, are written or deleted |
| `FileBackends.FileBackend.ApplyTransaction` | common/backend_cpp/file/file_backend.cpp:757-789 | throws and changes nothing unless every sub-transaction passes against the initial store; else performs all |
| `FileBackends.CommitCounts` | common/backend_cpp/file/file_backend.cpp:757-876 | an accepted transaction moves the version of a parent it writes one on, however often it writes it, and leaves it otherwise |
| `FileBackends.VersionCountsCommits` | common/backend_cpp/file/file_backend.cpp:757-876 | over every run the version of the parent is the first plus the number of commits, modulo the sequence length |
| `FileBackends.StaleIsRefused` | common/backend_cpp/file/file_backend.cpp:792-852 | a transaction that expects the first version is accepted only if the commits are a multiple of the sequence length |
| `FileBackends.OnlyLastWriteStays` | common/backend_cpp/file/file_backend.cpp:757-789 | all writes of a stored parent in one accepted transaction carry the same number, and only the last stays |
| `FileBackends.WritesCountedExactly` | common/backend_cpp/file/file_backend.cpp:757-789 | over every run: every accepted write of the parent is counted by its version if and only if no accepted transaction writes it twice |
| `FileBackends.ChildrenCheckedExactly` | common/backend_cpp/file/file_backend.cpp:792-852 | acceptance vouches for the children of a parent if and only if that parent is stored |
| `FileBackends.CreateReplacesChild` | common/backend_cpp/file/file_backend.cpp:797-803 | a transaction that creates a parent replaces a stored child, whatever version it has |
| `FileBackends.StoredSurvivesExactly` | common/backend_cpp/file/file_backend.cpp:757-876 | a stored label survives an accepted transaction if and only if the last change that touches it, if any, is a write; as a parent it is never deleted |
| `FileBackends.ParentDeletedAsChild` | common/backend_cpp/file/file_backend.cpp:828-873 | a sub-transaction that writes a stored parent and names it as a child to delete is accepted and deletes it |
| `MemoryTrees.MemoryTree.DeleteNode` | common/backend_cpp/memory/src/memory_tree.cpp:33-61 | the deletion loop computes the sweep of the specification |
| `MemoryTrees.RemoveStaysInSubtree` | common/backend_cpp/memory/src/memory_tree.cpp:33-61 | deleting a label takes its node, takes nothing outside its subtree, and changes no other node |
| `MemoryTrees.RemoveTakesDescendants` | common/backend_cpp/memory/src/memory_tree.cpp:33-61 | the nodes that go are the label and, from parent to child, everything below it, no more and no less |
| `MemoryTrees.RemoveTakesLinked` | common/backend_cpp/memory/src/memory_tree.cpp:33-61 | a key goes if and only if a chain of stored nodes and child names leads to it from the label |
| `MemoryTrees.RemovedAlone` | common/backend_cpp/memory/src/memory_tree.cpp:33-61 | a delete takes the node alone if and only if no child of it is stored |
| `MemoryTrees.OccursIs` | common/backend_cpp/memory/src/memory_tree.cpp:50-55 | the path filter keeps a name if and only if the label is a part of it, with anything before and behind |
| `MemoryTrees.SubChangedAt` | common/backend_cpp/memory/src/memory_tree.cpp:152-173 | what a sub-transaction leaves at a label: what its last child of that label says, else what the parent says, else what was there |
| `TreeModel.DeletedSubtreeIs` | common/backend_cpp/file/file_backend.cpp:537-579 | a delete by path takes the label and everything below it, and changes nothing else |
| `TreeModel.SubtreeIs` | common/backend_cpp/file/file_backend.cpp:537-579 | below a label lies what continues it behind a slash |
| `MemoryTrees.MemoryTree.ApplyTransaction` | common/backend_cpp/memory/src/memory_tree.cpp:85-105 | throws and changes nothing unless every sub-transaction passes its checks against the initial tree; else makes all changes |
| `MemoryTrees.MemoryTree.PerformSubTransaction` | common/backend_cpp/memory/src/memory_tree.cpp:152-173 | the parent is written or erased, then the children, each alone |
| `MemoryTrees.TransactionIsChanges` | common/backend_cpp/memory/src/memory_tree.cpp:85-173 | with nodes under their own labels a transaction is its changes one by one |
| `MemoryTrees.MemoryTree.UpsertNode` | common/backend_cpp/memory/src/memory_tree.cpp:26-31 | the nodes are stored under their labels, the last of a label staying |
| `CloningMediators.CloningMediator.MediatorCallback` | common/frontend/mediator_cpp/cloning_mediator.cpp:4-35 | a change being mirrored is ignored; any other is mirrored to the other side by at most one write, which is stated, and the side it came from is not written |
| `CloningMediators.CloningMediator.UpsertNode` | common/backend_cpp/memory/src/simple_backend.cpp:71-79 | the written side gets that one write and no echo; the other side mirrors every node in order, each by one write of it unless it is there already or older |
| `CloningMediators.CloningMediator.DeleteNode` | common/backend_cpp/memory/src/simple_backend.cpp:81-86 | likewise for a delete |
| `CloningMediators.CloningMediator.ApplyTransaction` | common/backend_cpp/memory/src/simple_backend.cpp:134-149 | a transaction through an idle mediator leaves both trees as its changes would, told one by one, and is written once to its side and change by change to the other |
| `CloningMediators.ChangesRun` | common/backend_cpp/memory/src/simple_backend.cpp:134-149 | making all changes before telling of any comes to the same as telling of each at once |
| `CloningMediators.RunStaysEqualExactly` | common/frontend/mediator_cpp/cloning_mediator.cpp:4-50 | over every run, versioned or not, over files or in memory: equal trees are equal after every command, as if there were one tree, if and only if no versioned upsert leaves a node older than the mirror has, no delete by path names an unstored label above a stored one, and no transaction in memory deletes a node with a stored child |
| `CloningMediators.RunStaysEqual` | common/frontend/mediator_cpp/cloning_mediator.cpp:4-50 | so in memory, without versions and transactions, equal trees stay equal under every run of writes on either side |
| `CloningMediators.UnstoredDeleteIsSkipped` | common/frontend/mediator_cpp/cloning_mediator.cpp:14-20 | by path the mirror keeps what lies below a deleted label that is not stored itself |
| `CloningMediators.ErasedChildrenAreLost` | common/frontend/mediator_cpp/cloning_mediator.cpp:14-20 | in memory the mirror loses the stored children of a node that a transaction deletes |
| `CloningMediators.UnversionedIsUpsert` | common/frontend/mediator_cpp/cloning_mediator.cpp:27-31 | skipping nodes that are there already changes nothing |
| `CloningMediators.VersionedNeverOlder` | common/frontend/mediator_cpp/cloning_mediator.cpp:21-26 | at no step of a mirrored list is a node replaced by an older one |
| `CloningMediators.VersionedListExactly` | common/frontend/mediator_cpp/cloning_mediator.cpp:21-26 | the mirror of a list of nodes equals the list if and only if no node that stays is older than what it replaces |
| `ChunkScheduler.QuicConnector.PlanForNOutgoingChunks` | common/transport/include/quic_connector.h:254-300 | for every random choice the planned batch has min(n, matching total) chunks from distinct streams of the request, and the planned size is the number of its bytes on the wire |
| `ChunkScheduler.QuicConnector.PopNOutgoingChunks` | common/transport/include/quic_connector.h:213-240 | the loop pops the specified chunks and leaves the specified queues, none of them empty |
| `ChunkScheduler.QuicConnector.NoMoreChunks` | common/transport/include/quic_connector.h:242-252 | true exactly when none of the streams has a chunk |
| `ChunkScheduler.QuicConnector.Enqueue` | common/transport/src/quic_connector.cpp:2731-2744 | chunks go behind what is queued, and no empty queue appears |
| `ChunkScheduler.QuicConnector.RequestProcessed` | common/transport/src/quic_connector.cpp:2639-2682 | what a request handler produced is queued unless it is a lone signal, which may close the stream |
| `ChunkScheduler.QuicConnector.CloseStream` | common/transport/src/quic_connector.cpp:2673-2682 | the queue of a closed stream goes |
| `ChunkScheduler.PopIsBatch` | common/transport/include/quic_connector.h:213-300 | popping the planned streams with the planned budget gives the planned batch |
| `ChunkScheduler.PoppedInOrder` | common/transport/include/quic_connector.h:213-240 | behind what the streams before it gave, each stream gives the front of its queue, as much as is left of the budget |
| `ChunkScheduler.PopSplitsQueues` | common/transport/include/quic_connector.h:213-240 | every queue is its share of the batch followed by what is left |
| `ChunkScheduler.PlanThenPop` | common/transport/include/quic_connector.h:213-300 | plan and pop agree on number, bytes, and what stays queued where |
| `ChunkScheduler.PopLeavesNoneEmpty` | common/transport/include/quic_connector.h:233-235 | popping leaves no empty queue |

## Left out

- QUIC, TLS, sockets, event loops and the JS transports: foreign libraries and I/O.
- Threads, mutexes and blocking waits: every operation is one atomic step, the time of a call is a parameter, and
  `notificationBlock_` is not modelled.
- JournalProtocol: one server lifetime, one client that does not write, one poll outstanding; entries numbered
  (uint64_t)-1 are handled by the client model, and like the server's code the server model never adds any.
- Listener registration: the journal records every write of the backend, by request or by transaction, not only those
  below registered labels.
- JournalServer.Http3ServerRoute.ApplyTransaction: requires every node to be stored under the label of its change, and
  on a file backend no delete of the empty label, which empties it; the original does not look at either.
- CloningMediators.CloningMediator.ApplyTransaction: requires the first of these too, and an idle mediator.
- JournalServer.Http3ServerRoute.Delete: a file backend empties itself for the empty label, which the deletion by path
  modelled here does not.
- JournalRuns.NoGapReplica: writes of the empty label are not replicated, because the client ignores that label; the
  replica agrees with the server on all other labels.
- The JS client's gap handling: it applies entries although it has declared a gap; the C++ client is modelled.
- Chunks.LongStringFramed: lengths of 2^32 and above, which exceed the 32-bit counts of the text form.
- UTF-8, Unicode whitespace and numbers above 2^53 in the JS text and codec layers.
- The C++ decoder of optional nodes, which cannot read a count across the last chunk border: the JS one is modelled.
- LongStringCpp.DecodeLongString: requires the same of the first chunk.
- LongStringCpp.CanDecodeLongString: requires the eight length bytes in the first chunk, as both encoders put them there.
- Shared spans, reference counts and memory pools: a chunk is its header and its payload bytes.
- Conversions of doubles and floats: PropertyBlob takes their bytes.
- PropertyBlob.PropertyNode.SetPropertyValue: takes a value of the property's own type; the original converts it first.
- The file system under FileBackend: the store is a map from label to node, and file errors are not modelled.
- MemoryTrees.MemoryTree.ApplyTransaction: requires stored sequence lengths above zero, since the original divides by
  them; so do the two transactions above.
- FileBackends.FileBackend.ApplyTransaction: requires stored sequence lengths above zero, since the original divides by
  them; listeners are not notified.
- MountedBackends.CompositeBackend.MountBackend: requires an overlap test that does not read past the end of a label,
  which is undefined in the original (two labels without '/', for one).
- MountedBackends.RedirectedBackend.ApplyTransaction: requires a transaction that is not empty, as the composite does.
- MountedBackends.CompositeBackend.ApplyTransaction: requires a transaction that is not empty, whose first element the
  original reads.
- Deletes, queries, page trees and listeners of composite and redirected backends: the same lookup and relabelling.
- The mediator over one tree on both sides, and over backends that notify later: the two trees are distinct and notify
  at once.
- ChunkScheduler: incoming queues, placeholders and the choice of requests.
- Construction of frontends, factories and configuration parsing: a factory is a predicate on its configuration.
- YAML conversion, help texts, command line and tracing.
