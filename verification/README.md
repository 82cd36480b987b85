# Verified models of the device runtime and the developer tool

This project models the stateful cores of the on-device runtime and several cores of the developer tool in Dafny and
proves what each of them keeps. `dafny verify dfyconfig.toml` checks everything.

Code that changes things step by step (stores, buffers, clients, servers, readers) is a class or a method with a loop,
proved equal to a function of the old state; what the system promises is then proved about those functions, and for the
concurrent parts about every run of a transition system whose steps are those functions. Code that computes is functions
and lemmas.

## What is proved

**Durable transfers** (`TextTime`, `TextReading`, `TransferStore`, `TransferService`, `TransferQueue`,
`TransferRuns`, `TransferRevival`, `TransferFairness`). Any number of workers share one table; every statement of a
worker is one atomic step, a clock that never runs backwards ticks in between, and the reading of the clock that a
worker uses may be stale. A crash drops all workers at any point. Times are compared as the text that RFC 3339 with
trimmed nanoseconds gives them; `TextReading` reads that text back.
`TextTime.TextOrder` says exactly when text order is time order: an earlier instant sorts first if and only if the later
one lies beyond the reach of the earlier one's last printed digit (sections 5.1 and 5.6 of RFC 3339). So
`deadline <= now` as text means only `deadline < now + 1 s`, and a sweep may fail a running transfer up to a second
early. Because every back-off is at least one second, the worker that still holds the transfer can then only fail it
again or complete it. So failed is not final (`FailedIsCompleted` is a run in which a failed transfer is completed), but
a step leaves it if and only if the holder of the last claim delivers, and a failed transfer that nobody holds never
changes again.

**Rolling frame buffer** (`FrameWindow`, `FrameBuffer`, `CameraBuffer`). The disk is a map from segment number to bytes;
distinct numbers have distinct file names. Every add refines appending to a plain sequence and pruning it, and over a
whole run, with any of its writes refused, the buffer holds the longest suffix of all accepted frames that meets the
limits. A descriptor read later, outside the lock, gives its original bytes or its file is gone.

**IPC client** (`IpcClient`, `IpcProtocol`, `IpcReconnection`). One step per lock region or channel operation, for any
number of callers, readers, reconnect loops and disconnect handlers, and for Close. Channels remember a second close, a
send after close and a blocked second send as faults, and no run reaches one. Reconnection is not live: a connection that
is lost before the loop that made it has cleared its flag gets no new loop (`ClientStrands` is the run). An open client
is dark, without a connection and without anyone who could make one, if and only if some earlier restart met a loop that
was on its way out, and then it stays offline for good.

**Edge WebSocket server** (`EdgeOwnership`, `EdgeExactness`, `RateLimiter`). In every run each owner entry is in its
owner's set. The converse holds in every state of a run if and only if no event registers or binds an id that another
client owns; after a takeover the first client's departure drops the second one's entry (`TakeoverIsNotUndone` is a run
that does). The limiter's pruned list decides as counting over the whole history does.

**Schemas and configs** (`Json`, `Schema`, `SchemaInference`, `SchemaDefaults`, `ConfigMerge`). Inference is sound exactly
for homogeneous families of examples; a family of mixed kinds is typed by its first non-null example, and a null among
objects makes the schema reject that null. A merge of a file over accepted defaults is accepted exactly for the
overrides that `Acceptable` describes.

**WebSocket frames** (`WebSocketCodec`, `Utf8`, `WebSocketClient`), sections 5.2 to 5.5 of RFC 6455. Decoding inverts
encoding in all three length forms, does not depend on how the stream is cut up, and a text message in fragments comes
back whole, or is refused exactly when its octets are not the UTF-8 form of any text (section 4 of RFC 3629).

**Component closure** (`ComponentClosure`), **live layouts** (`LiveLayout`, `MosaicRegions`, `ImageFit`) and **log tails**
(`TailReader`). A region layout is well placed exactly when the canvas has room for one pixel per cell. The backward
reader is right exactly under the condition `Enough`; blank lines at the end of a file can hide its text
(`TrailingBlanksHideText`), although the reader's purpose is to return the last lines.

## Model

| member | source | states |
|---|---|---|
| Common.TrimSpaceParts | device/internal/cloudcomm/edge_ws.go:677 | trimming takes away white space only, at both ends, and all of it |
| TextTime.TextOrder | device/internal/cloudtransfer/store.go:531-533 | of two instants, the earlier one's text sorts first if and only if the later one lies beyond the reach of the earlier one's last printed digit; distinct instants print differently |
| TextReading.TimestampReads | device/internal/cloudtransfer/store.go:531-533 | the text of every instant is its date, time of day and nanoseconds without trailing zeros, and reading it gives the instant back |
| TextReading.DateHasNumber | device/internal/cloudtransfer/store.go:531-533 | the calendar date of every day agrees with the closed formula for Gregorian day numbers |
| TextTime.StoredOrder | device/internal/cloudtransfer/store.go:225 | the comparison of stored times, for every pair of instants, as arithmetic on the instants |
| TextTime.StoredSkew | device/internal/cloudtransfer/store.go:349 | the stored comparison is right across seconds and off by less than one second within one |
| TextTime.StoredOrderIsNotTimeOrder | device/internal/cloudtransfer/store.go:531-533 | the text of every whole second sorts after that of every later instant inside it |
| TextTime.StoredLeOrders | device/internal/cloudtransfer/store.go:225 | the stored comparison is a total order |
| TransferStore.FirstDueExists | device/internal/cloudtransfer/store.go:222-229 | when any transfer is due the claim's ordering has a first one |
| TransferStore.OrderedBeforeIsAnOrder | device/internal/cloudtransfer/store.go:225 | the claim's ordering is total and transitive |
| TransferStore.Store.Enqueue | device/internal/cloudtransfer/store.go:119-160 | inserts a queued row that is due at its creation, unless the id exists |
| TransferStore.Store.AcquireDueTransfer | device/internal/cloudtransfer/store.go:215-264 | claims a waiting row whose next attempt has come: of those, one that is due first, and of equally due ones one created first; it gets one attempt more and starts now, no other row changes, and nothing is claimed exactly when no row is due |
| TransferStore.Store.MarkCompleted | device/internal/cloudtransfer/store.go:266-282 | the row is completed, with no next attempt and no error, whatever its state was; no other row changes |
| TransferStore.Store.MarkRetry | device/internal/cloudtransfer/store.go:284-301 | the row waits and is due exactly from its next attempt on; no other row changes |
| TransferStore.Store.MarkFailed | device/internal/cloudtransfer/store.go:303-318 | the row is failed, and is never due and never expires at any time; no other row changes |
| TransferStore.Store.ResetRunningTransfers | device/internal/cloudtransfer/store.go:320-339 | no row stays running, those that were are due at once, no other row changes, none is lost |
| TransferStore.Store.MarkExpired | device/internal/cloudtransfer/store.go:341-362 | exactly the queued, waiting and running rows whose deadline text is not after now fail; every other row stays as it was |
| TransferService.LoadQueueConfig | device/internal/cloudtransfer/config.go:102-107 | a positive initial delay is kept and any other becomes five seconds; the cap is kept unless it is below that |
| TransferService.BackoffShape | device/internal/cloudtransfer/service.go:226-235 | back-off starts at the initial delay, doubles up to the cap, and stays between one second and the cap |
| TransferService.NextAttempt | device/internal/cloudtransfer/service.go:226-235 | the next attempt is at least a second away |
| TransferService.ProcessTransfer | device/internal/cloudtransfer/service.go:140-197 | a transfer past its deadline fails; a delivery completes it; a failure is final exactly when it is permanent or the deadline comes no later than the doubled, capped delay from then, and otherwise waits for exactly that delay |
| TransferQueue.InvStep | device/internal/cloudtransfer/service.go:60-138 | every step of workers, callers, clock, crash and start-up keeps the invariant: one holder, next attempt null exactly in running, failed and completed, and a holder's row running or failed by a sweep less than a second early |
| TransferQueue.SweepKeepsWorkers | device/internal/cloudtransfer/store.go:341-362 | an expiry sweep with a stale clock leaves every holder's view true |
| TransferRuns.RowMoves | device/internal/cloudtransfer/service.go:97-197 | the only changes of state that any step makes to any row, and that only claims count as attempts |
| TransferRuns.FinishExactly | device/internal/cloudtransfer/service.go:164-196 | in every reachable state the end of an attempt leaves the row completed, failed or waiting as its outcome and deadline say; a temporary failure without a deadline is always retried |
| TransferRuns.RowsAppear | device/internal/cloudtransfer/store.go:119-160 | rows appear only by enqueueing, with no attempts, and only existing rows are claimed |
| TransferRuns.AttemptsAreClaims | device/internal/cloudtransfer/store.go:238-254 | in every state of every run: at most one holder, the null rule, and attempts equal to the number of claims |
| TransferRuns.CompletedIsFinal | device/internal/cloudtransfer/store.go:266-282 | over every run no transfer is lost and a completed row never changes |
| TransferRuns.FailedIsNeverRetried | device/internal/cloudtransfer/service.go:173-197 | over every run a failed transfer is never queued, retried or claimed again |
| TransferRuns.FailedExit | device/internal/cloudtransfer/service.go:164-171 | a step takes a row out of failed if and only if the one worker that still holds the claim delivers |
| TransferRuns.UnheldFailedIsFinal | device/internal/cloudtransfer/store.go:303-318 | over every run a failed row that nobody holds never changes again |
| TransferRevival.FailedIsCompleted | device/internal/cloudtransfer/service.go:110-126 | a run in which one worker holds the claim, the sweep of another fails the row, and the holder completes it |
| TransferRuns.RestartRecovers | device/internal/cloudtransfer/service.go:64-69 | after start-up nothing is running or lost, and what was running is due or past its deadline |
| TransferFairness.ClaimedWasAhead | device/internal/cloudtransfer/store.go:222-229 | whoever is claimed while a transfer waits was ordered before it, even with a stale clock |
| TransferFairness.AheadStep | device/internal/cloudtransfer/service.go:190-191 | one step: a claim shrinks the set ahead of a due transfer, and a retry never enters it |
| TransferFairness.BoundedOvertaking | device/internal/cloudtransfer/store.go:222-229 | no starvation: from any state of any run in which a transfer is due, claims of others while it waits are bounded by those ahead plus enqueues stamped in its due second or earlier |
| FrameWindow.KeptIsLongest | device/internal/videorecorder/buffer.go:242-265 | pruning keeps the longest suffix within age, count and bytes |
| FrameWindow.KeptTwice | device/internal/videorecorder/buffer.go:242-265 | pruning early never loses what a later prune would keep |
| FrameWindow.AcceptedNext | device/internal/videorecorder/buffer.go:89-124 | an offered frame is accepted exactly when it is written, has an id and bytes, and its id differs from the last accepted one |
| FrameWindow.RolledIsLongest | device/internal/videorecorder/buffer.go:89-129 | over a whole run with any writes refused, the kept frames are the longest suffix of all accepted frames within the limits |
| FrameBuffer.SegmentNamesDiffer | device/internal/videorecorder/buffer.go:227-228 | segment numbers never share a file name, also beyond six digits |
| FrameBuffer.SegmentNameReads | device/internal/videorecorder/buffer.go:227 | the file name is the number with at least six digits between its prefix and suffix |
| FrameBuffer.LateReadIsOriginal | device/internal/videorecorder/buffer.go:267-287 | a descriptor read on any later disk gives its original bytes or its file is gone |
| FrameBuffer.LateReadOverRun | device/internal/videorecorder/buffer.go:131-143 | the same over any number of adds, rotations and prunes |
| FrameBuffer.DropFirstOk | device/internal/videorecorder/buffer.go:249-262 | dropping the oldest frame keeps the invariant, removes exactly that frame, and changes no surviving bytes |
| FrameBuffer.RotateOk | device/internal/videorecorder/buffer.go:213-240 | rotation keeps the invariant and every frame, and yields a segment with room or an empty one |
| FrameBuffer.AppendOk | device/internal/videorecorder/buffer.go:105-124 | appending keeps the invariant and adds exactly the written bytes at the end |
| FrameBuffer.Accounting | device/internal/videorecorder/buffer.go:101-129 | byte count, reference counts, no unreferenced segment but the active one, and disk use within live bytes plus one segment |
| CameraBuffer.SelectThenRead | device/internal/videorecorder/buffer.go:131-143 | selecting descriptors by time and reading them is filtering the plain sequence by time |
| CameraBuffer.CameraBuffer.EnsureActiveSegment | device/internal/videorecorder/buffer.go:213-240 | rotates to a new, empty segment exactly when there is none or the frame does not fit; the contents are unchanged |
| CameraBuffer.CameraBuffer.Prune | device/internal/videorecorder/buffer.go:242-265 | the loop leaves exactly what the plain pruning keeps |
| CameraBuffer.CameraBuffer.AddFrame | device/internal/videorecorder/buffer.go:89-129 | appends and prunes exactly for accepted, written frames, with the accounting after every call |
| CameraBuffer.CameraBuffer.AddFrames | device/internal/videorecorder/buffer.go:89-129 | any sequence of adds, each written or refused, refines the plain rolling sequence and only appends to the disk |
| CameraBuffer.CameraBuffer.SnapshotRange | device/internal/videorecorder/buffer.go:131-143 | exactly the kept descriptors with start <= time <= end, each at its place in order, and the frames they read |
| CameraBuffer.CameraBuffer.ReadFrame | device/internal/videorecorder/buffer.go:267-287 | reads the described bytes of whatever disk it meets, or fails exactly when they are not there |
| CameraBuffer.CameraBuffer.LoadFrames | device/internal/videorecorder/buffer.go:183-193 | all frames in order, or nothing when one cannot be read |
| CameraBuffer.LateLoad | device/internal/videorecorder/buffer.go:183-193 | kept descriptors loaded at any later time give their original frames, or fail exactly when one of their files is gone |
| CameraBuffer.FindNearest | device/internal/videorecorder/buffer.go:151-159 | a closest frame: the newest if it is among the closest, else the oldest of them |
| CameraBuffer.CameraBuffer.NearestFrame | device/internal/videorecorder/buffer.go:145-166 | chosen under the lock and read after it: the nearest frame's own entry, or a failure exactly when its file is gone by then |
| IpcClient.FailAllOnce | device/internal/ipc/client.go:476-484 | while no channel is pending twice, failing all closes each pending channel exactly once |
| IpcClient.Client.ActivateConnection | device/internal/ipc/client.go:434-443 | a new generation becomes current and the ready channel is closed |
| IpcClient.Client.MarkDisconnected | device/internal/ipc/client.go:456-464 | only the current connection of the current generation is dropped, with a fresh ready channel |
| IpcClient.Client.EnsureReconnectLoop | device/internal/ipc/client.go:330-340 | a loop is spawned exactly when none runs and the client is open |
| IpcClient.Client.FailPending | device/internal/ipc/client.go:476-484 | the loop closes and forgets every pending channel |
| IpcClient.Client.AddPending | device/internal/ipc/client.go:191-193 | enters a request with a new, open channel |
| IpcClient.Client.RemovePending | device/internal/ipc/client.go:486-492 | forgets one request and closes nothing |
| IpcClient.Client.TakePending | device/internal/ipc/client.go:300-303 | the reader takes the channel out of the map before it sends |
| IpcProtocol.ConnStep | device/internal/ipc/client.go:342-391 | every step keeps the single right to connect: at most one loop and one handler, and none dials while a connection lives |
| IpcProtocol.ReadyStep | device/internal/ipc/client.go:434-464 | every step keeps the ready channel closed exactly while there is a connection |
| IpcProtocol.ChannelStep | device/internal/ipc/client.go:293-307 | every step keeps each response channel with one owner: the pending map, one reader, or nobody |
| IpcProtocol.RequestStep | device/internal/ipc/client.go:182-275 | every step keeps each written pending request on a live connection or about to be failed |
| IpcProtocol.OneLoopAndReady | device/internal/ipc/client.go:330-391 | in every interleaving: one reconnect loop at most, ready closed exactly when connected, no ready channel closed twice |
| IpcProtocol.ResponsesAreSafe | device/internal/ipc/client.go:293-307 | in every interleaving no response channel is sent to twice, closed twice, or sent to after its close |
| IpcProtocol.NoWrittenRequestIsLost | device/internal/ipc/client.go:456-484 | once a generation is torn down and its requests failed, none written on it is still pending |
| IpcProtocol.TeardownSparesNewer | device/internal/ipc/client.go:456-474 | a handler that fails pending requests never meets one of a newer generation |
| IpcProtocol.GivingUpSparesOthers | device/internal/ipc/client.go:486-492 | with distinct ids, giving up on one request leaves the others pending |
| IpcProtocol.RegisteredIsPending | device/internal/ipc/client.go:188-193 | a registered request is pending under its own id with an open channel, and others stay pending |
| IpcProtocol.TakenIsNoLongerPending | device/internal/ipc/client.go:300-303 | a taken response ends exactly one wait and its channel is the reader's |
| IpcReconnection.RestartHunts | device/internal/ipc/client.go:330-340 | with the client open, a restart leaves a loop that will connect if and only if no loop existed before it |
| IpcReconnection.DarkForever | device/internal/ipc/client.go:456-474 | no step, Close included, ends the state without connection, handler and hunting loop |
| IpcReconnection.StrandedForever | device/internal/ipc/client.go:342-347 | a stranded open client stays stranded under every step but the signal of Close |
| IpcReconnection.DarkExactlyAfterSkip | device/internal/ipc/client.go:330-391 | in every run: an open client is dark if and only if some earlier restart met an exiting loop |
| IpcReconnection.OfflineForGood | device/internal/ipc/client.go:232-259 | after a skipped restart there is never a connection again and no request gets one |
| IpcReconnection.ClientStrands | device/internal/ipc/client.go:342-374 | the run that strands an open client |
| EdgeOwnership.EdgeServer.AddClient | device/internal/cloudcomm/edge_ws.go:588-594 | the client joins with empty sets |
| EdgeOwnership.EdgeServer.RemoveClient | device/internal/cloudcomm/edge_ws.go:596-623 | the client, its sets and the owner entries of its ids go, and each of its sessions is listed once |
| EdgeOwnership.EdgeServer.RegisterRequestOwner | device/internal/cloudcomm/edge_ws.go:676-690 | the trimmed id gets this owner and enters its set, and nothing else changes; a blank id changes nothing |
| EdgeOwnership.EdgeServer.BindSessionOwner | device/internal/cloudcomm/edge_ws.go:692-703 | the same for sessions |
| EdgeOwnership.EdgeServer.BroadcastTargets | device/internal/cloudcomm/edge_ws.go:636-674 | exactly the owner of a known request, else exactly the owner of a known session, else all clients; a known request binds the session to its owner |
| EdgeOwnership.EdgeServer.HandlePacket | device/internal/cloudcomm/edge_ws.go:492-506 | the request is registered, and the packet passes unless another client owns its session |
| EdgeOwnership.OwnershipHolds | device/internal/cloudcomm/edge_ws.go:588-703 | in every run: owner entries are in their owner's set, only clients with a running handler own anything, and stops plus memberships equal bindings |
| EdgeOwnership.DepartedClient | device/internal/cloudcomm/edge_ws.go:373-376 | after its handler returned no packet goes to a client, and each session was stopped as often as it was bound |
| EdgeOwnership.UnownedReachesEverybody | device/internal/cloudcomm/edge_ws.go:636-641 | in every run a packet that nobody owns goes to exactly the clients that connected and were neither removed nor dropped by a shutdown |
| EdgeOwnership.RemovalIsIdempotent | device/internal/cloudcomm/edge_ws.go:596-623 | removing a client twice changes nothing and stops nothing more |
| EdgeExactness.RegisteredExact | device/internal/cloudcomm/edge_ws.go:676-690 | registering keeps exact maps exact if and only if no other client owns the request |
| EdgeExactness.BoundExact | device/internal/cloudcomm/edge_ws.go:692-703 | the same for binding a session |
| EdgeExactness.LeftExact | device/internal/cloudcomm/edge_ws.go:596-623 | while the maps are exact a departure keeps them so and drops only the leaver's entries |
| EdgeExactness.ExactStep | device/internal/cloudcomm/edge_ws.go:588-703 | a step keeps exact maps exact if and only if it takes nothing over |
| EdgeExactness.ExactExactlyWithoutTakeover | device/internal/cloudcomm/edge_ws.go:588-703 | the maps are exact inverses in every state of a run if and only if no event takes over an id that another client owns |
| EdgeExactness.TakeoverIsNotUndone | device/internal/cloudcomm/edge_ws.go:688-689 | a run of two connected clients in which the departure of the first drops the second one's entry |
| RateLimiter.Normalize | device/internal/cloudcomm/edge_ws.go:67-97 | usable limits are kept; otherwise 120 messages, 40 commands or the message limit if lower, and 5 seconds |
| RateLimiter.WindowNeverOverflows | device/internal/cloudcomm/edge_ws.go:99-117 | no closed interval of window length holds more than the maximum of admitted calls |
| RateLimiter.PruneExpired | device/internal/cloudcomm/edge_ws.go:119-131 | the longest suffix of the list that lies in the window |
| RateLimiter.Admit | device/internal/cloudcomm/edge_ws.go:99-107 | the pruned list decides as counting over the whole history does, and stays within the maximum |
| RateLimiter.InboundRateLimiter.AllowMessage | device/internal/cloudcomm/edge_ws.go:99-107 | admits exactly when fewer than the maximum were admitted in the closed window ending now |
| RateLimiter.InboundRateLimiter.AllowCommand | device/internal/cloudcomm/edge_ws.go:109-117 | the same for commands |
| Schema.NumericIssues | device/devtool/schema_tools.py:273-281 | no issue exactly for numbers within the bounds |
| Schema.ValidateInstance | device/devtool/schema_tools.py:210-270 | no issue exactly for the values the schema accepts, with a pattern given as the texts it is found in, and every issue at or below the path |
| Schema.AcceptedByParts | device/devtool/schema_tools.py:210-281 | a value is accepted exactly when its type and limits fit, no required key is missing, no key is forbidden, and all its parts are accepted |
| SchemaInference.InferenceIsExact | device/devtool/schema_tools.py:44-109 | every example validates against the inferred schema if and only if the family is homogeneous |
| SchemaInference.KeysExactly | device/devtool/schema_tools.py:66-85 | a key is required exactly when all examples have it and known exactly when some has it |
| SchemaInference.FreeKeysExactly | device/devtool/schema_tools.py:13-16 | objects may have free keys, all with texts, at exactly two configuration paths |
| SchemaInference.NullsChangeOnlyTheDefault | device/devtool/schema_tools.py:53-56 | nulls among the examples change the default alone |
| SchemaInference.ObjectsConform | device/devtool/schema_tools.py:66-85 | a family of objects conforms exactly when the values under every key do |
| SchemaInference.ArraysConform | device/devtool/schema_tools.py:87-98 | a family of arrays conforms exactly when all their items do |
| SchemaInference.MixedDoNotConform | device/devtool/schema_tools.py:100-109 | a family of mixed kinds never validates as a whole |
| SchemaDefaults.GenerateDefaults | device/devtool/schema_tools.py:174-207 | the recursive loops compute the key-by-key defaults |
| SchemaDefaults.DefaultsByKey | device/devtool/schema_tools.py:176-195 | which of the object's own default and the generated value each key gets, and which keys are filled in |
| SchemaDefaults.SingleExampleComesBack | device/devtool/schema_tools.py:40-41 | the defaults of the schema of one example are that example |
| SchemaDefaults.SingleDefaultsConform | device/devtool/schema_tools.py:40-41 | the defaults of the schema of one example validate if and only if that example is homogeneous |
| SchemaDefaults.DefaultsConform | device/devtool/schema_tools.py:174-207 | the defaults of the schema of a homogeneous family validate against it |
| ConfigMerge.MergeSchemaDefaults | device/devtool/configs.py:127-135 | the copying loop computes the key-by-key merge |
| ConfigMerge.MergeConforms | device/devtool/configs.py:127-135 | into accepted defaults, the merge is accepted exactly for acceptable overrides |
| ConfigMerge.LeavesSurvive | device/devtool/configs.py:127-135 | every non-null leaf of the override is in the result at its path |
| ConfigMerge.DefaultsSurvive | device/devtool/configs.py:127-135 | every value of the defaults survives where the override is null or silent |
| ConfigMerge.NothingInvented | device/devtool/configs.py:127-135 | every leaf of the result comes from the override or the defaults |
| ConfigMerge.MergeIsIdempotent | device/devtool/configs.py:127-135 | merging the result again changes nothing |
| WebSocketCodec.MaskTwice | device/devtool/websocket_client.py:143-144 | masking is its own inverse |
| WebSocketCodec.DecodeInvertsEncode | device/devtool/websocket_client.py:128-145 | decoding gives back every frame in every length form, masked or not, and the rest of the stream |
| WebSocketCodec.SentFramesDecode | device/devtool/websocket_client.py:88-104 | what is sent decodes to what was asked for, and no other length form is shorter |
| WebSocketCodec.BuildFrame | device/devtool/websocket_client.py:88-104 | the wire is a header with final bit, opcode, mask bit and length in the shortest form in network order, the key, and the payload with bit b of octet i inverted exactly where bit b of octet i modulo 4 of the key is set; too long a payload is refused |
| WebSocketCodec.DecodeReads | device/devtool/websocket_client.py:128-145 | decoding succeeds exactly on streams that begin with a whole frame, and gives its bits, the unmasked payload and the rest |
| Utf8.EncodedIsUtf8 | device/devtool/websocket_client.py:85-86 | every text that is sent is accepted as UTF-8 |
| Utf8.Utf8IsEncoded | device/devtool/websocket_client.py:115-120 | what is accepted as UTF-8 is the encoding of some text, so overlong forms, surrogates and larger values are refused |
| WebSocketClient.Client.RecvExact | device/devtool/websocket_client.py:147-155 | exactly the next bytes of the stream however they arrive, or failure exactly when it is too short |
| WebSocketClient.Client.ReadFrame | device/devtool/websocket_client.py:128-145 | the frame that the stream holds next, bit by bit and independent of its pieces, or failure exactly when it holds none |
| WebSocketClient.Client.ReceiveText | device/devtool/websocket_client.py:106-126 | the outcome, a decoding failure included, and the pongs that the stream determines |
| WebSocketClient.MessageReassembles | device/devtool/websocket_client.py:106-126 | a text message, whole or in fragments, with control frames in between comes back as the concatenation (or fails to decode as a whole), with one pong per ping in order |
| WebSocketClient.UnfinishedIsRead | device/devtool/websocket_client.py:107-126 | any frames that complete nothing are read past: a text frame starts afresh, stray continuations and unknown frames are skipped, pings are answered |
| WebSocketClient.CloseEndsReading | device/devtool/websocket_client.py:122-123 | a close frame ends the reading wherever it comes |
| WebSocketClient.StreamEndsReading | device/devtool/websocket_client.py:147-155 | a stream that ends before a message is complete is an error |
| WebSocketClient.AnswersArePongs | device/devtool/websocket_client.py:124-126 | every ping is answered by one final pong with its payload |
| ComponentClosure.Resolver.Visit | device/devtool/manifests.py:285-294 | the depth-first visit ends, keeps the invariant, and reports only names that are needed and unknown |
| ComponentClosure.ResolveComponentClosure | device/devtool/manifests.py:281-298 | succeeds exactly when every needed name is known, and then lists exactly those once, requirements first except within cycles |
| LiveLayout.NormalizeLiveLayoutPlan | device/internal/livefeed/layout.go:32-79 | refused exactly when no camera is named; else the first cameras asked for, each once, up to the mode's capacity |
| LiveLayout.NormalizeMode | device/internal/livefeed/layout.go:81-96 | which trimmed name gives which mode, and single for any other |
| LiveLayout.NormalizeSource | device/internal/livefeed/layout.go:98-107 | processed for exactly that trimmed name |
| LiveLayout.ListsOnceUnique | device/internal/livefeed/layout.go:43-59 | that description determines the camera list |
| MosaicRegions.GridWellPlaced | device/internal/livefeed/compositor.go:197-241 | a grid of any shape is well placed if and only if both axes have room |
| MosaicRegions.GridPlaces | device/internal/livefeed/compositor.go:215-238 | cameras fill a grid row by row, the cells meet the padded edges, adjoin with exactly the padding, and all but the last are equal |
| MosaicRegions.FocusPlaced | device/internal/livefeed/compositor.go:243-301 | with room, the main picture and the rail are well placed |
| MosaicRegions.FocusMain | device/internal/livefeed/compositor.go:251-264 | the main picture's place, and the rail of a third of the width or 160 pixels |
| MosaicRegions.FocusPlaces | device/internal/livefeed/compositor.go:266-298 | the other cameras fill two columns of four beside it row by row |
| MosaicRegions.FocusMissing | device/internal/livefeed/compositor.go:251-273 | without room, some region is empty or outside |
| MosaicRegions.MosaicWellPlaced | device/internal/livefeed/compositor.go:168-301 | for every normalised plan: one region per camera in order, the first primary, none empty, all inside and a padding apart, if and only if the canvas is large enough |
| MosaicRegions.CapacityIsPlaces | device/internal/livefeed/layout.go:109-124 | a mode's capacity is the number of places of its layout |
| MosaicRegions.EachPixelOnce | device/internal/livefeed/compositor.go:168-301 | on a large enough canvas no pixel belongs to two regions of a plan |
| MosaicRegions.GridRegions | device/internal/livefeed/compositor.go:197-241 | the loop computes the grid's regions, none for an empty or shapeless grid |
| MosaicRegions.FocusLayout | device/internal/livefeed/compositor.go:243-301 | the loop computes the main region and the cells of a two by four grid on the rail |
| MosaicRegions.CompositeRegions | device/internal/livefeed/compositor.go:168-183 | the plan's regions, well placed exactly on a large enough canvas |
| ImageFit.FitRectFits | device/internal/livefeed/compositor.go:303-325 | a fitted image is inside its bounds, fills the side that limits it, keeps its proportions to half a pixel, and is centred to one pixel |
| TailReader.SplitJoins | device/internal/runtimemanager/tail.go:60 | the lines contain no newline and join to the text |
| TailReader.SplitOfJoin | device/internal/runtimemanager/tail.go:60 | splitting undoes joining |
| TailReader.TailOfLines | device/internal/runtimemanager/tail.go:55-70 | of a text built from lines, with any carriage returns and trailing line breaks, the tail is the last of those lines, and truncated exactly when there are more |
| TailReader.TailOfPart | device/internal/runtimemanager/tail.go:55-70 | what was read gives the last lines of the whole file if and only if it was enough |
| TailReader.NoTrailingBlanksIsEnough | device/internal/runtimemanager/tail.go:35-53 | without trailing blank lines every chunk size reads enough |
| TailReader.TrailingBlanksHideText | device/internal/runtimemanager/tail.go:39-58 | for every chunk size above the number of lines asked for, a file whose only line is followed by a chunk of newlines is reported empty |
| TailReader.ReadBack | device/internal/runtimemanager/tail.go:35-53 | the backward loop collects the file from the offset where it stops |
| TailReader.ReadTailLines | device/internal/runtimemanager/tail.go:13-71 | the tail of what was read, equal to the tail of the file exactly when that was enough |

## Left out

- Listing and statistics of transfers, columns that no statement reads (paths, scope, metadata, direction), and uploads and downloads themselves: an attempt is an outcome.
- Years after 9999, and back-off caps that a 64-bit nanosecond duration cannot hold; the multiplication in `nextAttemptTime` is exact here.
- A store write and the clock reading just before it are one step; the service's `ProcessTransfer` takes the readings as parameters.
- TextTime.DateOf: a calendar counted day by day, in place of the time library's formatter.
- Failing, short or partial file operations other than a refused write, and the file-handle bookkeeping of `close` in the camera buffer.
- `latestFrame` and `status` of the camera buffer.
- Directory setup and camera-directory names of the camera buffer; times and byte counts are unbounded integers.
- The IPC registration handshake, the replay of the last status, notification delivery, retries of `request`, delays and timers: a timeout is a request giving up and a disconnect, each possible at any time.
- The cloud MQTT client, which has the same shape with a weaker guard.
- HTTP routes, CORS, envelope parsing and device selection of the edge server; the rate limiter and the ownership maps are modelled apart.
- White space other than the ASCII characters when ids and camera names are trimmed.
- The regular-expression engine (a pattern is the set of texts it is found in), titles and the text of validation messages in schemas, the order of issues that comes from dictionary order, the JSON syntax layer, and rounding of floating-point numbers.
- SchemaDefaults.DefaultsConform: says nothing about several examples that together are not homogeneous and so do not all validate; for a single one `SingleDefaultsConform` is exact.
- The characters that received octets decode to beyond their existence, the random choice of masks, the opening handshake and sockets; `WebSocketClient.Client` records sent pongs without their masks.
- Recursion depth limits of the component visit and of JSON recursion.
- MosaicRegions.CompositeRegions: integers are unbounded, and drawing, labels and the decoded-frame cache are not modelled.
- ImageFit.FitRectFits: the scale is a real number, so floating-point rounding of the scale is not captured.
- Opening and stat errors of the tail reader, and a file that changes while it is read.
- Code generators, config loaders, deployment and packaging helpers: text building and plumbing.
