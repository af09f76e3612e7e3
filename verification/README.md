# Verified model of Luma's capture handoff and compositor kernels

The project models, in Dafny, how a frame travels from a captured game to the encoder, and
the small algorithms of the compositor that carry real invariants. Code that changes state
is a class whose methods are proved equal to functions of the old state; the properties
that span calls are lemmas about those functions and about runs, that is, arbitrary
sequences of enabled steps. Calls into Vulkan, EGL, GL, NVENC, X11, the kernel and the
clock are inputs: each model says what they may answer, and every theorem holds for all
answers.

| file | what it models |
|---|---|
| `ExportRing`, `PresentHook`, `CaptureProtocol` | the Vulkan layer's ring of four exported images, its present hook, what one call of the hook leaves behind, and the protocol between layer, lossy datagram channels, receiver and GPU |
| `Receivers`, `ReceiverProtocol` | the receiving process: descriptors, import cache, acknowledgements behind GPU fences; and its place in the protocol |
| `StagingPool`, `EncodeWorkers`, `StagingBudget` | the two-thread staging pool with its fixed FIFO, and its size |
| `Pacing`, `Xwayland` | the capture pacers, and the Xwayland loop with its eight import slots |
| `NvencRing` | the NVENC texture ring with its pending packets |
| `Rectangles`, `Coverage`, `RoundedMask`, `Scenes` | the proof of visibility that pauses an animated background |
| `SessionLocks` | the confirmation of a session lock |
| `Workspaces`, `Restack` | workspaces on outputs, and the floating layer |
| `ShmCapture` | the row order of captured images and the writes into strided buffers |
| `CursorAnimation` | the choice of a cursor image and of its deadline |
| `Subscribers` | status subscribers over IPC and the connection limit |
| `Collections`, `Arithmetic`, `Options`, `RingScan` | shared facts: sets, products, options, circular indices |

## Where the code does less than one might expect

- An acknowledgement repeats slot and generation but no stream. Three guarantees of the
  ring therefore hold for every run that creates at most one swapchain and fail with two:
  no image is overwritten while it is read (`SafeExactlyWithOneStream`,
  `UntornExactlyWithOneStream`, with the run `ForeignAckOverwrites`), a free slot holds no
  fence descriptor (`DescriptorsOwnedExactlyWithOneStream`, with `ForeignAckFreesDescriptor`;
  `OverwrittenDescriptorLeaks` says what the next capture does), and enqueued presents
  signal no semaphore twice (`EnqueuedExactlyWithOneStream`, with `ForeignAckResignals`).
  For any number of swapchains they hold as long as no acknowledgement frees a slot of
  another ring (`GenuineRunIsSafe`, `ReadsAreUntorn`, `DescriptorsAreOwned`).
- A ring semaphore is signalled while signalled exactly if a capture reuses a slot whose
  last capture had its present rejected without being enqueued, or its fence not exported
  (`ResignalsExactly`, for all runs). While acknowledgements are genuine only the first can
  happen (`GenuineResignalsExactly`), and `RejectedPresentResignals` is a run in which it
  does (compare the rules for binary semaphores in section 7.4 of the Vulkan 1.3
  specification).
- `new_surface` keeps the presentations of the record it retags. In the runs of the code
  this is harmless, because an output that is connected is always a new one
  (`NewSurfaceOnlyMarks`); `OldRecordWouldConfirmExactly` states what an old record in the
  space would do.
- `focus ID` can leave a window of a shown workspace on another output
  (`FocusCanMisplace`); `FocusKeepsExactly` states when it does not. Plugging in an output
  can do the same (`PluggedCanMisplace`), and `PluggedPlacedExactly` states when it does
  not. A tenth output repeats a workspace (`PluggedInjectiveExactly`).
- A packet is delivered again if unlocking or unmapping fails after its delivery
  (`DeliveredExactly`, with the run `DeliveredTwice`), and packets that are pending at
  shutdown are never delivered (`ShutdownUnmapsAll`).
- The opaque interior of rounded elements stays 1.5 inside the mask, twice the 0.75 that
  the sampling test asks for (`InteriorInsideMask`).

## Model

| member | source | states |
|---|---|---|
| `ExportRing.PickFrom` | native/vulkan-external-capture-prototype/luma_vk_dmabuf_capture_layer.c:678-679 | the scan from the cursor finds a slot that is not busy; if it finds none, every slot it visited is busy |
| `ExportRing.CaptureLayer.DrainOne` | native/vulkan-external-capture-prototype/luma_vk_dmabuf_capture_layer.c:229-234 | one acknowledgement frees, in every ring, exactly the busy slot of that index and generation |
| `ExportRing.CaptureLayer.DrainAcks` | native/vulkan-external-capture-prototype/luma_vk_dmabuf_capture_layer.c:223-236 | datagrams are read up to one of the wrong size; those with a wrong header are skipped, the others applied in order |
| `ExportRing.CaptureLayer.EmitSlot` | native/vulkan-external-capture-prototype/luma_vk_dmabuf_capture_layer.c:237-271 | an accepted export closes the layer's fence descriptor and marks the slot sent; a refused one changes nothing |
| `ExportRing.CaptureLayer.RetryExports` | native/vulkan-external-capture-prototype/luma_vk_dmabuf_capture_layer.c:668-671 | the two loops over rings and slots are the retry pass, of which `PresentHook.RetriedSlot` and `PresentHook.RetriedExports` say what it sends |
| `ExportRing.CaptureLayer.SubmitCapture` | native/vulkan-external-capture-prototype/luma_vk_dmabuf_capture_layer.c:447-486 | an accepted submission consumes the application's waits once and signals both semaphores of the slot; a failed one has no effect |
| `ExportRing.CaptureLayer.PickSlot` | native/vulkan-external-capture-prototype/luma_vk_dmabuf_capture_layer.c:678-679 | the loop computes the scan of `PickFrom` |
| `ExportRing.CaptureLayer.PublishCapture` | native/vulkan-external-capture-prototype/luma_vk_dmabuf_capture_layer.c:681-688 | cursor, generation and flags advance, the present is forwarded waiting on the ring's semaphore, and a fence descriptor is taken if the driver gives one |
| `ExportRing.CaptureLayer.QueuePresent` | native/vulkan-external-capture-prototype/luma_vk_dmabuf_capture_layer.c:665-690 | the whole hook, on every path, is the step that `PresentHook.PresentExactly` and `PresentHook.PresentSends` describe; an unknown queue is refused and nothing changes |
| `ExportRing.CaptureLayer.DestroySwapchain` | native/vulkan-external-capture-prototype/luma_vk_dmabuf_capture_layer.c:162-186 | releasing a ring closes exactly the fence descriptors its slots hold |
| `ExportRing.CaptureLayer.CreateSwapchain` | native/vulkan-external-capture-prototype/luma_vk_dmabuf_capture_layer.c:624-634 | a new ring starts with four free slots without descriptors and an identity of its own |
| `ExportRing.PresentForwardsOnce` | native/vulkan-external-capture-prototype/luma_vk_dmabuf_capture_layer.c:665-690 | whatever is acknowledged, retried, captured or refused, each present is forwarded once and its wait semaphores are consumed once |
| `ExportRing.UncapturedOnlyWhenFull` | native/vulkan-external-capture-prototype/luma_vk_dmabuf_capture_layer.c:678-680 | a capturable present is passed through uncaptured exactly if all four slots are busy |
| `ExportRing.PickIsFirst` | native/vulkan-external-capture-prototype/luma_vk_dmabuf_capture_layer.c:678-679 | the slot picked is the first free one from the cursor on |
| `ExportRing.FilledSlotIsLast` | native/vulkan-external-capture-prototype/luma_vk_dmabuf_capture_layer.c:678-681 | a slot just filled is the last one the next scan comes to |
| `PresentHook.ReadableExactly` | native/vulkan-external-capture-prototype/luma_vk_dmabuf_capture_layer.c:223-236 | an acknowledgement takes effect exactly if it comes before any datagram of the wrong size |
| `PresentHook.DrainedExactly` | native/vulkan-external-capture-prototype/luma_vk_dmabuf_capture_layer.c:229-234 | draining frees exactly the busy slots whose index and generation were acknowledged, and changes nothing else of a slot |
| `PresentHook.RetriedSlot` | native/vulkan-external-capture-prototype/luma_vk_dmabuf_capture_layer.c:668-671 | the retry pass sends each busy unsent slot that holds a descriptor and that the socket takes: the slot is sent and holds none; every other slot is unchanged |
| `PresentHook.RetriedExports` | native/vulkan-external-capture-prototype/luma_vk_dmabuf_capture_layer.c:668-671 | the pass appends exactly the exports of those slots to what was sent, each once |
| `PresentHook.PickedExactly` | native/vulkan-external-capture-prototype/luma_vk_dmabuf_capture_layer.c:678-679 | the slot picked is the one that is free and before which, from the cursor on, all are busy |
| `PresentHook.CapturedExactly` | native/vulkan-external-capture-prototype/luma_vk_dmabuf_capture_layer.c:665-690 | a present captures into a slot exactly if it is capturable and submitted and the slot is the first one from the cursor that is free or freed by this call |
| `PresentHook.PresentExactly` | native/vulkan-external-capture-prototype/luma_vk_dmabuf_capture_layer.c:665-690 | each slot after one present, from the slot before it and the answers alone: captured and sent, resent, freed or unchanged |
| `PresentHook.PresentSends` | native/vulkan-external-capture-prototype/luma_vk_dmabuf_capture_layer.c:668-690 | one present sends the refused exports that the socket takes now, each once, and then the export it captures if its fence is exported and the socket takes it |
| `CaptureProtocol.FencesStep` | native/vulkan-external-capture-prototype/luma_vk_dmabuf_capture_layer.c:162-186 | every step keeps that correspondence, so no fence descriptor leaks or is closed twice |
| `CaptureProtocol.ExportsStep` | native/vulkan-external-capture-prototype/luma_vk_dmabuf_capture_layer.c:229-234 | after every step, an export that is not finished pins its slot: busy, sent and at the export's generation |
| `CaptureProtocol.InvStep` | native/vulkan-external-capture-prototype/luma_vk_dmabuf_capture_layer.c:223-271 | every enabled step of layer, channels, receiver and GPU keeps the whole invariant, if the acknowledgement it delivers is genuine |
| `CaptureProtocol.GenuineRunIsSafe` | native/vulkan-external-capture-prototype/luma_vk_dmabuf_capture_layer.c:665-690 | in every run whose acknowledgements are genuine, no capture is submitted into a slot that the receiver may still read |
| `CaptureProtocol.OneStreamIsGenuine` | native/vulkan-external-capture-prototype/luma_vk_export_protocol.h:37-44 | with at most one swapchain, every acknowledgement is genuine |
| `CaptureProtocol.ForeignAckOverwrites` | native/vulkan-external-capture-prototype/luma_vk_export_protocol.h:37-44 | a concrete run with two swapchains in which a capture overwrites an image that is being read |
| `CaptureProtocol.SafeExactlyWithOneStream` | native/vulkan-external-capture-prototype/luma_vk_dmabuf_capture_layer.c:223-236 | all runs that create at most `limit` swapchains are safe if and only if `limit` is at most one |
| `CaptureProtocol.ReadsAreUntorn` | native/vulkan-external-capture-prototype/luma_vk_capture_receiver.cpp:751-771 | in every run with genuine acknowledgements, with any number of swapchains: while the receiver reads, the image holds exactly the frame of the export it handles, and no newer copy into it was submitted |
| `CaptureProtocol.UntornExactlyWithOneStream` | native/vulkan-external-capture-prototype/luma_vk_capture_receiver.cpp:751-771 | all runs that create at most `limit` swapchains have this property if and only if `limit` is at most one |
| `CaptureProtocol.BusyClearsExactly` | native/vulkan-external-capture-prototype/luma_vk_dmabuf_capture_layer.c:223-236 | a busy slot becomes free exactly if its swapchain is destroyed or an acknowledgement of its index and present generation arrives |
| `CaptureProtocol.DescriptorsAreOwned` | native/vulkan-external-capture-prototype/luma_vk_dmabuf_capture_layer.c:229-271 | in every run with genuine acknowledgements, each open fence descriptor belongs to one slot, and a slot that is not busy holds none and no signalled exportable semaphore |
| `CaptureProtocol.ForeignAckFreesDescriptor` | native/vulkan-external-capture-prototype/luma_vk_dmabuf_capture_layer.c:229-234 | a concrete run with two swapchains in which a slot is freed that holds a fence descriptor |
| `CaptureProtocol.OverwrittenDescriptorLeaks` | native/vulkan-external-capture-prototype/luma_vk_dmabuf_capture_layer.c:686-688 | the next capture into such a slot overwrites the descriptor, which then belongs to no slot |
| `CaptureProtocol.DescriptorsOwnedExactlyWithOneStream` | native/vulkan-external-capture-prototype/luma_vk_dmabuf_capture_layer.c:223-271 | all runs that create at most `limit` swapchains keep descriptors owned if and only if `limit` is at most one |
| `CaptureProtocol.LoggedStep` | native/vulkan-external-capture-prototype/luma_vk_dmabuf_capture_layer.c:263-266 | with any number of streams, a step never exports a generation of a slot that was exported before |
| `CaptureProtocol.ExportedOnce` | native/vulkan-external-capture-prototype/luma_vk_dmabuf_capture_layer.c:668-671 | over whole runs, retries included, no export is sent twice |
| `CaptureProtocol.SemaphoresTell` | native/vulkan-external-capture-prototype/luma_vk_dmabuf_capture_layer.c:469-484 | in every run, the two semaphores of a slot are signalled exactly if its last capture was not enqueued, respectively not exported |
| `CaptureProtocol.ResignalsExactly` | native/vulkan-external-capture-prototype/luma_vk_dmabuf_capture_layer.c:665-690 | in every run, a ring semaphore is signalled while signalled exactly if the event captures into a slot whose last capture, since the ring was created, was not enqueued or not exported |
| `CaptureProtocol.GenuineResignalsExactly` | native/vulkan-external-capture-prototype/luma_vk_dmabuf_capture_layer.c:665-690 | with genuine acknowledgements, exactly if it was not enqueued |
| `CaptureProtocol.ForeignAckResignals` | native/vulkan-external-capture-prototype/luma_vk_dmabuf_capture_layer.c:229-234 | a concrete run with two swapchains that does so although every present is enqueued |
| `CaptureProtocol.RejectedPresentResignals` | native/vulkan-external-capture-prototype/luma_vk_dmabuf_capture_layer.c:683-685 | a concrete run of one stream that does so |
| `CaptureProtocol.SettledStep` | native/vulkan-external-capture-prototype/luma_vk_dmabuf_capture_layer.c:683-688 | a step whose present is enqueued leaves every present semaphore unsignalled and signals none twice |
| `CaptureProtocol.EnqueuedRunNeverResignals` | native/vulkan-external-capture-prototype/luma_vk_dmabuf_capture_layer.c:665-690 | if every present is enqueued and every acknowledgement is genuine, no run signals a ring semaphore twice |
| `CaptureProtocol.EnqueuedExactlyWithOneStream` | native/vulkan-external-capture-prototype/luma_vk_dmabuf_capture_layer.c:665-690 | enqueued presents never signal one twice in runs that create at most `limit` swapchains, if and only if `limit` is at most one |
| `CaptureProtocol.DrainsAreARun` | native/vulkan-external-capture-prototype/luma_vk_dmabuf_capture_layer.c:223-236 | draining acknowledgements that are in flight is a run of the protocol |
| `CaptureProtocol.RetriesAreARun` | native/vulkan-external-capture-prototype/luma_vk_dmabuf_capture_layer.c:668-671 | the retry pass is a run of the protocol |
| `CaptureProtocol.PresentIsARun` | native/vulkan-external-capture-prototype/luma_vk_dmabuf_capture_layer.c:665-690 | the hook refines the protocol: its effect on the layer is that of a run, so every theorem about runs applies to it |
| `ReceiverProtocol.StepIsAnEvent` | native/vulkan-external-capture-prototype/luma_vk_capture_receiver.cpp:659-796 | each step of a world, which joins the layer, the channels, the GPU and a receiver with its own state, is an event of the protocol or invisible to it |
| `ReceiverProtocol.WorldIsARun` | native/vulkan-external-capture-prototype/luma_vk_capture_receiver.cpp:659-796 | every run of a world, with any interleaving, is a run of the protocol |
| `ReceiverProtocol.WorldIsSafe` | native/vulkan-external-capture-prototype/luma_vk_capture_receiver.cpp:659-796 | composed with the layer, one swapchain: no capture is submitted into a slot whose frame is in the channel, or with the receiver and not yet read |
| `ReceiverProtocol.HistoryIsAWorldRun` | native/vulkan-external-capture-prototype/luma_vk_capture_receiver.cpp:659-796 | whatever part of its history a receiver goes through, its receipts named by different exports in the channel, it is a run of the world, and so of the protocol |
| `Receivers.Receiver.ReceiveFrame` | native/vulkan-external-capture-prototype/luma_vk_capture_receiver.cpp:305-357 | an export is accepted exactly if header, flags and number of descriptors agree; a refused one leaves no descriptor open, an accepted one exactly its own |
| `Receivers.Receiver.Acknowledge` | native/vulkan-external-capture-prototype/luma_vk_capture_receiver.cpp:359-366 | may be called only once for an export, and only when no read was issued for it or its read is over |
| `Receivers.Receiver.RetireAckFences` | native/vulkan-external-capture-prototype/luma_vk_capture_receiver.cpp:368-379 | acknowledges exactly the exports whose read is over and whose wait does not fail (or all, after finishing the GPU work) |
| `Receivers.Receiver.Import` | native/vulkan-external-capture-prototype/luma_vk_capture_receiver.cpp:684-744 | finds or creates the import of a (stream, slot), exactly when it is cached or can be imported; the cache never holds it twice |
| `Receivers.Receiver.TakeDescriptors` | native/vulkan-external-capture-prototype/luma_vk_capture_receiver.cpp:745-756 | both descriptors are closed or handed to EGL, once each, on every path |
| `Receivers.Receiver.Admit` | native/vulkan-external-capture-prototype/luma_vk_capture_receiver.cpp:684-756 | a frame is admitted for reading exactly if its import and its fence wait succeed; otherwise the cache is as it was, and no descriptor stays open |
| `Receivers.Receiver.IssueRead` | native/vulkan-external-capture-prototype/luma_vk_capture_receiver.cpp:767-771 | from here on the export may not be acknowledged until its read is over |
| `Receivers.Receiver.DeferAck` | native/vulkan-external-capture-prototype/luma_vk_capture_receiver.cpp:772-794 | an issued read is acknowledged later exactly if its fence was made and one of the 64 entries is free, and otherwise at once after the GPU work was finished |
| `Receivers.Receiver.Handle` | native/vulkan-external-capture-prototype/luma_vk_capture_receiver.cpp:682-795 | one export: named by its receipt, descriptors disposed of, a read issued exactly for admitted frames, pending or acknowledged, handed to the encoder exactly if it is read and the encoder runs; other exports and imports untouched |
| `Receivers.Receiver.Serve` | native/vulkan-external-capture-prototype/luma_vk_capture_receiver.cpp:659-795 | one iteration: a healthy arrival never ends the loop, a valid datagram is received under the next receipt, a refused one is skipped, and of the earlier exports exactly those whose read is over and whose wait does not fail are acknowledged |
| `Receivers.Receiver.ServeAll` | native/vulkan-external-capture-prototype/luma_vk_capture_receiver.cpp:659-795 | the loop serves all arrivals unless one is unhealthy or the encoder fails to start, and receives exactly the valid ones among them, in order |
| `Receivers.Receiver.Run` | native/vulkan-external-capture-prototype/luma_vk_capture_receiver.cpp:659-801 | all arrivals are served unless one is unhealthy or the encoder fails to start; receipt by receipt, the names are the exports announced by the valid datagrams among them; each of these is acknowledged exactly once, no descriptor is left open, the import cache is empty, and the phases changed by a receiver's moves only |
| `StagingPool.QueueNeverFull` | native/vulkan-external-capture-prototype/luma_vk_capture_receiver.cpp:560-565 | while the producer holds a copied slot the FIFO is not full: the guarding branch is dead |
| `StagingPool.OwnedVisit` | native/vulkan-external-capture-prototype/luma_vk_capture_receiver.cpp:531-557 | one visit of the scan keeps the slots' owners distinct: FIFO, worker's hand, producer's hand |
| `StagingPool.OwnedEnqueue` | native/vulkan-external-capture-prototype/luma_vk_capture_receiver.cpp:558-572 | entering the FIFO keeps them distinct and appends the slot at its end |
| `StagingPool.InvStep` | native/vulkan-external-capture-prototype/luma_vk_capture_receiver.cpp:484-576 | every step of either thread and every completed GPU read keeps the pool's invariant |
| `StagingPool.RunKeepsInv` | native/vulkan-external-capture-prototype/luma_vk_capture_receiver.cpp:484-576 | so it holds throughout every interleaving |
| `StagingPool.BlitAfterRead` | native/vulkan-external-capture-prototype/luma_vk_capture_receiver.cpp:508-513 | no slot is blitted into before the encoder's read of it has finished |
| `StagingPool.SubmittedInOrder` | native/vulkan-external-capture-prototype/luma_vk_capture_receiver.cpp:484-514 | frames are submitted in the order of their acceptance, and accepted frames are encoded, dropped on submission, queued or in hand |
| `StagingPool.ExitedDrained` | native/vulkan-external-capture-prototype/luma_vk_capture_receiver.cpp:488-489 | once the worker left its loop, every accepted frame was submitted |
| `StagingPool.DropOnlyWhenAllUnavailable` | native/vulkan-external-capture-prototype/luma_vk_capture_receiver.cpp:531-575 | a scan that ends without a slot visited every slot once and found each queued, or retiring with an unsignalled fence |
| `StagingPool.CountersTell` | native/vulkan-external-capture-prototype/luma_vk_capture_receiver.cpp:494-507 | encoded and dropped frames are the successful and the failed submissions among the events |
| `StagingPool.WorkerTells` | native/vulkan-external-capture-prototype/luma_vk_capture_receiver.cpp:484-489 | over the events: the worker waits for its start once, is dead exactly if that failed, and has left its loop exactly after its exit |
| `StagingPool.EnqueuedSlotIsLast` | native/vulkan-external-capture-prototype/luma_vk_capture_receiver.cpp:566-571 | a slot that just entered the FIFO is the last one the next scan comes to |
| `StagingPool.NoSlotIsLost` | native/vulkan-external-capture-prototype/luma_vk_capture_receiver.cpp:484-576 | in every run, an unavailable slot is in the FIFO, in the worker's or the producer's hand, or retiring with its read outstanding |
| `StagingPool.ReadsTell` | native/vulkan-external-capture-prototype/luma_vk_capture_receiver.cpp:508-557 | over the events: a slot is being read exactly from its retirement behind a fence to the completion of that read |
| `EncodeWorkers.EncodeWorker.WorkerTake` | native/vulkan-external-capture-prototype/luma_vk_capture_receiver.cpp:486-493 | the circular queue gives its oldest index: the code's step is the model's |
| `EncodeWorkers.EncodeWorker.WorkerSubmit` | native/vulkan-external-capture-prototype/luma_vk_capture_receiver.cpp:494-507 | the code's submission is the model's |
| `EncodeWorkers.EncodeWorker.WorkerRetire` | native/vulkan-external-capture-prototype/luma_vk_capture_receiver.cpp:508-513 | the code's retirement, with or without a fence, is the model's |
| `EncodeWorkers.EncodeWorker.VisitSlot` | native/vulkan-external-capture-prototype/luma_vk_capture_receiver.cpp:533-557 | what the body of the scan does to a slot that is free, queued, retiring, or whose wait fails |
| `EncodeWorkers.EncodeWorker.PushIndex` | native/vulkan-external-capture-prototype/luma_vk_capture_receiver.cpp:566-567 | the circular queue takes an index behind its last one |
| `EncodeWorkers.EncodeWorker.ProducerEnqueue` | native/vulkan-external-capture-prototype/luma_vk_capture_receiver.cpp:558-572 | entering the circular queue always succeeds and appends to the FIFO |
| `EncodeWorkers.EncodeWorker.Copy` | native/vulkan-external-capture-prototype/luma_vk_capture_receiver.cpp:529-576 | with the worker and the GPU running in between, an accepted frame is appended once; without a fault a frame is dropped only if every slot was unavailable at some moment of this call |
| `EncodeWorkers.EncodeWorker.Finish` | native/vulkan-external-capture-prototype/luma_vk_capture_receiver.cpp:578-584 | closing ends with a stopped worker, and one that had started leaves accepted = encoded + submission drops |
| `StagingBudget.PoolFitsBudget` | native/vulkan-external-capture-prototype/luma_vk_capture_receiver.cpp:409-435 | the pool has 4 to 256 frames and fits the memory budget exactly when four frames do |
| `StagingBudget.PoolIsLargest` | native/vulkan-external-capture-prototype/luma_vk_capture_receiver.cpp:420-435 | a pool smaller than 256 lasts for the configured time, or one more frame would exceed the memory; a pool above four is no larger than that time needs |
| `Pacing.Pacer.CaptureDue` | native/game-capture-gl/src/luma_capture_pacing.h:8-13 | the pacer in 64-bit arithmetic, equal to the unbounded one whenever `now + interval` is representable |
| `Pacing.NoOverflow` | native/game-capture-gl/src/luma_capture_pacing.h:8-13 | products and sums of the pacer do not overflow then |
| `Pacing.DeadlineOnGrid` | native/game-capture-gl/src/luma_capture_pacing.h:4-13 | over any nondecreasing presents the deadline stays on the grid of the first one, after the latest present and within one interval of it |
| `Pacing.AcceptsFirstOfCell` | native/game-capture-gl/src/luma_capture_pacing.h:4-13 | a present is accepted exactly if it is the first in its cell of the grid |
| `Pacing.RestartLags` | native/game-capture-gl/src/luma_capture_pacing.h:4-6 | the invariant that relates the two pacers over a run |
| `Pacing.PhaseCapturesMost` | native/game-capture-gl/src/luma_capture_pacing.h:4-6 | keeping the phase never captures fewer presents than restarting from `now + interval` |
| `Pacing.AdmitExactly` | native/xwayland-capture/luma_xwayland_capture.cpp:393-400 | a present is admitted exactly if it is the first or the deadline has passed; the next deadline is one interval after the last one if that is still to come, and one interval from now otherwise |
| `Pacing.AdmittedSpan` | native/xwayland-capture/luma_xwayland_capture.cpp:393-400 | `n` presents admitted from the first on span at least `n - 1` intervals |
| `Pacing.AdmittedWindow` | native/xwayland-capture/luma_xwayland_capture.cpp:393-400 | any `n` consecutive admitted presents span more than `n - 2` intervals |
| `Xwayland.FirstAvailable` | native/xwayland-capture/luma_xwayland_capture.cpp:221-231 | the slot found has no fence or a signalled one, and every slot before it waits for the GPU |
| `Xwayland.PoolAfterOwned` | native/xwayland-capture/luma_xwayland_capture.cpp:427-480 | on every path of an import and its encoding, each image made is in one slot or destroyed once |
| `Xwayland.RunKeepsInv` | native/xwayland-capture/luma_xwayland_capture.cpp:378-487 | in every run, admitted = encoded + export drops + pool drops + one if a fatal error stopped the loop |
| `Xwayland.ExitDestroysAll` | native/xwayland-capture/luma_xwayland_capture.cpp:489-501 | by the end every image that was made has been destroyed exactly once |
| `Xwayland.WaitingImagesKept` | native/xwayland-capture/luma_xwayland_capture.cpp:221-231 | handling a present leaves every slot alone whose fence is not signalled, so an image behind an unsignalled fence stays alive |
| `Xwayland.EncodedExactly` | native/xwayland-capture/luma_xwayland_capture.cpp:427-481 | an exported frame whose import works is encoded exactly if a slot is available, its framebuffer is complete, and the encoder is ready and takes it |
| `Xwayland.CountedExactly` | native/xwayland-capture/luma_xwayland_capture.cpp:400-481 | which presents count as export drops, which as pool drops, which stop the loop, and which leave an encoder made, in terms of the answers |
| `Xwayland.EncodedImageWaits` | native/xwayland-capture/luma_xwayland_capture.cpp:467-474 | an encoded image is kept in a slot behind its fence |
| `Xwayland.RunIsPaced` | native/xwayland-capture/luma_xwayland_capture.cpp:391-400 | the presents that a whole run admits are spaced by the pacer |
| `Xwayland.CaptureLoop.ReleaseSlot` | native/xwayland-capture/luma_xwayland_capture.cpp:214-219 | destroys the slot's image, if any, and empties the slot |
| `Xwayland.CaptureLoop.AvailableSlot` | native/xwayland-capture/luma_xwayland_capture.cpp:221-231 | returns the first available slot, released if it had a fence |
| `Xwayland.CaptureLoop.Encode` | native/xwayland-capture/luma_xwayland_capture.cpp:450-481 | counters, slot and encoder after the framebuffer check, the encoder's start and the submission, on every path |
| `Xwayland.CaptureLoop.HandlePresent` | native/xwayland-capture/luma_xwayland_capture.cpp:391-482 | the handling of one present is the step of the model that the run theorems are about |
| `Xwayland.CaptureLoop.ReleaseSlots` | native/xwayland-capture/luma_xwayland_capture.cpp:491-496 | the exit loop is the model's |
| `NvencRing.FinishedRing` | native/nvenc-gl-prototype/nvenc_gl_encoder.cpp:152-160 | after a packet, with or without errors, a slot is in flight and mapped exactly while its index is pending |
| `NvencRing.DeliverNext` | native/nvenc-gl-prototype/nvenc_gl_encoder.cpp:149-151 | delivering the front keeps the packets in the order of submission, with or without an error afterwards |
| `NvencRing.FinishedMaps` | native/nvenc-gl-prototype/nvenc_gl_encoder.cpp:152-159 | every mapping stays with one slot until unmapping is attempted |
| `NvencRing.PolledKeepsInv` | native/nvenc-gl-prototype/nvenc_gl_encoder.cpp:135-163 | a whole poll keeps the ring's invariant |
| `NvencRing.SubmittedKeepsInv` | native/nvenc-gl-prototype/nvenc_gl_encoder.cpp:165-207 | so does a submission, on every path |
| `NvencRing.PolledExactly` | native/nvenc-gl-prototype/nvenc_gl_encoder.cpp:135-163 | a poll retires exactly the pictures that lock and unlock without error before the first that does not, in order |
| `NvencRing.SubmitExactly` | native/nvenc-gl-prototype/nvenc_gl_encoder.cpp:165-207 | a submission succeeds exactly if its poll does and the slot is known, not pending, mapped and encoded; then its picture is the last one pending, and otherwise nothing is |
| `NvencRing.Run` | native/nvenc-gl-prototype/nvenc_gl_encoder.cpp:135-236 | any sequence of polls, submissions and shutdowns, with any errors, keeps it: pending indices distinct, submitted = retired + pending while open, packets in order |
| `NvencRing.CountersTell` | native/nvenc-gl-prototype/nvenc_gl_encoder.cpp:135-163 | failures after a delivery are counted over the answers: a poll meets an unlocking or unmapping that fails before it runs out of pending pictures, is told to wait or fails to lock |
| `NvencRing.DeliveredExactly` | native/nvenc-gl-prototype/nvenc_gl_encoder.cpp:149-160 | there is one packet for each retired picture and one more for each such failure; without failures they are the retired pictures in order |
| `NvencRing.DeliveredTwice` | native/nvenc-gl-prototype/nvenc_gl_encoder.cpp:149-156 | a concrete run in which a packet is delivered twice |
| `NvencRing.ShutdownUnmapsAll` | native/nvenc-gl-prototype/nvenc_gl_encoder.cpp:209-236 | after a shutdown every mapping had its unmapping attempted, once each exactly if no poll met an unmapping that fails; pending packets are discarded |
| `NvencRing.Encoder.PollFront` | native/nvenc-gl-prototype/nvenc_gl_encoder.cpp:135-163 | the loop is the model's poll |
| `NvencRing.Encoder.SubmitTexture` | native/nvenc-gl-prototype/nvenc_gl_encoder.cpp:165-207 | a poll, then the checks, the mapping and the encoding, as in the model |
| `NvencRing.Encoder.Close` | native/nvenc-gl-prototype/nvenc_gl_encoder.cpp:209-236 | unmaps every mapped slot, clears slots and queue; a second shutdown does nothing |
| `Rectangles.SubtractExactly` | crates/compositor/src/effects.rs:609 | subtracting a rectangle leaves exactly the pixels outside it |
| `Rectangles.SubtractDisjoint` | crates/compositor/src/effects.rs:609 | as at most four nonempty, disjoint parts |
| `Rectangles.SubtractAllExactly` | crates/compositor/src/effects.rs:609 | the same over a list of fragments |
| `Rectangles.SubtractAllDisjoint` | crates/compositor/src/effects.rs:609 | which stay nonempty and disjoint |
| `Coverage.FragmentsExact` | crates/compositor/src/effects.rs:604-617 | the remaining fragments are nonempty, disjoint and exactly the pixels of the area outside the regions seen |
| `Coverage.NothingLeft` | crates/compositor/src/effects.rs:610-612 | no fragment is left exactly if the regions cover every pixel |
| `Coverage.FullyCovered` | crates/compositor/src/effects.rs:597-619 | true only if every pixel is covered; false only for an empty area, an uncovered pixel, more than 4096 regions, or more than 256 fragments |
| `RoundedMask.InteriorDisjoint` | crates/compositor/src/effects.rs:203-231 | for every real rectangle and radius, the interior's rectangles are nonempty and pairwise disjoint |
| `RoundedMask.InteriorExactly` | crates/compositor/src/effects.rs:203-231 | which pixels the interior contains: a cross of two bars, inset by one pixel from the edges they reach and by one pixel and the corner radius from the others |
| `RoundedMask.BarInside` | crates/compositor/src/effects.rs:205-222 | a point well inside both pairs of edges has signed distance at most -1.5 to the rounded mask |
| `RoundedMask.MaskExactly` | crates/compositor/src/effects.rs:245-262 | what the signed distance means: a point is at least `d` inside the mask exactly if it is within `r - d` of the rectangle that the corner radius `r` leaves on all sides, or, for larger `d`, at least `d` inside the straight edges |
| `RoundedMask.InteriorInsideMask` | crates/compositor/src/effects.rs:238-269 | so every pixel centre of the interior lies beyond the antialiased edge, for all rectangles and radii |
| `Scenes.ClipAllExactly` | crates/compositor/src/effects.rs:178-190 | clipping all regions by all bars, with the translation to local coordinates, keeps exactly the common pixels |
| `Scenes.RegionsExactly` | crates/compositor/src/effects.rs:169-194 | an element's regions in output coordinates contain a pixel exactly if it is drawn opaquely there, without an overriding geometry, and in the rounded interior |
| `Scenes.SceneRegionsExactly` | crates/compositor/src/effects.rs:1052-1062 | the regions of a scene contain a pixel exactly if some element that is no background draws it opaquely, in its rounded interior |
| `Scenes.MarkCovered` | crates/compositor/src/effects.rs:1049-1063 | if the background is marked as covered, nothing is blurred, the output is not rotated, and every pixel is occluded by some element, beyond its antialiased edge; if not, something is blurred, the output is rotated or empty, some pixel is occluded by no element, or there are too many regions or fragments |
| `SessionLocks.RunKeepsInv` | crates/compositor/src/lock.rs:82-213 | in every run a pending confirmation belongs to the present lock and was not given before |
| `SessionLocks.RunTells` | crates/compositor/src/lock.rs:82-162 | locked, generation and number of requests are what the events alone say: locks are taken by the first allowed request since the last unlock and numbered in 64-bit words |
| `SessionLocks.PendingExactly` | crates/compositor/src/lock.rs:82-162 | in every run, the confirmation of a request is pending exactly if that request took the present lock and was not confirmed yet |
| `SessionLocks.RecordsAreTruthful` | crates/compositor/src/lock.rs:60-213 | in every run, each output of a locked space holds a record of this lock with exactly the number of frames of this lock that it presented |
| `SessionLocks.ConfirmsExactly` | crates/compositor/src/lock.rs:191-213 | in every run, an event confirms request `n` exactly if `n` took the present lock and is not confirmed, the event is a frame of this lock, and every current output has by then presented two frames of this lock |
| `SessionLocks.ConfirmedAtMostOnce` | crates/compositor/src/lock.rs:208-210 | every confirmation belongs to a lock request and is given at most once |
| `SessionLocks.StaleFrameChangesNothing` | crates/compositor/src/lock.rs:191-194 | a frame of another generation, or one presented while unlocked, can be left out of a run: every later state, every count of frames and so every later confirmation is the same |
| `SessionLocks.NewSurfaceOnlyMarks` | crates/compositor/src/lock.rs:163-177 | in every run, a new lock surface on an output of a locked space changes nothing of its record but the surface |
| `SessionLocks.OldRecordWouldConfirmExactly` | crates/compositor/src/lock.rs:173-177 | the boundary of `new_surface`, for sessions that no run reaches: an old record in the space would let another output's frame confirm the lock exactly if it had two presentations |
| `SessionLocks.SessionLock.LockSession` | crates/compositor/src/lock.rs:82-150 | a lock keeps its confirmation pending and resets every current output to the new generation; a refused one only drops its own confirmation |
| `SessionLocks.SessionLock.UnlockSession` | crates/compositor/src/lock.rs:151-162 | an unlock clears the confirmation and the records of the current outputs only |
| `SessionLocks.SessionLock.NewLockSurface` | crates/compositor/src/lock.rs:163-187 | the output's record is retagged with the present generation and keeps its presentations |
| `SessionLocks.SessionLock.RecordPresented` | crates/compositor/src/lock.rs:60-67 | counts a frame of its own generation, saturating, and asks for another one before the second |
| `SessionLocks.SessionLock.LockPresented` | crates/compositor/src/lock.rs:191-213 | records the frame and takes the confirmation if every output is ready |
| `SessionLocks.SessionLock.ConnectOutput` | crates/compositor/src/udev.rs:1875-1893 | a connected output is a new one, recorded afresh if the session is locked |
| `SessionLocks.SessionLock.MaintainOutputs` | crates/compositor/src/policy.rs:1323-1331 | during a lock, outputs without a record get a fresh one and others keep theirs |
| `Workspaces.FirstShowing` | crates/compositor/src/policy.rs:977-996 | the first output in name order, apart from the excepted one, that shows a workspace; none only if no output does |
| `Workspaces.ShowingKeepsInv` | crates/compositor/src/policy.rs:990-1013 | showing a workspace, with the exchange between two outputs, keeps the map injective and every window of a shown workspace on its output |
| `Workspaces.ShowingSwaps` | crates/compositor/src/policy.rs:990-1008 | the output shows the workspace, the output that showed it gets the other one in exchange, and no other output changes |
| `Workspaces.ShowingBack` | crates/compositor/src/policy.rs:990-1013 | going back restores the map, and the windows too exactly if the workspace was shown somewhere or its windows were on this output |
| `Workspaces.SentKeepsInv` | crates/compositor/src/policy.rs:976-988 | so does sending the focused window to a workspace |
| `Workspaces.CommandKeepsInv` | crates/compositor/src/policy.rs:962-1068 | so do all of workspace, send and scratchpad |
| `Workspaces.RefusedExactly` | crates/compositor/src/policy.rs:962-990 | which commands are refused: a workspace outside the configured range, an unknown output, or an output given to `send` |
| `Workspaces.SendMoves` | crates/compositor/src/policy.rs:976-988 | sending moves the focused window, and no other, to the workspace and to the output that shows it, or else to the active one |
| `Workspaces.ScratchpadReturns` | crates/compositor/src/policy.rs:1051-1068 | showing the scratchpad after sending a window there, while no earlier window is marked, brings that window to the active output and its workspace, floating and unmarked, and changes nothing else |
| `Workspaces.FocusShows` | crates/compositor/src/policy.rs:1069-1076 | `focus ID` shows the window's workspace on the window's output, and changes nothing else |
| `Workspaces.RunKeepsInv` | crates/compositor/src/policy.rs:962-1068 | over every run of these commands, whatever is focused and whichever output is active |
| `Workspaces.FocusKeepsExactly` | crates/compositor/src/policy.rs:1069-1076 | `focus ID` keeps the invariant if and only if all windows of the target's workspace are on the target's output |
| `Workspaces.FocusCanMisplace` | crates/compositor/src/policy.rs:1069-1076 | a concrete run of two sends and a focus that breaks it |
| `Workspaces.FirstFree` | crates/compositor/src/policy.rs:1135-1137 | a workspace from 1 to 9 that no output shows, unless all of them are shown |
| `Workspaces.AssignedExtends` | crates/compositor/src/policy.rs:1133-1141 | outputs that are assigned a workspace get one from 1 to 9; others keep theirs |
| `Workspaces.AssignedLowest` | crates/compositor/src/policy.rs:1133-1141 | every workspace below the one that a new output gets is shown by an output that stayed or by a new one before it |
| `Workspaces.PluggedWindows` | crates/compositor/src/policy.rs:1142-1154 | windows of outputs that are gone move to the first output that is left, and nothing else about any window changes |
| `Workspaces.PluggedInjectiveExactly` | crates/compositor/src/policy.rs:1130-1141 | after outputs were plugged in or out no workspace is shown twice, if and only if there are at most nine outputs |
| `Workspaces.PluggedPlacedExactly` | crates/compositor/src/policy.rs:1130-1154 | after any plugging in and out the windows are placed if and only if a workspace given to a new output has no windows on the outputs that stayed, and windows of unplugged outputs only if the new output is the first one |
| `Workspaces.PluggedCanMisplace` | crates/compositor/src/policy.rs:1133-1141 | a concrete run: a window is sent to a hidden workspace, and a second output is plugged in, which shows it |
| `Workspaces.UnplugKeepsInv` | crates/compositor/src/policy.rs:1132-1154 | unplugging outputs while one remains keeps the whole invariant |
| `Workspaces.DesktopState.Show` | crates/compositor/src/policy.rs:990-1013 | the two loops over the windows and the updates of the map are the model's exchange |
| `Workspaces.DesktopState.DesktopCommand` | crates/compositor/src/policy.rs:962-1076 | the dispatch with its error returns; a refused command changes nothing |
| `Workspaces.DesktopState.MaintainOutputs` | crates/compositor/src/policy.rs:1130-1154 | the loops over outputs and windows are the model's assignment |
| `Restack.RestackedOrder` | crates/compositor/src/policy.rs:1741-1762 | tiled windows end below floating ones, and two windows of one kind keep their order |
| `Restack.RestackedPermutes` | crates/compositor/src/policy.rs:1757-1762 | no window is lost or repeated |
| `Restack.RestackedTwice` | crates/compositor/src/policy.rs:1741-1762 | restacking again changes nothing |
| `Restack.ScanStep` | crates/compositor/src/policy.rs:1745-1756 | the scan's flag is set exactly if the stack seen so far is out of order |
| `Restack.Space.Scan` | crates/compositor/src/policy.rs:1743-1756 | the loop finds the floats in order and decides whether a restack is needed |
| `Restack.Space.RaiseAll` | crates/compositor/src/policy.rs:1758-1760 | raising the floats one after the other puts them on top in their order |
| `Restack.Space.RestoreFloats` | crates/compositor/src/policy.rs:1741-1762 | the stack is restacked, and a redraw is asked for exactly if it changed |
| `ShmCapture.AcceptedExactly` | crates/compositor/src/capture.rs:630-666 | exactly the buffers that match the output, have a large enough stride and hold all rows within the limit are accepted |
| `ShmCapture.AddressInRows` | crates/compositor/src/capture.rs:690-700 | every byte of every row has an address inside the buffer |
| `ShmCapture.AddressesDistinct` | crates/compositor/src/capture.rs:690-700 | no two of them coincide |
| `ShmCapture.WrittenRow` | crates/compositor/src/capture.rs:690-700 | row `y` of the buffer becomes row `y` of the pixels |
| `ShmCapture.PaddingUnchanged` | crates/compositor/src/capture.rs:690-700 | every other byte is unchanged |
| `ShmCapture.ReadBack` | crates/compositor/src/capture.rs:676-704 | reading the rows back gives the pixels that were written |
| `ShmCapture.Write` | crates/compositor/src/capture.rs:676-704 | the method writes exactly that, or reports the error and changes nothing |
| `ShmCapture.UprightTwice` | crates/compositor/src/capture.rs:612-618 | reversing the rows twice gives the mapped image back |
| `ShmCapture.ReadRowsUpright` | crates/compositor/src/capture.rs:592-620 | byte `x` of row `y` of the pixels is byte `x` of row `y` of the mapping if that is flipped, and of row `height - 1 - y` otherwise; a wrong size or one above the limit is an error |
| `ShmCapture.CapturedRow` | crates/compositor/src/capture.rs:612-700 | the composition of both: which mapped byte each byte of the client's rows comes from, in plain arithmetic |
| `CursorAnimation.NearestIsFirstBest` | crates/compositor/src/cursor.rs:86-91 | the first image whose nominal size is nearest |
| `CursorAnimation.NearestImagesExactly` | crates/compositor/src/cursor.rs:86-96 | the candidates are exactly the images as large as that one, and there is at least one |
| `CursorAnimation.Find` | crates/compositor/src/cursor.rs:121-132 | the loop always returns: its final `unreachable` is unreachable, and the image shown is the one whose interval holds the time |
| `CursorAnimation.FrameAt` | crates/compositor/src/cursor.rs:100-133 | all branches of `frame` together |
| `CursorAnimation.DeadlineExactly` | crates/compositor/src/cursor.rs:105-120 | there is a deadline exactly if at least two images have a delay, and it is within the image's delay |
| `CursorAnimation.FrameUnique` | crates/compositor/src/cursor.rs:100-133 | image and deadline are determined by the time |
| `CursorAnimation.RepaintKeepsDeadline` | crates/compositor/src/cursor.rs:98-99 | a repaint before the deadline shows the same image and does not move the deadline |
| `CursorAnimation.DeadlineShowsNext` | crates/compositor/src/cursor.rs:121-131 | a repaint at the deadline shows the next image with a delay, cyclically, for its full delay |
| `CursorAnimation.StillExactly` | crates/compositor/src/cursor.rs:101-120 | a cursor with at most one delayed image shows that one, or the first, for ever |
| `CursorAnimation.CycleStarts` | crates/compositor/src/cursor.rs:121-132 | a cycle starts with the first delayed image, for its full delay |
| `Subscribers.PublisherStep` | crates/compositor/src/policy.rs:1929-1943 | every step of a publication keeps the invariant of all subscribers |
| `Subscribers.SubscriberStep` | crates/compositor/src/ipc.rs:87-111 | so does every step of a subscriber thread |
| `Subscribers.NoLostWakeup` | crates/compositor/src/ipc.rs:91-98 | in every interleaving, a subscriber that waits on an empty channel has been sent the current user interface |
| `Subscribers.CatchesUp` | crates/compositor/src/ipc.rs:91-110 | while nothing is published, a subscriber's own steps lead it to wait on an empty channel with the current user interface written |
| `Subscribers.WrittenInOrder` | crates/compositor/src/ipc.rs:98-110 | no client is sent an older snapshot after a newer one, and none that is still there is dropped from the list |
| `Subscribers.WokenHaveMessages` | crates/compositor/src/policy.rs:1936-1942 | after a publication exactly the open channels remain, none without a message |
| `Subscribers.PublicationIsARun` | crates/compositor/src/policy.rs:1929-1943 | a publication is a run of the publisher's steps, and it leads from one list of channels to the one that the loop over the senders makes |
| `Subscribers.Desk.PublishSnapshot` | crates/compositor/src/policy.rs:1929-1943 | the snapshot is replaced; only a change of the user interface wakes subscribers |
| `Subscribers.AtMost32` | crates/compositor/src/ipc.rs:41-53 | there are never more than 32 handlers, and the counter is their number |
| `Subscribers.RefusedExactly` | crates/compositor/src/ipc.rs:41-46 | a connection is accepted exactly if fewer than 32 handlers run |

## Left out

- CaptureProtocol: liveness. A lost acknowledgement leaves its slot busy for good, and the code does not recover it.
- CaptureProtocol: the order of time stamps across slots, which retried exports may change; and the 64-bit wrap of generations.
- CaptureProtocol: what the GPU holds after a swapchain was destroyed; the theorems speak of live rings.
- ExportRing: two threads in the hook at once (it takes no lock), the tables of 8 devices, 32 queues and 16 swapchains, and image and memory handles. `capturable` stands for the checks on the request, an exported ring and an open socket.
- ReceiverProtocol: `Provided` asks that the producer's copies of the frames read in a part of the history are done when it begins; in a world, reads begin at any time after their copy.
- Receivers: the sender's ancestry and credentials and the message's fields are one flag, `headerOk`; EGL images, textures and semaphores of the cache are not counted; one arrival is one loop iteration with a readable socket.
- EncodeWorkers: the fences between copy and submission (`slot.copied`), statistics, and the start-up of EGL contexts. A start-up that fails leaves accepted frames queued, as in the code.
- EncodeWorkers.EncodeWorker.Copy: a frame that is not accepted after a failed fence wait counts as a fault, not as a drop, as in the code.
- Pacing.Pacer.CaptureDue: the run theorems are about the unbounded pacer; they apply to the words as long as `now + interval` is representable.
- Xwayland.WaitingImagesKept: an image whose fence could not be made is released at once, as in the code, although its read may still run.
- Xwayland: the Present extension's event plumbing, file descriptors of exported frames, and the GL objects other than images. The pacer's 64-bit wrap is not modelled.
- NvencRing: initialisation, bitstream buffers and registrations, and an `on_packet` callback that calls back into the encoder.
- Rectangles: Smithay's rectangle subtraction is not part of this model; it is specified as the split into four parts around the overlap, and the fragment limit counts these parts.
- RoundedMask: rounding of 32-bit floats and saturation of the casts to integers; coordinates are reals and integers.
- Scenes: which elements a scene has, their damage, and the fractional scale; elements are given with their geometry.
- SessionLocks: focus, grabs and recorder side effects; `allowed` stands for backend support and an active session. Only the udev backend supports locking, so connecting is modelled as it does it. A frame is of a lock if it carries the lock's generation, a 64-bit word that wraps.
- Workspaces: the names of outputs are numbers in name order, and `out` and `focused` are the active output and focused window that the code computes elsewhere. Window death, directional focus, moving, tiling and animation are left out.
- Restack: elements of equal z-index in Smithay's space; other z-indices do not occur here.
- ShmCapture: the guard of the shared mapping and the rendering itself. `render` is modelled for outputs of nonnegative size.
- CursorAnimation: loading themes, and the rounding of delays to 64 bits.
- Subscribers: time-outs of reads and writes, and JSON. A failed first reply counts as written, because the loop goes on after it. The comparison of snapshots is one number, `ui`.
- The GL exporter, the ptrace injector, launchers, the desktop portal, configuration, input dispatch, shaders and resource management are left out: operating-system effects and plumbing.
