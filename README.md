# Frame pacing in the D3D12 sample, modelled in Dafny

The sample renders a textured quad through a ring of `QUEUE_SLOT_COUNT = 3` queue
slots. Each slot owns:

- a command allocator and a command list;
- a constant buffer;
- a back buffer;
- a fence.

The CPU-side bookkeeping is three pieces of state:

- the ring index `currentBackBuffer_`;
- the fence counter `currentFenceValue_`;
- the per-slot array `fenceValues_`.

Starting from that state, `Run` does the following:

1. It initializes. This creates the frame fences at 0 and uploads the mesh and
   texture through an init command list gated by an upload fence signalled with 1.
2. It runs `frameCount` iterations of:
   - wait on the current slot's fence for that slot's `fenceValues_` entry;
   - `Render`: reset and re-record the slot's list, write its constant buffer,
     submit;
   - `Present`: advance the ring, then signal the fence of the *new* slot with the
     counter, store the value in that slot's entry, and increment the counter.
3. It drains by waiting once on every slot's fence, then shuts down.

The project has five modules:

- `Gpu` (gpu.dfy) is the graphics API as the core sees it.
  - A `CommandQueue` class keeps the submitted work in order and the number of
    items the GPU has finished.
  - A fence's completed value is the last value signalled on it by finished work.
    It therefore only grows and never exceeds what was signalled.
  - A `CommandList` class records commands. Resetting its allocator requires that
    the GPU has finished every submission of the list.
- `ResourceStates` (states.dfy) tracks resource-state tags.
  - Replaying the submitted command lists in order gives each resource's state at
    every command.
  - `Consistent` says that every use and every barrier's before-state matches the
    current state.
- `Layout` (layout.dfy) holds the byte arithmetic:
  - the staging buffer holding the vertices and then the indices;
  - the two copy regions;
  - the C `int` indices read back as `R32_UINT`;
  - the texture's row and slice pitches.
- `Frames` (frames.dfy) is the pure specification of what the sample submits and
  the order of its synchronization calls. It contains:
  - the queue history of a run of n frames (`RunHistory`);
  - the value each slot's entry holds after i frames (`LastFrameSignalled`);
  - the logged call sequence (`RunEvents`, `DrainEvents`);
  - the lemmas about these.
- `Sample` (sample.dfy) is the class `D3D12Sample`. Its fields are the ring index,
  the counter, the `fenceValues` array, the queue and the command lists. Its methods
  are `Initialize`, `Render`, `Present`, the frame loop, the drain and `Run`. Each
  method is proved to produce exactly the history and call log that `Frames` defines.
  The GPU's own progress is given to the methods as a parameter: how many submitted
  items it finishes before each wait, in the frame loop, the upload and the drain.
  `RunSample` is the program's `main`: a new sample running 512 frames.

Consequences of the code that the lemmas establish:

- **Round robin.** Iteration i waits on slot i mod 3, so seven frames wait on
  0, 1, 2, 0, 1, 2, 0 (`RoundRobin`, `SevenFrames`).
- **Wait before reuse.** Every reset of a slot's allocator and list, and every write
  of its constant buffer, comes after that iteration's wait on the slot's fence
  (`WaitBeforeReuse`).
- **The slot is free after its wait.** Once the wait returns, no unfinished execution
  of the slot's list remains and no unfinished command names the slot's constant
  buffer (`SlotFreeAfterWait`).
- **One frame in flight.** `Present` signals the next slot's fence with the frame's
  own value. The slot it signals is the one the next iteration waits on. So from the
  third iteration on, every wait is for the previous frame's signal. After the wait,
  nothing submitted is unfinished: at most one frame is in flight, not three.
- **First waits.** The first waits on slots 0 and 1 are on 0, the fences' creation
  value, so they return at once. The first wait on slot 2 is on 1, frame 1's signal
  (`FirstWaits`).
- **Fence values per slot.** The values signalled on one fence grow by exactly 3
  from one signal to the next (`FrameSignalsPerFence`).
- **The drain.** It makes exactly three waits, one per slot, each on the slot's last
  signalled value (`DrainWaitsEachSlot`). After any number of frames other than one,
  it leaves nothing unfinished. After exactly one frame, all three waits are on the
  creation value 0, so the drain can return while frame 0 is still on the GPU
  (`DrainAfterOneFrameMayNotWait`).
- **Upload order.** The init list is closed, executed and followed by the upload
  fence's signal. The allocator is reset only after the wait on that fence. All of
  this precedes the first frame (`UploadOrder`, `Initialize`, `Run`).
- **Barriers.**
  - The upload moves the vertex buffer, index buffer and texture from COPY_DEST to
    their working states.
  - Every frame moves its back buffer from PRESENT to RENDER_TARGET for the clear and
    the draw, and back to PRESENT before `Close`.
  - Every barrier names the resource's current state (`RunConsistent`,
    `BackBufferStateDuringFrame`).

Points of the code that the model keeps exactly as written:

- `Present` signals the fence of the slot after the ring advanced, not the slot just
  rendered, and stores the value in that slot's `fenceValues_` entry
  (src/D3D12Sample.cpp:204-211).
- Frame 0 signals slot 1's fence with 0, its creation value, so that signal does not
  raise the fence. `Signal` therefore requires only that a signal does not lower the
  fence's last signalled value. Every later signal on a fence is 3 above the one before.
- The staging buffers `uploadBuffer_` and `uploadImage_` stay alive after
  `Initialize`. Only the init allocator and list are released
  (src/D3D12Sample.cpp:302-304).
- The upload wait tests `!= 1` (src/D3D12Sample.cpp:297).

## Model

| member | source | states |
|---|---|---|
| Gpu.LastSignalGrows | src/D3D12Sample.cpp:169-175 | along a queue history whose signals never lower a fence, the last value signalled by a longer prefix is at least that of a shorter one, so a fence's completed value only grows |
| Gpu.LastSignalConcat | src/D3D12Sample.cpp:209-210 | the last signal on a fence in `a + b` is the last one in `b`, or that of `a` when `b` signals nothing on it |
| Gpu.LastSignalNone | src/D3D12Sample.cpp:229-235 | a history with no signal on a fence leaves it at its creation value |
| Gpu.CommandQueue.CompletedBounded | src/D3D12Sample.cpp:171-173 | a fence's completed value never exceeds the last value signalled on it, so a wait for a signalled value can finish |
| Gpu.CommandQueue.CreateFence | src/D3D12Sample.cpp:234 | a new fence starts with completed value equal to its creation value; nothing submitted changes |
| Gpu.CommandQueue.ExecuteCommandLists | src/D3D12Sample.cpp:164 | the list's commands are appended to the queue's history; fences and progress are unchanged |
| Gpu.CommandQueue.Signal | src/D3D12Sample.cpp:210 | the signal is appended to the history, provided it does not lower the fence's last signalled value |
| Gpu.CommandQueue.RetireOne | src/D3D12Sample.cpp:172-173 | the GPU finishes the oldest unfinished item; a signal raises its fence to the signalled value; no completed value drops |
| Gpu.CommandQueue.Advance | src/D3D12Sample.cpp:172-173 | the GPU finishes up to `steps` items, never more than were submitted |
| Gpu.CommandQueue.GetCompletedValue | src/D3D12Sample.cpp:171 | reads the fence's completed value without changing anything |
| Gpu.CommandList.constructor | src/D3D12Sample.cpp:282-284 | CreateCommandList yields an open, empty list |
| Gpu.CommandList.ResetAllocator | src/D3D12Sample.cpp:92 | requires that no submitted execution of the list is unfinished; empties the list |
| Gpu.CommandList.Reset | src/D3D12Sample.cpp:95-96 | reopens a closed list, empty |
| Gpu.CommandList.Record | src/D3D12Sample.cpp:97-159 | appends one command to an open list |
| Gpu.CommandList.Close | src/D3D12Sample.cpp:161 | closes the list, keeping its commands |
| ResourceStates.ReplayConcat | src/D3D12Sample.cpp:163-164 | replaying two lists in submission order is replaying the second from the states the first leaves; the run is consistent iff both parts are |
| ResourceStates.ReplayKeeps | src/D3D12Sample.cpp:97-145 | commands without a barrier on a resource leave its state tag unchanged |
| ResourceStates.BarrierFreeRun | src/D3D12Sample.cpp:124-145 | a barrier-free run whose every command is legal in the current states is consistent and changes no state |
| ResourceStates.ExecutedCommandsConcat | src/D3D12Sample.cpp:163-164 | the commands executed by two consecutive parts of the history are those of the first followed by those of the second |
| Layout.MeshLayout | src/D3D12Sample.cpp:423-489 | the staging buffer is sizeof(vertices) + sizeof(indices) = 104 bytes; both copy regions lie inside it, do not overlap and end at its end; the vertex stride is sizeof(Vertex); the draw count 6 (line 145) equals the index count; every index names one of the 4 vertices |
| Layout.Memcpy | src/D3D12Sample.cpp:481-482 | memcpy overwrites exactly the target range with the source bytes, keeps its length and leaves every other byte as it was |
| Layout.StagedCopiesRoundTrip | src/D3D12Sample.cpp:479-489 | after the two memcpy calls, the buffer is the vertex bytes followed by the index bytes, and the two CopyBufferRegion sources deliver exactly those bytes |
| Layout.DecodeEncode | src/D3D12Sample.cpp:474-476 | a C `int` read back as R32_UINT is itself when non-negative and x + 2^32 otherwise |
| Layout.IndicesRoundTrip | src/D3D12Sample.cpp:440-442 | non-negative C ints survive the trip through an R32_UINT index buffer unchanged |
| Layout.IndexBufferHoldsIndices | src/D3D12Sample.cpp:474-476 | the encoded index array is sizeof(indices) bytes and the input assembler reads back 0, 1, 2, 2, 3, 0 |
| Layout.TexturePitches | src/D3D12Sample.cpp:520-523 | the slice pitch is height rows of one row pitch each, and every channel of every texel of a width x height image lies inside the slice |
| Layout.TexelInside | src/D3D12Sample.cpp:522-523 | the byte of one channel of one texel lies inside the slice |
| Frames.FrameHistoryAt | src/D3D12Sample.cpp:183-189 | item k of the first n frames' queue history is item k mod 2 of frame k / 2's work: its list execution, then its signal |
| Frames.RunHistoryStep | src/D3D12Sample.cpp:188-189 | helper, one unfolding of the history: frame n adds the execution of slot n mod 3's list and then the signal of slot (n + 1) mod 3's fence with value n |
| Frames.LastFrameSignalledStep | src/D3D12Sample.cpp:209-211 | helper, one unfolding of the entries: frame i's Present changes only the entry of slot (i + 1) mod 3, to i |
| Frames.WaitTarget | src/D3D12Sample.cpp:184-185 | iteration i waits for value i - 1, the value of the previous frame's signal (0 for i = 0) |
| Frames.FirstWaits | src/D3D12Sample.cpp:229-235 | the first waits on slots 0 and 1 are on 0, the creation value; the first wait on slot 2 is on 1 |
| Frames.LastSignalFrameWork | src/D3D12Sample.cpp:209-210 | frame j's work leaves the last signal of every fence alone except the next slot's, which becomes j |
| Frames.FrameHistoryLastSignal | src/D3D12Sample.cpp:209-211 | the entry of a slot after i frames is the last value the first i frames signalled on its fence, or 0 |
| Frames.LastFrameSignalledIsLastSignal | src/D3D12Sample.cpp:209-211 | the same for the whole run's history, upload included |
| Frames.FrameSignalAt | src/D3D12Sample.cpp:209-210 | helper, an index into the history: item 2j + 1 of the frame history is frame j's signal on the fence of slot (j + 1) mod 3 with value j |
| Frames.FrameSignalsPerFence | src/D3D12Sample.cpp:204-212 | frames j and j + 3 signal the same fence, with values j and j + 3, and the two frames between signal other fences |
| Frames.NextSlot | src/D3D12Sample.cpp:204 | helper, ring arithmetic: advancing the ring from frame i's slot gives frame i + 1's slot |
| Frames.RenderUsesOwnConstantBuffer | src/D3D12Sample.cpp:128-138 | the list of a slot names that slot's constant buffer and no other's |
| Frames.LatestSignalSeen | src/D3D12Sample.cpp:184-185 | from frame 2 on, once the waited-for fence shows the previous frame's value, the GPU has finished everything submitted |
| Frames.SlotFreeAfterWait | src/D3D12Sample.cpp:184-188 | after iteration i's wait, no unfinished execution uses the slot's list and no unfinished command names its constant buffer; from i = 2 on nothing is unfinished |
| Frames.FirstFrameUnfinished | src/D3D12Sample.cpp:184-188 | during frame 1 the only execution possibly unfinished is frame 0's list of slot 0 |
| Frames.DrainRetiresAll | src/D3D12Sample.cpp:193-195 | after any number of frames other than one, the three drain waits leave nothing unfinished |
| Frames.DrainAfterOneFrameMayNotWait | src/D3D12Sample.cpp:193-195 | after exactly one frame, every drain wait is already met by the upload alone, while frame 0's list follows it in the queue |
| Frames.UploadLeavesFrameFences | src/D3D12Sample.cpp:290-294 | the upload signals no frame fence |
| Frames.UploadRetired | src/D3D12Sample.cpp:296-300 | once the upload fence shows 1, the whole upload has finished |
| Frames.UploadConsistentFrom | src/D3D12Sample.cpp:486-527 | the upload copies into resources in COPY_DEST and moves the vertex buffer, index buffer and texture to VERTEX_AND_CONSTANT_BUFFER, INDEX_BUFFER and PIXEL_SHADER_RESOURCE, changing nothing else |
| Frames.UploadConsistent | src/D3D12Sample.cpp:286-290 | from the creation states the upload is consistent and ends in the working states |
| Frames.FrameConsistentFrom | src/D3D12Sample.cpp:97-161 | a frame's list is consistent from any states with its resources in their working states and its back buffer in PRESENT, and leaves every state as it found it |
| Frames.FrameConsistent | src/D3D12Sample.cpp:97-161 | each slot's frame is consistent from the working states and restores them |
| Frames.BackBufferStateDuringFrame | src/D3D12Sample.cpp:101-159 | within a frame the back buffer is RENDER_TARGET exactly from the first barrier to the second, and PRESENT before and after |
| Frames.BackBufferBeforeClear | src/D3D12Sample.cpp:97-99 | before the first barrier the back buffer is still PRESENT |
| Frames.DrawIntoRenderTarget | src/D3D12Sample.cpp:145 | the draw is command 13 of the frame's list, and when it runs the back buffer is RENDER_TARGET |
| Frames.BackBufferWhileDrawing | src/D3D12Sample.cpp:110-145 | from the first barrier through the draw the back buffer is RENDER_TARGET |
| Frames.ExecutedInitWork | src/D3D12Sample.cpp:292-294 | the upload's history executes exactly the upload commands |
| Frames.ExecutedFrameWork | src/D3D12Sample.cpp:163-164 | a frame's work executes exactly its slot's render commands |
| Frames.FramesConsistentFrom | src/D3D12Sample.cpp:183-190 | from states ready for rendering, any number of frames is consistent and restores the states |
| Frames.FrameWorkConsistentAfter | src/D3D12Sample.cpp:188 | appending one frame to a consistent, state-restoring history keeps both properties |
| Frames.RunConsistent | src/D3D12Sample.cpp:179-198 | a whole run, upload and n frames, is consistent from the creation states and ends in the working states |
| Frames.FrameEventsAt | src/D3D12Sample.cpp:183-190 | call p of the frame loop is call p mod 9 of iteration p / 9 |
| Frames.IterationEventsAfter | src/D3D12Sample.cpp:184-189 | helper, one unfolding of the call log: the wait, then Render's calls, then Present's calls make up one iteration's calls |
| Frames.IterationWaitSlot | src/D3D12Sample.cpp:184-185 | iteration j waits exactly once, on slot j mod 3 |
| Frames.RoundRobin | src/D3D12Sample.cpp:183-185 | the frame loop's waits are on slots 0, 1, 2, 0, 1, 2, ...: wait j is on slot j mod 3 |
| Frames.SevenFrames | src/D3D12Sample.cpp:183-189 | seven frames wait on slots 0, 1, 2, 0, 1, 2, 0 |
| Frames.WaitBeforeReuse | src/D3D12Sample.cpp:183-189 | every reset of a slot's allocator or list and every write of its constant buffer is in an iteration on that slot, after its wait and before its Present |
| Frames.DrainWaitsEachSlot | src/D3D12Sample.cpp:193-195 | the drain makes exactly three waits, on slots 0, 1, 2, each on the slot's last signalled value |
| Frames.UploadOrder | src/D3D12Sample.cpp:290-304 | the init list is closed, executed, signalled with 1 and waited on, and only then is its allocator reset |
| Sample.BlockUntil | src/D3D12Sample.cpp:172-173 | the blocking wait ends with the fence at or above the value; nothing is submitted and no fence drops |
| Sample.WaitForFence | src/D3D12Sample.cpp:169-175 | on return the fence's completed value is at least the target; it blocks iff the value was below the target beforehand, and otherwise changes nothing |
| Sample.RecordBeginFrame | src/D3D12Sample.cpp:97-117 | records the render-target binding, viewport, scissor, the PRESENT to RENDER_TARGET barrier and the clear |
| Sample.RecordDrawAndEndFrame | src/D3D12Sample.cpp:134-159 | records the bindings, the draw and the barrier back to PRESENT, completing the frame's list |
| Sample.CreateClosedList | src/D3D12Sample.cpp:344-351 | each slot's list is created and closed, ready for its first Reset |
| Sample.D3D12Sample.constructor | inc/D3D12Sample.h:72-75 | three slot arrays and lists, the ring index at 0, nothing submitted; the queue, the arrays and every list are new objects, so a caller may go on to Run the sample |
| Sample.D3D12Sample.GetQueueSlot | inc/D3D12Sample.h:24-27 | returns `currentBackBuffer`, the ring index, which is always one of the 3 slots; it reads only that field |
| Sample.D3D12Sample.GetQueueSlotCount | inc/D3D12Sample.h:29-34 | returns 3, the length of every per-slot array |
| Sample.D3D12Sample.CreateMeshBuffers | src/D3D12Sample.cpp:421-496 | stages the vertex and index bytes and records the two copies and the two barriers; the copies deliver exactly the vertices and indices |
| Sample.D3D12Sample.CreateConstantBuffer | src/D3D12Sample.cpp:394-418 | each slot's constant buffer starts as the zero record |
| Sample.D3D12Sample.CreateTexture | src/D3D12Sample.cpp:499-539 | keeps the decoded image and records its copy, with row pitch width * 4 and slice pitch width * height * 4, and its barrier |
| Sample.D3D12Sample.CreateFrameFences | src/D3D12Sample.cpp:229-235 | the counter and every slot's entry are 0, and exactly one frame fence per slot exists, created at 0 |
| Sample.D3D12Sample.SubmitUpload | src/D3D12Sample.cpp:278-294 | the upload fence is created at 0, the init list holds the upload commands, and the queue holds the list's execution and then the signal of 1 |
| Sample.D3D12Sample.RecordUpload | src/D3D12Sample.cpp:286-288 | the init list holds exactly the mesh and texture upload commands, the staging buffer holds the vertex and index bytes, and every constant buffer is zero; the constant buffers are written directly (zeroed by memcpy of a zero record), not through the list |
| Sample.D3D12Sample.WaitForUpload | src/D3D12Sample.cpp:296-306 | when the upload fence shows 1 the upload has finished, and only then are the init allocator and list released |
| Sample.D3D12Sample.Upload | src/D3D12Sample.cpp:278-306 | the upload is submitted and finished, and the frame fences stay at 0 |
| Sample.D3D12Sample.Initialize | src/D3D12Sample.cpp:229-306 | the counter, every entry and every frame fence are at 0, the upload is finished, the init objects are released, and the calls are exactly the initialization sequence |
| Sample.D3D12Sample.ResetAndBeginFrame | src/D3D12Sample.cpp:91-119 | resets the slot's allocator (line 92), which it may do only when no execution of the slot's list is unfinished, and its list (lines 95-96), then records the commands up to the clear; logs the two resets in that order |
| Sample.D3D12Sample.Render | src/D3D12Sample.cpp:87-166 | requires that the slot's list and constant buffer are not in use; appends exactly the slot's render commands to the queue, writes only that slot's constant buffer with the incremented frame number, and logs the reset, write, close and execute |
| Sample.D3D12Sample.Present | src/D3D12Sample.cpp:201-213 | the ring moves to (old + 1) mod 3; that new slot's fence is signalled with the old counter, the value is stored in that slot's entry only, and the counter goes up by 1 |
| Sample.D3D12Sample.WaitForSlot | src/D3D12Sample.cpp:184-185 | waits for the current slot's entry; afterwards the slot's list and constant buffer are not in use, and from frame 2 on nothing is unfinished |
| Sample.D3D12Sample.RenderFrame | src/D3D12Sample.cpp:184-188 | the wait followed by Render submits the slot's frame |
| Sample.D3D12Sample.RunFrame | src/D3D12Sample.cpp:184-189 | one iteration takes the run from i frames to i + 1, and logs exactly iteration i's calls |
| Sample.D3D12Sample.FrameLoop | src/D3D12Sample.cpp:183-190 | n iterations leave the queue history, counter, ring index and entries as the n-frame specification says, and log exactly n iterations' calls |
| Sample.D3D12Sample.DrainSlot | src/D3D12Sample.cpp:194 | after the GPU finishes up to `progress` items on its own, one drain wait on slot i's last signalled value; the fence then shows at least that value and no other fence drops |
| Sample.D3D12Sample.Drain | src/D3D12Sample.cpp:193-195 | every slot's fence reaches its last signalled value, and except after exactly one frame nothing is unfinished |
| Sample.D3D12Sample.Run | src/D3D12Sample.cpp:179-198 | the queue history is the upload and then frameCount frames (none for a negative count); the call log is initialization, the iterations, three drain waits and shutdown; every barrier and use is consistent |
| Sample.RunSample | src/D3D12Sample.cpp:542-546 | a new sample running 512 frames submits the upload and 512 frames, logs their calls, and leaves every submitted item finished and every slot's fence at its last signalled value, whatever the GPU's pace |

## Left out

- Device, queue, factory and swap-chain creation and their failure exceptions are not modelled. They are foreign API calls, and the model starts from a created queue and created command lists.
- The window, the root signature, shader compilation and the pipeline state object are not modelled. They are library work with no logic that affects synchronization.
- Image decoding: `LoadImageFromMemory` is declared without a body. The decoded image is a parameter: a width, a height and a byte sequence.
- Floating-point content is dropped: the `abs(sin(frameNumber / 64))` animation value, the clear colour, the viewport and the vertex coordinates. The constant buffer holds the integer frame number, and vertices are opaque bytes.
- Win32 events, `SetEventOnCompletion`, `WaitForSingleObject` and `CloseHandle` are not modelled. A blocking wait is a loop in which the GPU finishes work until the fence reaches the target. Shutdown is one `CloseEvents` entry in the call log.
- GPU asynchrony is not modelled as concurrency. How much the GPU finishes on its own before each fence read is a parameter: `uploadProgress` before the upload wait, `gpuProgress(k)` before frame k's wait and `drainProgress(i)` before the drain's wait on slot i; each is passed to `CommandQueue.Advance` just before the read.
- `GetRequiredIntermediateSize` and the internals of `UpdateSubresources` are not modelled. The texture copy is one command carrying the two pitches.
- `CreateRenderTargetView` and the descriptor heaps are not modelled. `GetBuffer` is a logged call, and the back buffer of each slot is a resource of its own.
- Sample.D3D12Sample.Present: it requires the counter to stay below 2^64 - 1, instead of modelling the `UINT64` wrap-around. The sample's 512 frames never come near it.
- Layout.TexturePitches: widths and heights are unbounded integers, so an overflow of the C `int` products `width * 4` and `width * height * 4` is not modelled.
- Sample.D3D12Sample.constructor: it creates the queue and the slots' command lists, which the sample does during device creation (src/D3D12Sample.cpp:344-351), and also the init command list, which the sample creates in `Initialize` after the upload fence (src/D3D12Sample.cpp:278-284). The ordering of that creation against the upload fence's is therefore not modelled; `SubmitUpload` starts from the created, empty init list. The sample's constructor itself is empty.
- Sample.D3D12Sample.Initialize: it does not restate the staging-buffer contents, the still-alive staging buffers, or the constant-buffer contents. SubmitUpload and CreateMeshBuffers state them.
- Sample.D3D12Sample.Render: `frameNumber` is a field of each sample object, whereas the source keeps it as a function-local `static int` shared by every instance (src/D3D12Sample.cpp:121-122). With one sample per program, as `main` creates, the two agree.
