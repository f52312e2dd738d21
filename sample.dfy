/**
 * The CPU side of the sample: the class D3D12Sample with its ring of queue slots,
 * its fence counter and per-slot fence values, the one-shot upload in Initialize,
 * and the frame loop and drain of Run. Each method is proved to produce exactly
 * the queue history and call order written down in module Frames.
 */
module Sample {
  import opened Gpu
  import opened Frames
  import opened Layout
  import ResourceStates

  /** The C `int` Run takes as its frame count. */
  newtype int32 = x: int | -0x8000_0000 <= x < 0x8000_0000

  /** UINT64 values are below 2^64. */
  const UINT64_LIMIT: int := 0x1_0000_0000_0000_0000

  /**
   * Blocking on a fence event: the GPU keeps finishing work until fence `f`
   * reaches `v`. It gets there because `v` was already signalled on `f`.
   */
  method BlockUntil(queue: CommandQueue, f: FenceId, v: nat)
    requires queue.Valid() && f in queue.initial
    requires v <= LastSignal(queue.submitted, f, queue.initial[f])
    modifies queue
    ensures queue.submitted == old(queue.submitted) && queue.initial == old(queue.initial)
    ensures queue.Valid() && queue.completed[f] >= v
    ensures old(queue.retired) <= queue.retired
    ensures forall g :: g in old(queue.completed) ==> old(queue.completed)[g] <= queue.completed[g]
  {
    while queue.completed[f] < v
      invariant queue.Valid() && queue.submitted == old(queue.submitted) && queue.initial == old(queue.initial)
      invariant old(queue.retired) <= queue.retired
      invariant forall g :: g in old(queue.completed) ==> old(queue.completed)[g] <= queue.completed[g]
      decreases |queue.submitted| - queue.retired
    {
      assert queue.CompletedIsLast(f);
      assert queue.submitted[..|queue.submitted|] == queue.submitted;
      queue.RetireOne();
    }
  }

  /**
   * WaitForFence: blocks until `fence` has completed `completionValue`, and
   * arms no event and leaves the GPU state as it was when that already holds.
   * `blocked` tells whether it had to wait.
   */
  method WaitForFence(queue: CommandQueue, fence: FenceId, completionValue: nat) returns (blocked: bool)
    requires queue.Valid() && fence in queue.initial
    requires completionValue <= LastSignal(queue.submitted, fence, queue.initial[fence])
    modifies queue
    ensures queue.submitted == old(queue.submitted) && queue.initial == old(queue.initial)
    ensures queue.Valid() && queue.completed[fence] >= completionValue
    ensures blocked == (old(queue.completed[fence]) < completionValue)
    ensures !blocked ==> unchanged(queue)
    ensures old(queue.retired) <= queue.retired
    ensures forall g :: g in old(queue.completed) ==> old(queue.completed)[g] <= queue.completed[g]
  {
    var value := queue.GetCompletedValue(fence);
    blocked := value < completionValue;
    if blocked {
      BlockUntil(queue, fence, completionValue);
    }
  }

  /** Render's first block: bind the target, viewport and scissor, move the back buffer to RENDER_TARGET, clear. */
  method RecordBeginFrame(list: CommandList, slot: nat)
    requires !list.closed && list.commands == []
    modifies list
    ensures !list.closed && list.commands == RenderCommands(slot)[..CLEAR_AT + 1]
  {
    var c := RenderCommands(slot);
    list.Record(c[0]);
    list.Record(c[1]);
    list.Record(c[2]);
    list.Record(c[3]);
    list.Record(c[4]);
    assert list.commands == c[..CLEAR_AT + 1];
  }

  /** Render's second and third blocks: bind state and resources, draw, move the back buffer to PRESENT. */
  method RecordDrawAndEndFrame(list: CommandList, slot: nat)
    requires !list.closed && list.commands == RenderCommands(slot)[..CLEAR_AT + 1]
    modifies list
    ensures !list.closed && list.commands == RenderCommands(slot)
  {
    var c := RenderCommands(slot);
    list.Record(c[5]);
    list.Record(c[6]);
    list.Record(c[7]);
    list.Record(c[8]);
    list.Record(c[9]);
    list.Record(c[10]);
    list.Record(c[11]);
    list.Record(c[12]);
    list.Record(c[13]);
    list.Record(c[14]);
    assert list.commands == c;
  }

  /** A slot's command list, created and closed so that the first Render may reset it. */
  method CreateClosedList(id: ListId) returns (list: CommandList)
    ensures fresh(list) && list.id == id && list.closed && list.commands == []
  {
    list := new CommandList(id);
    list.Close();
  }

  /** Three calls logged one after another. */
  lemma AppendThree(l: seq<Event>, a: Event, b: Event, c: Event)
    ensures l + [a] + [b] + [c] == l + [a, b, c]
  {
  }

  /** The number of iterations of Run's frame loop: none for a negative count. */
  function FrameTotal(frameCount: int32): nat
  {
    if frameCount < 0 then 0 else frameCount as int
  }

  class D3D12Sample {
    /** The ring index: the slot, back buffer, allocator, list and constant buffer in use. */
    var currentBackBuffer: int
    /** The value the next Present signals. */
    var currentFenceValue: nat
    /** Per slot, the value last signalled on that slot's fence. */
    const fenceValues: array<nat>
    /** Per slot, the frame number whose animation value the slot's constant buffer holds. */
    const constantFrame: array<nat>
    /** The direct queue and the fences it signals. */
    const queue: CommandQueue
    /** One command list (with its allocator) per slot. */
    const commandLists: seq<CommandList>
    const initCommandList: CommandList
    /** Whether the init allocator and init list are still held. */
    var initObjectsAlive: bool
    /** The swap-chain buffer renderTarget_ refers to. */
    var renderTarget: int
    /** The static frame counter of Render. */
    var frameNumber: nat
    /** The mapped contents of the mesh staging buffer uploadBuffer_. */
    var uploadBuffer: seq<byte>
    /** imageData_: the decoded texture kept for the upload. */
    var imageData: seq<byte>
    /** The synchronization-relevant calls made so far, in order. */
    var log: seq<Event>

    /** The structure every method keeps: QUEUE_SLOT_COUNT entries per slot array, the index in range. */
    ghost predicate Valid()
      reads this`currentBackBuffer, this`renderTarget, this`currentFenceValue, queue, initCommandList, commandLists
    {
      && fenceValues.Length == QUEUE_SLOT_COUNT
      && constantFrame.Length == QUEUE_SLOT_COUNT && constantFrame != fenceValues
      && |commandLists| == QUEUE_SLOT_COUNT
      && (forall s :: 0 <= s < QUEUE_SLOT_COUNT ==> commandLists[s].id == FrameList(s) && commandLists[s].closed)
      && initCommandList.id == InitList
      && 0 <= currentBackBuffer < QUEUE_SLOT_COUNT
      && renderTarget == currentBackBuffer
      && currentFenceValue < UINT64_LIMIT
      && queue.Valid()
    }

    /**
     * After Initialize: the fences exist, the frame fences were created at 0, and each
     * slot's fence value is the last value signalled on its fence, at most the counter.
     */
    ghost predicate Ready()
      reads this`currentFenceValue, fenceValues, queue`initial, queue`submitted
      requires fenceValues.Length == QUEUE_SLOT_COUNT
    {
      && UploadFence in queue.initial
      && (forall s :: 0 <= s < QUEUE_SLOT_COUNT ==>
            && FrameFence(s) in queue.initial && queue.initial[FrameFence(s)] == 0
            && fenceValues[s] <= currentFenceValue)
      && forall s :: 0 <= s < QUEUE_SLOT_COUNT ==> FenceValueIsLast(s)
    }

    /** fenceValues_[s] is the last value the queue has been asked to signal on the slot's fence. */
    ghost predicate FenceValueIsLast(s: nat)
      reads fenceValues, queue`submitted
      requires s < fenceValues.Length
    {
      fenceValues[s] == LastSignal(queue.submitted, FrameFence(s), 0)
    }

    /** The state before Initialize: nothing submitted, no fence, the init list open and empty. */
    ghost predicate Unstarted()
      reads this, queue, initCommandList
    {
      && log == [] && frameNumber == 0 && currentBackBuffer == 0
      && queue.submitted == [] && queue.retired == 0 && queue.initial == map[]
      && !initCommandList.closed && initCommandList.commands == []
      && initObjectsAlive
    }

    /**
     * The queue, the per-slot allocators and lists (closed, ready for their first
     * Reset) and the init allocator and list (open).
     */
    constructor ()
      ensures Valid() && Unstarted()
      ensures fresh(queue) && fresh(fenceValues) && fresh(constantFrame) && fresh(initCommandList)
      ensures forall s :: 0 <= s < |commandLists| ==> fresh(commandLists[s])
    {
      currentBackBuffer := 0;
      currentFenceValue := 0;
      fenceValues := new nat[QUEUE_SLOT_COUNT];
      constantFrame := new nat[QUEUE_SLOT_COUNT];
      queue := new CommandQueue();
      var l0 := CreateClosedList(FrameList(0));
      var l1 := CreateClosedList(FrameList(1));
      var l2 := CreateClosedList(FrameList(2));
      commandLists := [l0, l1, l2];
      initCommandList := new CommandList(InitList);
      initObjectsAlive := true;
      renderTarget := 0;
      frameNumber := 0;
      uploadBuffer := [];
      imageData := [];
      log := [];
    }

    /** GetQueueSlot: the slot in use is the ring index, always one of the QUEUE_SLOT_COUNT slots. */
    function GetQueueSlot(): (slot: int)
      reads this`currentBackBuffer
      requires 0 <= currentBackBuffer < QUEUE_SLOT_COUNT
      ensures 0 <= slot < QUEUE_SLOT_COUNT && slot == currentBackBuffer
    {
      currentBackBuffer
    }

    /** GetQueueSlotCount: the ring has as many slots as each per-slot array has entries. */
    function GetQueueSlotCount(): (count: nat)
      reads this, fenceValues, constantFrame, queue, initCommandList, commandLists
      requires Valid()
      ensures count == 3 && count == fenceValues.Length == constantFrame.Length == |commandLists|
    {
      QUEUE_SLOT_COUNT
    }

    /** CreateMeshBuffers: stage vertices and indices, record the two copies and the two barriers. */
    method CreateMeshBuffers(vertexBytes: seq<byte>)
      requires |vertexBytes| == VERTICES_SIZE && !initCommandList.closed
      modifies this`uploadBuffer, initCommandList
      ensures !initCommandList.closed
      ensures initCommandList.commands == old(initCommandList.commands) + MeshUploadCommands()
      ensures uploadBuffer == vertexBytes + EncodeIndices(INDICES)
      ensures CopySource(uploadBuffer, VERTEX_REGION) == vertexBytes
      ensures CopySource(uploadBuffer, INDEX_REGION) == EncodeIndices(INDICES)
    {
      var mapped := seq(UPLOAD_BUFFER_SIZE, _ => 0 as byte);
      IndexBufferHoldsIndices();
      StagedCopiesRoundTrip(mapped, vertexBytes, EncodeIndices(INDICES));
      uploadBuffer := StageMesh(mapped, vertexBytes, EncodeIndices(INDICES));
      var c := MeshUploadCommands();
      initCommandList.Record(c[0]);
      initCommandList.Record(c[1]);
      initCommandList.Record(c[2]);
      initCommandList.Record(c[3]);
    }

    /** CreateConstantBuffer: each slot's buffer starts as the zero record. */
    method CreateConstantBuffer()
      requires constantFrame.Length == QUEUE_SLOT_COUNT
      modifies constantFrame
      ensures forall s :: 0 <= s < QUEUE_SLOT_COUNT ==> constantFrame[s] == 0
    {
      for i := 0 to QUEUE_SLOT_COUNT
        invariant forall s :: 0 <= s < i ==> constantFrame[s] == 0
      {
        constantFrame[i] := 0;
      }
    }

    /** CreateTexture: keep the decoded image and record its upload and its barrier. */
    method CreateTexture(image: Image)
      requires !initCommandList.closed
      modifies this`imageData, initCommandList
      ensures !initCommandList.closed
      ensures initCommandList.commands == old(initCommandList.commands) + TextureUploadCommands(image)
      ensures imageData == image.pixels
    {
      imageData := image.pixels;
      var c := TextureUploadCommands(image);
      initCommandList.Record(c[0]);
      initCommandList.Record(c[1]);
    }

    /** src/D3D12Sample.cpp lines 229-235: the counter and every slot's fence value at 0, one frame fence per slot created at 0. */
    method CreateFrameFences()
      requires Valid() && Unstarted()
      modifies this`currentFenceValue, this`log, fenceValues, queue
      ensures Valid()
      ensures queue.submitted == [] && queue.retired == 0
      ensures forall f :: f in queue.initial <==> f.FrameFence? && f.slot < QUEUE_SLOT_COUNT
      ensures forall f :: f in queue.initial ==> queue.initial[f] == 0 && queue.completed[f] == 0
      ensures currentFenceValue == 0
      ensures forall s :: 0 <= s < QUEUE_SLOT_COUNT ==> fenceValues[s] == 0
      ensures log == FrameFenceEvents()
    {
      currentFenceValue := 0;
      var i := 0;
      while i < GetQueueSlotCount()
        invariant 0 <= i <= QUEUE_SLOT_COUNT
        invariant Valid() && queue.submitted == [] && queue.retired == 0
        invariant forall f :: f in queue.initial <==> f.FrameFence? && f.slot < i
        invariant forall f :: f in queue.initial ==> queue.initial[f] == 0 && queue.completed[f] == 0
        invariant currentFenceValue == 0
        invariant forall s :: 0 <= s < i ==> fenceValues[s] == 0
        invariant log == FrameFenceEvents()[..i]
      {
        fenceValues[i] := 0;
        queue.CreateFence(FrameFence(i), currentFenceValue);
        log := log + [CreateFenceCall(FrameFence(i), currentFenceValue)];
        i := i + 1;
      }
      assert FrameFenceEvents()[..QUEUE_SLOT_COUNT] == FrameFenceEvents();
    }

    /**
     * src/D3D12Sample.cpp lines 278-294: create the upload fence at 0, record the mesh and texture uploads
     * into the init list (and fill the constant buffers), close the list, submit it and
     * signal the upload fence with 1.
     */
    method SubmitUpload(image: Image, vertexBytes: seq<byte>)
      requires queue.Valid() && queue.submitted == [] && UploadFence !in queue.initial
      requires initCommandList.id == InitList && !initCommandList.closed && initCommandList.commands == []
      requires constantFrame.Length == QUEUE_SLOT_COUNT && |vertexBytes| == VERTICES_SIZE
      modifies this`uploadBuffer, this`imageData, this`log, initCommandList, constantFrame, queue
      ensures queue.Valid() && queue.submitted == InitWork(image) && queue.retired == old(queue.retired)
      ensures queue.initial == old(queue.initial)[UploadFence := 0]
      ensures queue.completed == old(queue.completed)[UploadFence := 0]
      ensures initCommandList.closed && initCommandList.commands == UploadCommands(image)
      ensures uploadBuffer == vertexBytes + EncodeIndices(INDICES) && imageData == image.pixels
      ensures forall s :: 0 <= s < QUEUE_SLOT_COUNT ==> constantFrame[s] == 0
      ensures log == old(log) + UploadSubmitEvents()
    {
      queue.CreateFence(UploadFence, 0);
      log := log + [CreateFenceCall(UploadFence, 0)];
      RecordUpload(image, vertexBytes);
      initCommandList.Close();
      log := log + [CloseList(InitList)];
      queue.ExecuteCommandLists(initCommandList);
      log := log + [ExecuteList(InitList)];
      LastSignalAppend([], queue.submitted[0], UploadFence, 0);
      assert [] + [queue.submitted[0]] == queue.submitted;
      queue.Signal(UploadFence, 1);
      log := log + [SignalFence(UploadFence, 1)];
      AppendThree(old(log) + [CreateFenceCall(UploadFence, 0)], CloseList(InitList), ExecuteList(InitList), SignalFence(UploadFence, 1));
    }

    /** The calls at src/D3D12Sample.cpp lines 286-288: the mesh, the constant buffers and the texture. */
    method RecordUpload(image: Image, vertexBytes: seq<byte>)
      requires !initCommandList.closed && initCommandList.commands == []
      requires constantFrame.Length == QUEUE_SLOT_COUNT && |vertexBytes| == VERTICES_SIZE
      modifies this`uploadBuffer, this`imageData, initCommandList, constantFrame
      ensures !initCommandList.closed && initCommandList.commands == UploadCommands(image)
      ensures uploadBuffer == vertexBytes + EncodeIndices(INDICES) && imageData == image.pixels
      ensures forall s :: 0 <= s < QUEUE_SLOT_COUNT ==> constantFrame[s] == 0
    {
      CreateMeshBuffers(vertexBytes);
      CreateConstantBuffer();
      CreateTexture(image);
      assert initCommandList.commands == UploadCommands(image);
    }

    /**
     * src/D3D12Sample.cpp lines 296-304: if the upload fence does not read 1, block until it does; then
     * reset the init allocator and release the init allocator and list.
     * `uploadProgress` is how much the GPU finishes before the fence is read.
     */
    method WaitForUpload(image: Image, uploadProgress: nat)
      requires queue.Valid() && queue.submitted == InitWork(image)
      requires UploadFence in queue.initial && queue.initial[UploadFence] == 0
      requires initCommandList.closed && initCommandList.id == InitList
      modifies this`initObjectsAlive, this`log, initCommandList, queue
      ensures queue.Valid() && queue.submitted == old(queue.submitted) && queue.initial == old(queue.initial)
      ensures queue.retired == |InitWork(image)| && queue.completed[UploadFence] == 1
      ensures initCommandList.closed && !initObjectsAlive
      ensures log == old(log) + UploadWaitEvents()
    {
      LastSignalAppend(InitWork(image)[..1], Work.Signal(UploadFence, 1), UploadFence, 0);
      assert InitWork(image)[..1] + [Work.Signal(UploadFence, 1)] == InitWork(image);
      queue.Advance(uploadProgress);
      var uploaded := queue.GetCompletedValue(UploadFence);
      if uploaded != 1 {
        BlockUntil(queue, UploadFence, 1);
      }
      log := log + [WaitFence(UploadFence, 1)];
      queue.CompletedBounded(UploadFence);
      assert queue.CompletedIsLast(UploadFence);
      UploadRetired(image, queue.retired);
      initCommandList.ResetAllocator(queue);
      log := log + [ResetAllocatorCall(InitList)];
      initObjectsAlive := false;
      log := log + [ReleaseInitObjects];
      AppendThree(old(log), WaitFence(UploadFence, 1), ResetAllocatorCall(InitList), ReleaseInitObjects);
    }

    /** src/D3D12Sample.cpp lines 278-304: the whole upload, submitted and waited for; the frame fences are left as they were. */
    method Upload(image: Image, vertexBytes: seq<byte>, uploadProgress: nat)
      requires queue.Valid() && queue.submitted == []
      requires forall f :: f in queue.initial ==> f.FrameFence? && queue.initial[f] == 0
      requires initCommandList.id == InitList && !initCommandList.closed && initCommandList.commands == []
      requires constantFrame.Length == QUEUE_SLOT_COUNT && |vertexBytes| == VERTICES_SIZE
      modifies this`uploadBuffer, this`imageData, this`log, this`initObjectsAlive, initCommandList, constantFrame, queue
      ensures queue.Valid() && queue.submitted == InitWork(image) && queue.retired == |InitWork(image)|
      ensures queue.initial == old(queue.initial)[UploadFence := 0]
      ensures queue.completed[UploadFence] == 1
      ensures forall f :: f in old(queue.initial) ==> queue.completed[f] == 0
      ensures initCommandList.closed && !initObjectsAlive
      ensures log == old(log) + UploadSubmitEvents() + UploadWaitEvents()
    {
      SubmitUpload(image, vertexBytes);
      WaitForUpload(image, uploadProgress);
      forall f | f in old(queue.initial) ensures queue.completed[f] == 0 {
        UploadLeavesFrameFences(image, f.slot);
        assert queue.CompletedIsLast(f);
      }
    }

    /**
     * The fence and upload part of Initialize: the counter and the frame fences at 0,
     * back buffer 0, the upload recorded, submitted, signalled with 1 and waited for,
     * then the init allocator and list released. The staging buffers stay alive.
     */
    method Initialize(image: Image, vertexBytes: seq<byte>, uploadProgress: nat)
      requires Valid() && Unstarted()
      requires |vertexBytes| == VERTICES_SIZE
      modifies this, fenceValues, constantFrame, queue, initCommandList
      ensures Valid() && Ready()
      ensures queue.submitted == InitWork(image) && queue.retired == |InitWork(image)|
      ensures queue.completed[UploadFence] == 1
      ensures forall s :: 0 <= s < QUEUE_SLOT_COUNT ==> queue.completed[FrameFence(s)] == 0 && fenceValues[s] == 0
      ensures currentFenceValue == 0 && currentBackBuffer == 0 && frameNumber == 0
      ensures log == InitEvents()
      ensures !initObjectsAlive
    {
      CreateFrameFences();
      renderTarget := currentBackBuffer;
      log := log + [GetBuffer(currentBackBuffer)];
      Upload(image, vertexBytes, uploadProgress);
      forall s | 0 <= s < QUEUE_SLOT_COUNT ensures FenceValueIsLast(s) {
        UploadLeavesFrameFences(image, s);
      }
    }

    /**
     * Render's first block (src/D3D12Sample.cpp lines 91-119): reset the slot's allocator
     * and list, then record up to the clear.
     */
    method ResetAndBeginFrame(slot: nat, list: CommandList)
      requires Valid() && slot == currentBackBuffer && list == commandLists[slot]
      requires !queue.InFlight(FrameList(slot))
      modifies this`log, list
      ensures !list.closed && list.commands == RenderCommands(slot)[..CLEAR_AT + 1]
      ensures log == old(log) + [ResetAllocatorCall(FrameList(slot)), ResetList(FrameList(slot))]
    {
      list.ResetAllocator(queue);
      log := log + [ResetAllocatorCall(FrameList(slot))];
      list.Reset();
      log := log + [ResetList(FrameList(slot))];
      RecordBeginFrame(list, slot);
    }

    /**
     * Render: re-record and submit the list of the current slot, after resetting the
     * slot's allocator and list and writing the slot's constant buffer. The caller
     * guarantees the GPU is done with that list and that constant buffer.
     */
    method Render()
      requires Valid() && Ready()
      requires !queue.InFlight(FrameList(currentBackBuffer))
      requires !queue.Referenced(ConstantBuffer(currentBackBuffer))
      modifies this`frameNumber, this`log, queue, constantFrame, commandLists[currentBackBuffer]
      ensures Valid() && Ready()
      ensures queue.submitted
              == old(queue.submitted) + [Execute(FrameList(currentBackBuffer), RenderCommands(currentBackBuffer))]
      ensures queue.retired == old(queue.retired) && queue.initial == old(queue.initial)
      ensures queue.completed == old(queue.completed)
      ensures frameNumber == old(frameNumber) + 1
      ensures forall s :: 0 <= s < QUEUE_SLOT_COUNT ==>
                constantFrame[s] == if s == currentBackBuffer then frameNumber else old(constantFrame[s])
      ensures log == old(log) + RenderEvents(currentBackBuffer, frameNumber)
    {
      var slot := GetQueueSlot();
      var list := commandLists[slot];
      ResetAndBeginFrame(slot, list);
      frameNumber := frameNumber + 1;
      constantFrame[slot] := frameNumber;
      log := log + [WriteConstants(slot, frameNumber)];
      RecordDrawAndEndFrame(list, slot);
      list.Close();
      log := log + [CloseList(FrameList(slot))];
      var before := queue.submitted;
      queue.ExecuteCommandLists(list);
      log := log + [ExecuteList(FrameList(slot))];
      AppendThree(old(log) + [ResetAllocatorCall(FrameList(slot)), ResetList(FrameList(slot))],
                  WriteConstants(slot, frameNumber), CloseList(FrameList(slot)), ExecuteList(FrameList(slot)));
      forall s | 0 <= s < QUEUE_SLOT_COUNT
        ensures FenceValueIsLast(s)
      {
        assert old(FenceValueIsLast(s));
        LastSignalAppend(before, Execute(FrameList(slot), RenderCommands(slot)), FrameFence(s), 0);
      }
    }

    /**
     * Present: show the frame, move the ring to the next slot, and signal that NEXT
     * slot's fence with the current counter, which is recorded as the slot's fence
     * value before the counter is incremented.
     */
    method Present()
      requires Valid() && Ready()
      requires currentFenceValue + 1 < UINT64_LIMIT
      modifies this`currentBackBuffer, this`renderTarget, this`currentFenceValue, this`log, fenceValues, queue
      ensures Valid() && Ready()
      ensures currentBackBuffer == (old(currentBackBuffer) + 1) % QUEUE_SLOT_COUNT
      ensures queue.submitted
              == old(queue.submitted) + [Work.Signal(FrameFence(currentBackBuffer), old(currentFenceValue))]
      ensures queue.retired == old(queue.retired) && queue.initial == old(queue.initial)
      ensures queue.completed == old(queue.completed)
      ensures forall s :: 0 <= s < QUEUE_SLOT_COUNT ==>
                fenceValues[s] == if s == currentBackBuffer then old(currentFenceValue) else old(fenceValues[s])
      ensures currentFenceValue == old(currentFenceValue) + 1
      ensures log == old(log) + PresentEvents(currentBackBuffer, old(currentFenceValue))
    {
      log := log + [PresentFrame];
      currentBackBuffer := (currentBackBuffer + 1) % GetQueueSlotCount();
      renderTarget := currentBackBuffer;
      log := log + [GetBuffer(currentBackBuffer)];
      var fenceValue := currentFenceValue;
      var before := queue.submitted;
      assert FenceValueIsLast(currentBackBuffer);
      queue.Signal(FrameFence(currentBackBuffer), fenceValue);
      log := log + [SignalFence(FrameFence(currentBackBuffer), fenceValue)];
      fenceValues[currentBackBuffer] := fenceValue;
      currentFenceValue := currentFenceValue + 1;
      AppendThree(old(log), PresentFrame, GetBuffer(currentBackBuffer), SignalFence(FrameFence(currentBackBuffer), fenceValue));
      forall s | 0 <= s < QUEUE_SLOT_COUNT
        ensures FenceValueIsLast(s)
      {
        assert old(FenceValueIsLast(s));
        LastSignalAppend(before, Work.Signal(FrameFence(currentBackBuffer), fenceValue), FrameFence(s), 0);
      }
    }

    /**
     * The state of Run after `i` iterations of its frame loop: the queue holds the
     * upload and the first i frames, the upload is finished, the counter is i, the
     * ring is at slot i mod 3, and every slot holds the value it was last signalled with.
     */
    ghost predicate RunningAt(image: Image, i: nat)
      reads this`currentFenceValue, this`currentBackBuffer, fenceValues, queue`submitted, queue`retired
      requires fenceValues.Length == QUEUE_SLOT_COUNT
    {
      && queue.submitted == RunHistory(image, i) && |InitWork(image)| <= queue.retired
      && currentFenceValue == i && currentBackBuffer == i % QUEUE_SLOT_COUNT
      && forall s :: 0 <= s < QUEUE_SLOT_COUNT ==> fenceValues[s] == LastFrameSignalled(i, s)
    }

    /**
     * The wait at the head of an iteration of Run's frame loop (src/D3D12Sample.cpp lines 184-185): with
     * `progress` finished on its own beforehand, block until the current slot's
     * fence reaches the value last signalled on it. Afterwards the slot's command
     * list and constant buffer are no longer in use.
     */
    method WaitForSlot(image: Image, i: nat, progress: nat) returns (slot: nat)
      requires Valid() && Ready() && RunningAt(image, i)
      modifies this`log, queue
      ensures Valid() && Ready() && RunningAt(image, i)
      ensures slot == currentBackBuffer == i % QUEUE_SLOT_COUNT
      ensures !queue.InFlight(FrameList(slot)) && !queue.Referenced(ConstantBuffer(slot))
      ensures i >= 2 ==> queue.retired == |queue.submitted|
      ensures log == old(log) + [WaitFence(FrameFence(slot), LastFrameSignalled(i, slot))]
    {
      queue.Advance(progress);
      slot := GetQueueSlot();
      log := log + [WaitFence(FrameFence(slot), fenceValues[slot])];
      assert FenceValueIsLast(slot);
      var _ := WaitForFence(queue, FrameFence(slot), fenceValues[slot]);
      assert queue.CompletedIsLast(FrameFence(slot));
      SlotFreeAfterWait(image, i, queue.retired);
    }

    /**
     * Half-way through iteration `i` of Run's frame loop: the slot's list has been
     * submitted and its constant buffer written; nothing has been presented yet.
     */
    ghost predicate RenderedAt(image: Image, i: nat)
      reads this`currentFenceValue, this`currentBackBuffer, this`frameNumber, fenceValues, queue`submitted, queue`retired
      requires fenceValues.Length == QUEUE_SLOT_COUNT
    {
      && queue.submitted
         == RunHistory(image, i) + [Execute(FrameList(i % QUEUE_SLOT_COUNT), RenderCommands(i % QUEUE_SLOT_COUNT))]
      && |InitWork(image)| <= queue.retired
      && currentFenceValue == i && currentBackBuffer == i % QUEUE_SLOT_COUNT && frameNumber == i + 1
      && forall s :: 0 <= s < QUEUE_SLOT_COUNT ==> fenceValues[s] == LastFrameSignalled(i, s)
    }

    /** The first part of an iteration of Run's frame loop (src/D3D12Sample.cpp lines 184-188): wait for the slot, then Render. */
    method RenderFrame(image: Image, i: nat, progress: nat)
      requires Valid() && Ready() && RunningAt(image, i) && frameNumber == i
      modifies this`frameNumber, this`log, constantFrame, queue, commandLists
      ensures Valid() && Ready() && RenderedAt(image, i)
      ensures log == old(log) + [WaitFence(FrameFence(i % QUEUE_SLOT_COUNT), LastFrameSignalled(i, i % QUEUE_SLOT_COUNT))]
                     + RenderEvents(i % QUEUE_SLOT_COUNT, i + 1)
    {
      var slot := WaitForSlot(image, i, progress);
      Render();
    }

    /**
     * One iteration of Run's frame loop (src/D3D12Sample.cpp lines 184-189): wait on the current slot's
     * fence for the value last signalled on it, then Render and Present.
     * `progress` is how much the GPU finishes on its own before the wait.
     */
    method RunFrame(image: Image, i: nat, progress: nat)
      requires Valid() && Ready() && RunningAt(image, i) && frameNumber == i
      requires i + 1 < UINT64_LIMIT
      modifies this`currentBackBuffer, this`renderTarget, this`currentFenceValue, this`frameNumber, this`log
      modifies fenceValues, constantFrame, queue, commandLists
      ensures Valid() && Ready() && RunningAt(image, i + 1) && frameNumber == i + 1
      ensures log == old(log) + IterationEvents(i)
    {
      RenderFrame(image, i, progress);
      Present();
      NextSlot(i);
      LastFrameSignalledStep(i, 0);
      LastFrameSignalledStep(i, 1);
      LastFrameSignalledStep(i, 2);
      RunHistoryStep(image, i);
      IterationEventsAfter(old(log), i);
    }

    /** Run's frame loop (src/D3D12Sample.cpp lines 183-190): `n` iterations, each adding its calls to the log. */
    method FrameLoop(image: Image, n: nat, gpuProgress: nat -> nat)
      requires Valid() && Ready() && RunningAt(image, 0) && frameNumber == 0
      requires n < UINT64_LIMIT
      modifies this`currentBackBuffer, this`renderTarget, this`currentFenceValue, this`frameNumber, this`log
      modifies fenceValues, constantFrame, queue, commandLists
      ensures Valid() && Ready() && RunningAt(image, n)
      ensures log == old(log) + FrameEvents(n)
    {
      var i := 0;
      while i < n
        invariant 0 <= i <= n
        invariant Valid() && Ready() && RunningAt(image, i) && frameNumber == i
        invariant log == old(log) + FrameEvents(i)
      {
        RunFrame(image, i, gpuProgress(i));
        AppendAssoc(old(log), FrameEvents(i), IterationEvents(i));
        i := i + 1;
      }
    }

    /**
     * One wait of Run's drain (src/D3D12Sample.cpp line 194): on slot i's fence, for the value
     * last signalled on it; the GPU first finishes up to `progress` submitted items on its own.
     */
    method DrainSlot(image: Image, n: nat, i: nat, progress: nat)
      requires Valid() && Ready() && RunningAt(image, n) && i < QUEUE_SLOT_COUNT
      modifies this`log, queue
      ensures Valid() && Ready() && RunningAt(image, n)
      ensures FrameFence(i) in queue.completed && queue.completed[FrameFence(i)] >= fenceValues[i]
      ensures forall g :: g in old(queue.completed) ==> g in queue.completed && old(queue.completed)[g] <= queue.completed[g]
      ensures log == old(log) + [WaitFence(FrameFence(i), LastFrameSignalled(n, i))]
    {
      queue.Advance(progress);
      log := log + [WaitFence(FrameFence(i), fenceValues[i])];
      assert FenceValueIsLast(i);
      var _ := WaitForFence(queue, FrameFence(i), fenceValues[i]);
    }

    /**
     * Run's drain (src/D3D12Sample.cpp lines 193-195): one wait per slot, on the value last signalled on
     * that slot's fence. Except after exactly one frame, nothing is left unfinished.
     */
    method Drain(image: Image, n: nat, drainProgress: nat -> nat)
      requires Valid() && Ready() && RunningAt(image, n)
      modifies this`log, queue
      ensures Valid() && Ready() && RunningAt(image, n)
      ensures forall t :: 0 <= t < QUEUE_SLOT_COUNT ==> queue.completed[FrameFence(t)] >= LastFrameSignalled(n, t)
      ensures n != 1 ==> queue.retired == |queue.submitted|
      ensures log == old(log) + DrainEvents(n)
    {
      var i := 0;
      while i < GetQueueSlotCount()
        invariant 0 <= i <= QUEUE_SLOT_COUNT
        invariant Valid() && Ready() && RunningAt(image, n)
        invariant forall t :: 0 <= t < i ==> FrameFence(t) in queue.completed && queue.completed[FrameFence(t)] >= fenceValues[t]
        invariant log == old(log) + DrainEvents(n)[..i]
      {
        ghost var before := queue.completed;
        DrainSlot(image, n, i, drainProgress(i));
        forall t | 0 <= t < i + 1
          ensures FrameFence(t) in queue.completed && queue.completed[FrameFence(t)] >= fenceValues[t]
        {
          if t < i {
            assert before[FrameFence(t)] <= queue.completed[FrameFence(t)];
          }
        }
        assert DrainEvents(n)[..i + 1] == DrainEvents(n)[..i] + [DrainEvents(n)[i]];
        i := i + 1;
      }
      assert DrainEvents(n)[..QUEUE_SLOT_COUNT] == DrainEvents(n);
      if n != 1 {
        forall s | 0 <= s < QUEUE_SLOT_COUNT
          ensures LastSignal(queue.submitted[..queue.retired], FrameFence(s), 0) >= LastFrameSignalled(n, s)
        {
          assert queue.CompletedIsLast(FrameFence(s));
        }
        DrainRetiresAll(image, n, queue.retired);
      }
    }

    /**
     * Run: Initialize, then per frame wait on the current slot's fence, Render and
     * Present; then drain by waiting on every slot's fence once, then Shutdown.
     * `gpuProgress(k)` is how much the GPU finishes on its own before the k-th frame's wait,
     * `drainProgress(i)` how much before the drain's wait on slot i.
     */
    method Run(frameCount: int32, image: Image, vertexBytes: seq<byte>,
               uploadProgress: nat, gpuProgress: nat -> nat, drainProgress: nat -> nat)
      requires Valid() && Unstarted()
      requires |vertexBytes| == VERTICES_SIZE
      modifies this, fenceValues, constantFrame, queue, initCommandList, commandLists
      ensures queue.submitted == RunHistory(image, FrameTotal(frameCount))
      ensures log == RunEvents(FrameTotal(frameCount)) + DrainEvents(FrameTotal(frameCount)) + [CloseEvents]
      ensures FrameTotal(frameCount) != 1 ==> queue.retired == |queue.submitted|
      ensures forall s :: 0 <= s < QUEUE_SLOT_COUNT ==>
                FrameFence(s) in queue.completed
                && queue.completed[FrameFence(s)] >= LastFrameSignalled(FrameTotal(frameCount), s)
      ensures ResourceStates.Consistent(CreatedStates(), ResourceStates.ExecutedCommands(queue.submitted))
    {
      var n := FrameTotal(frameCount);
      Initialize(image, vertexBytes, uploadProgress);
      assert RunHistory(image, 0) == InitWork(image);

      FrameLoop(image, n, gpuProgress);
      Drain(image, n, drainProgress);
      log := log + [CloseEvents];
      RunConsistent(image, n);
    }
  }

  /**
   * The program's entry point (src/D3D12Sample.cpp lines 542-546): a new sample runs 512 frames.
   * The GPU's pace is given by the three progress parameters, as for Run; whatever it is, every
   * submitted item has been retired and every slot's fence has reached its last signalled value
   * by the time the drain is over.
   */
  method RunSample(image: Image, vertexBytes: seq<byte>,
                   uploadProgress: nat, gpuProgress: nat -> nat, drainProgress: nat -> nat)
    returns (sample: D3D12Sample)
    requires |vertexBytes| == VERTICES_SIZE
    ensures sample.queue.submitted == RunHistory(image, 512)
    ensures sample.queue.retired == |sample.queue.submitted|
    ensures sample.log == RunEvents(512) + DrainEvents(512) + [CloseEvents]
    ensures forall s :: 0 <= s < QUEUE_SLOT_COUNT ==>
              FrameFence(s) in sample.queue.completed
              && sample.queue.completed[FrameFence(s)] >= LastFrameSignalled(512, s)
  {
    sample := new D3D12Sample();
    sample.Run(512, image, vertexBytes, uploadProgress, gpuProgress, drainProgress);
  }
}
